/**
  A worked run of the tree operations on concrete keys, with each key stored as its
  own payload: five insertions overflow the root leaf once, and one deletion then
  borrows from the right sibling.
 */
module Scenario {
  import opened Wrappers
  import opened KeySeq
  import opened BPTree

  /** Inserting keys 10, 20, 5 and 6 into an empty tree fills the root leaf, in order. */
  function FourInserts(): (t: Tree<int>)
    ensures t == Some(Leaf([5, 6, 10, 20], [5, 6, 10, 20]))
  {
    var t1 := Insert(None, 10, 10);
    assert t1 == Some(Leaf([10], [10]));
    assert InsertPos([10], 20) == 1;
    assert InsertAt([10], 1, 20) == [10, 20];
    var t2 := Insert(t1, 20, 20);
    assert t2 == Some(Leaf([10, 20], [10, 20]));
    assert InsertPos([10, 20], 5) == 0;
    assert InsertAt([10, 20], 0, 5) == [5, 10, 20];
    var t3 := Insert(t2, 5, 5);
    assert t3 == Some(Leaf([5, 10, 20], [5, 10, 20]));
    assert InsertPos([5, 10, 20], 6) == 1;
    assert InsertAt([5, 10, 20], 1, 6) == [5, 6, 10, 20];
    Insert(t3, 6, 6)
  }

  /**
    Inserting 12 next overflows the root leaf: it splits into two and three entries,
    and a new root holds the right leaf's first key.
   */
  function FiveInserts(): (t: Tree<int>)
    ensures t == Some(Internal([10], [Left(), Right()]))
    ensures Shaped(t.value)
  {
    TwoLeaves(10, Left(), Right());
    assert InsertPos([5, 6, 10, 20], 12) == 3;
    var ks := InsertAt([5, 6, 10, 20], 3, 12);
    assert ks == [5, 6, 10, 12, 20];
    assert ks[..MID] == [5, 6] && ks[MID..] == [10, 12, 20];
    var full := Leaf([5, 6, 10, 20], [5, 6, 10, 20]);
    assert InsertRec(full, 12, 12) == SettleLeaf(ks, ks) == Split(Left(), 10, Right());
    Insert(FourInserts(), 12, 12)
  }

  /** A root with one key above two leaves is shaped. */
  lemma TwoLeaves<T>(k: int, l: Node<T>, r: Node<T>)
    requires l.Leaf? && |l.keys| == |l.vals| && r.Leaf? && |r.keys| == |r.vals|
    ensures Shaped(Internal([k], [l, r]))
  {
    var cs := [l, r];
    assert forall j :: 0 <= j < |cs| ==> cs[j] == l || cs[j] == r;
  }

  /** The two leaves of the tree FiveInserts builds. */
  function Left(): Node<int> { Leaf([5, 6], [5, 6]) }
  function Right(): Node<int> { Leaf([10, 12, 20], [10, 12, 20]) }

  /**
    The repair after deleting 6: the left leaf is down to [5], below MID keys, has no
    left sibling, and its right sibling has more than MID keys, so it takes the
    sibling's first entry and the separator becomes the sibling's new first key.
   */
  lemma BorrowRightStep()
    ensures Rebalance([10], [Leaf([5], [5]), Right()], 0)
         == Internal([12], [Leaf([5, 10], [5, 10]), Leaf([12, 20], [12, 20])])
  {
    var rk := [10, 12, 20];
    assert rk[1..] == [12, 20];
    assert [5] + [10] == [5, 10];
    var cs' := [Leaf([5], [5]), Right()];
    assert cs'[0 := Leaf([5, 10], [5, 10])][1 := Leaf([12, 20], [12, 20])]
        == [Leaf([5, 10], [5, 10]), Leaf([12, 20], [12, 20])];
  }

  /**
    Deleting 6 below the root FiveInserts builds: the left leaf loses 6 and, being
    down to one key, goes to the repair.
   */
  lemma RemoveSix()
    ensures DeleteBelow(Internal([10], [Left(), Right()]), 6) == Rebalance([10], [Leaf([5], [5]), Right()], 0)
  {
    var n := Internal([10], [Left(), Right()]);
    TwoLeaves(10, Left(), Right());
    assert ChildIndex([10], 6) == 0;
    assert FirstIndex([5, 6], 6) == 1;
    assert RemoveAt([5, 6], 1) == [5];
    assert n.children[0 := Leaf(RemoveAt([5, 6], 1), RemoveAt([5, 6], 1))] == [Leaf([5], [5]), Right()];
  }

  /**
    The fifth insertion splits the full leaf into two and three entries under the new
    root key 10; deleting 6 leaves [5], below the threshold of two keys, and with no
    left sibling and a right sibling of three keys the leaf borrows 10 from the right,
    and the separator becomes 12.
   */
  lemma InsertsThenDelete()
    ensures Delete(FiveInserts(), 6) == Some(Internal([12], [Leaf([5, 10], [5, 10]), Leaf([12, 20], [12, 20])]))
  {
    RemoveSix();
    BorrowRightStep();
  }
}
