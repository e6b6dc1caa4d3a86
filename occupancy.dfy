/**
  Minimum occupancy: every node other than the root holds at least MID = (MAX+1)/2
  keys, and an internal root holds at least one. Insertion keeps this at every height.
  Deletion repairs an underflowing leaf through its parent only, so it keeps this when
  the leaves hang directly off the root, and not above that, as a concrete tree shows.
 */
module Occupancy {
  import opened Wrappers
  import opened KeySeq
  import opened BPTree

  /** A non-root subtree in which every node holds at least MID keys. */
  ghost predicate MinFilled<T>(n: Node<T>)
    decreases n
  {
    && |n.keys| >= MID
    && (n.Internal? ==> forall j :: 0 <= j < |n.children| ==> MinFilled(n.children[j]))
  }

  /** Every subtree below `n` is at least half full. */
  ghost predicate ChildrenFilled<T>(n: Node<T>) {
    n.Internal? ==> forall j :: 0 <= j < |n.children| ==> MinFilled(n.children[j])
  }

  /** The occupancy invariant of a whole tree. */
  ghost predicate Filled<T>(t: Tree<T>) {
    t.Some? ==> ChildrenFilled(t.value) && (t.value.Internal? ==> |t.value.keys| >= 1)
  }

  // ---------------------------------------------------------------------------
  // Insertion

  /**
    Insertion below a subtree whose children are at least half full: a node that
    absorbs the key only grows, and both halves of a split hold at least MID keys.
   */
  lemma {:induction false} InsertRecFills<T>(n: Node<T>, key: int, data: T)
    requires Shaped(n) && ChildrenFilled(n)
    ensures match InsertRec(n, key, data)
      case Fit(c) => |c.keys| >= |n.keys| && c.Internal? == n.Internal? && ChildrenFilled(c)
      case Split(l, _, r) => MinFilled(l) && MinFilled(r)
    decreases n
  {
    match n
    case Leaf(ks, vs) =>
      var ks' := InsertAt(ks, InsertPos(ks, key), key);
      assert |ks'| == |ks| + 1;
    case Internal(ks, cs) =>
      var i := ChildIndex(ks, key);
      assert Shaped(cs[i]) && MinFilled(cs[i]);
      InsertRecFills(cs[i], key, data);
      match InsertRec(cs[i], key, data)
      case Fit(c) =>
        FitFills(ks, cs, i, c);
      case Split(l, u, r) =>
        assert InsertRec(n, key, data) == Promote(ks, cs, i, l, u, r);
        GrowFills(ks, cs, i, l, u, r);
  }

  /** A parent whose children are half full, taking back a child that only grew. */
  lemma FitFills<T>(ks: seq<int>, cs: seq<Node<T>>, i: nat, c: Node<T>)
    requires i < |cs|
    requires forall j :: 0 <= j < |cs| ==> MinFilled(cs[j])
    requires |c.keys| >= |cs[i].keys| && ChildrenFilled(c)
    ensures ChildrenFilled(Internal(ks, cs[i := c]))
  {
    assert MinFilled(c);
  }

  /** A parent whose children are half full, taking in the halves of a split child. */
  lemma GrowFills<T>(ks: seq<int>, cs: seq<Node<T>>, i: nat, l: Node<T>, u: int, r: Node<T>)
    requires |cs| == |ks| + 1 && i < |cs|
    requires forall j :: 0 <= j < |cs| ==> MinFilled(cs[j])
    requires MinFilled(l) && MinFilled(r)
    ensures match Promote(ks, cs, i, l, u, r)
      case Fit(c) => |c.keys| >= |ks| && c.Internal? && ChildrenFilled(c)
      case Split(a, _, b) => MinFilled(a) && MinFilled(b)
  {
    var ks', cs' := InsertAt(ks, i, u), InsertAt(cs[i := l], i + 1, r);
    assert forall j :: 0 <= j < |cs'| ==> MinFilled(cs'[j]);
    if |ks'| > MAX {
      HalvesFilled(ks', cs');
    }
  }

  /** Both halves of an overfull parent whose children are half full are half full. */
  lemma HalvesFilled<T>(ks: seq<int>, cs: seq<Node<T>>)
    requires |ks| > MAX && |cs| == |ks| + 1
    requires forall j :: 0 <= j < |cs| ==> MinFilled(cs[j])
    ensures MinFilled(Internal(ks[..MID], cs[..MID + 1]))
    ensures MinFilled(Internal(ks[MID + 1..], cs[MID + 1..]))
  {
    var rc := cs[MID + 1..];
    assert forall j :: 0 <= j < |rc| ==> rc[j] == cs[MID + 1 + j];
  }

  /** bptree_insert keeps the tree at least half full. */
  lemma InsertKeepsFilled<T>(t: Tree<T>, key: int, data: T)
    requires t.Some? ==> Shaped(t.value) && Height(t.value) <= STACK_DEPTH
    requires Filled(t)
    ensures Filled(Insert(t, key, data))
  {
    if t.Some? {
      InsertRecFills(t.value, key, data);
    }
  }

  // ---------------------------------------------------------------------------
  // Deletion

  /**
    The underflow repair of a leaf that dropped to MID-1 keys, below a parent with at
    least one separator whose other leaves hold at least MID keys, leaves every leaf
    with at least MID keys.
   */
  lemma RebalanceFills<T>(ks: seq<int>, cs: seq<Node<T>>, i: nat)
    requires |cs| == |ks| + 1 && i < |cs| && 1 <= |ks|
    requires forall j :: 0 <= j < |cs| ==> cs[j].Leaf? && |cs[j].keys| == |cs[j].vals|
    requires forall j :: 0 <= j < |cs| && j != i ==> |cs[j].keys| >= MID
    requires |cs[i].keys| == MID - 1
    ensures forall j :: 0 <= j < |Rebalance(ks, cs, i).children| ==> MinFilled(Rebalance(ks, cs, i).children[j])
  {
  }

  /**
    When the leaves hang directly off the root, bptree_delete keeps the tree at least
    half full: a leaf that drops below MID keys borrows from a sibling with more than
    MID, or merges with one that has exactly MID, and a root that loses its only
    separator gives way to the merged leaf.
   */
  lemma DeleteKeepsFilled<T>(t: Tree<T>, key: int)
    requires t.Some? ==> Shaped(t.value) && Height(t.value) <= 1
    requires Filled(t)
    ensures Filled(Delete(t, key))
  {
    if t.Some? && t.value.Internal? {
      var n := t.value;
      var ks, cs := n.keys, n.children;
      var i := ChildIndex(ks, key);
      assert Height(cs[0]) == 0;
      assert forall j :: 0 <= j < |cs| ==> Height(cs[j]) == 0 && Shaped(cs[j]);
      assert cs[i].Leaf?;
      var lks := cs[i].keys;
      if key in lks && |lks| - 1 < MID {
        assert MinFilled(cs[i]);
        var j := FirstIndex(lks, key);
        var cs' := cs[i := Leaf(RemoveAt(lks, j), RemoveAt(cs[i].vals, j))];
        assert forall x :: 0 <= x < |cs'| && x != i ==> MinFilled(cs[x]);
        RebalanceFills(ks, cs', i);
      }
    }
  }

  /** Leaves with the given keys, each key its own payload. */
  function L(ks: seq<int>): Node<int> {
    Leaf(ks, ks)
  }

  /** The left half of the three-level tree below: three leaves under keys 10 and 15. */
  function GapLeft(): Node<int> {
    Internal([10, 15], [L([5, 6]), L([10, 11]), L([15, 16])])
  }

  /** The right half: three leaves under keys 25 and 30. */
  function GapRight(): Node<int> {
    Internal([25, 30], [L([20, 21]), L([25, 26]), L([30, 31])])
  }

  /** The left half is well formed below the root key 20, one level above its leaves. */
  lemma GapLeftWF()
    ensures WF(GapLeft(), None, Some(20)) && Height(GapLeft()) == 1
  {
    var cs := GapLeft().children;
    assert Ordered(L([5, 6]), None, Some(10));
    assert Ordered(L([10, 11]), Some(10), Some(15));
    assert Ordered(L([15, 16]), Some(15), Some(20));
    assert forall j :: 0 <= j < |cs| ==> Height(cs[j]) == 0 && Shaped(cs[j]) && Bounded(cs[j]);
  }

  /** The right half is well formed above the root key 20, one level above its leaves. */
  lemma GapRightWF()
    ensures WF(GapRight(), Some(20), None) && Height(GapRight()) == 1
  {
    var cs := GapRight().children;
    assert Ordered(L([20, 21]), Some(20), Some(25));
    assert Ordered(L([25, 26]), Some(25), Some(30));
    assert Ordered(L([30, 31]), Some(30), None);
    assert forall j :: 0 <= j < |cs| ==> Height(cs[j]) == 0 && Shaped(cs[j]) && Bounded(cs[j]);
  }

  /** The three-level tree of DeleteOccupancyGap is a valid tree of height two. */
  lemma GapValid()
    ensures Valid(Some(Internal([20], [GapLeft(), GapRight()]))) && Height(Internal([20], [GapLeft(), GapRight()])) == 2
  {
    GapLeftWF();
    GapRightWF();
    var cs := [GapLeft(), GapRight()];
    assert forall j :: 0 <= j < |cs| ==> Height(cs[j]) == 1;
  }

  /**
    Deleting 5 from the left half: its leaf drops to one key, has no left sibling and a
    right sibling of exactly MID keys, so the two leaves merge and the parent keeps a
    single separator.
   */
  lemma GapLeftDelete()
    ensures Shaped(GapLeft()) && MinFilled(GapLeft())
    ensures DeleteBelow(GapLeft(), 5) == Internal([15], [L([6, 10, 11]), L([15, 16])])
  {
    var a := GapLeft();
    assert MinFilled(L([5, 6])) && MinFilled(L([10, 11])) && MinFilled(L([15, 16]));
    assert ChildIndex([10, 15], 5) == 0;
    assert FirstIndex([5, 6], 5) == 0;
    assert RemoveAt([5, 6], 0) == [6];
    var cs' := [L([6]), L([10, 11]), L([15, 16])];
    assert a.children[0 := Leaf(RemoveAt([5, 6], 0), RemoveAt([5, 6], 0))] == cs';
    assert [6] + [10, 11] == [6, 10, 11];
    assert RemoveAt([10, 15], 0) == [15];
    assert RemoveAt(cs'[0 := L([6, 10, 11])], 1) == [L([6, 10, 11]), L([15, 16])];
    assert Rebalance([10, 15], cs', 0) == Internal([15], [L([6, 10, 11]), L([15, 16])]);
  }

  /**
    Above the leaves the repair is missing: in this valid tree of three levels, deleting 5
    merges its leaf into the right neighbour, and the parent of those leaves, not the
    root, is left with a single separator.
   */
  lemma DeleteOccupancyGap()
    ensures var t := Some(Internal([20], [GapLeft(), GapRight()]));
      && Valid(t) && Height(t.value) == 2 && Filled(t)
      && Delete(t, 5).Some? && !Filled(Delete(t, 5))
  {
    GapValid();
    GapFilled();
    GapDelete();
  }

  /** Every node of the three-level tree holds at least MID keys. */
  lemma GapFilled()
    ensures Filled(Some(Internal([20], [GapLeft(), GapRight()])))
  {
    GapLeftDelete();
    var b := GapRight();
    assert MinFilled(L([20, 21])) && MinFilled(L([25, 26])) && MinFilled(L([30, 31]));
    assert MinFilled(b);
    var cs := [GapLeft(), b];
    assert forall j :: 0 <= j < |cs| ==> MinFilled(cs[j]);
  }

  /** Deleting 5 from the three-level tree leaves its left half with one separator. */
  lemma GapDelete()
    ensures var t := Some(Internal([20], [GapLeft(), GapRight()]));
      && Delete(t, 5) == Some(Internal([20], [Internal([15], [L([6, 10, 11]), L([15, 16])]), GapRight()]))
      && !Filled(Delete(t, 5))
  {
    var a, b := GapLeft(), GapRight();
    var n := Internal([20], [a, b]);
    GapLeftDelete();
    GapValid();
    assert ChildIndex([20], 5) == 0;
    var a' := DeleteBelow(a, 5);
    assert !MinFilled(a');
    var n' := Internal([20], [a', b]);
    assert DeleteBelow(n, 5) == n';
    assert Delete(Some(n), 5) == Some(n');
    assert n'.children[0] == a';
  }
}
