/**
  The read-only walks of bptree.c: bptree_search, which descends by separators and
  scans one leaf, and the leaf-chain walk of bptree_traverse, which goes down the first
  child to the leftmost leaf and then visits every leaf through `next`. Both leave the
  tree as it is; here the tree is a value, so that is by construction.
 */
module Queries {
  import opened Wrappers
  import opened KeySeq
  import opened BPTree
  import opened EntriesFacts

  // ---------------------------------------------------------------------------
  // Search

  /**
    bptree_search: an empty tree yields nothing; otherwise descend, at each internal node
    taking the child after the last separator not greater than `key`, then scan the
    leaf for the first equal key. The result is the payload the tree maps `key` to.
   */
  method Search<T>(t: Tree<T>, key: int) returns (r: Option<T>)
    requires Valid(t)
    ensures r == Lookup(Contents(t), key)
  {
    if t.None? {
      return None;
    }
    var leaf := Descend(t.value, key);
    r := FindInLeaf(leaf, key);
  }

  /** The descent loop of bptree_search: down to the leaf that would hold `key`. */
  method Descend<T>(root: Node<T>, key: int) returns (leaf: Node<T>)
    requires WF(root, None, None)
    ensures leaf.Leaf? && |leaf.keys| == |leaf.vals|
    ensures Lookup(Entries(leaf), key) == Lookup(Entries(root), key)
  {
    leaf := root;
    ghost var lo: Option<int>, hi: Option<int> := None, None;
    while leaf.Internal?
      invariant WF(leaf, lo, hi)
      invariant Lookup(Entries(leaf), key) == Lookup(Entries(root), key)
      decreases leaf
    {
      var i := 0;
      while i < |leaf.keys| && key >= leaf.keys[i]
        invariant 0 <= i <= |leaf.keys|
        invariant forall j :: 0 <= j < i ==> leaf.keys[j] <= key
      {
        i := i + 1;
      }
      ChildIndexUnique(leaf.keys, key, i);
      DescentStep(leaf, lo, hi, key);
      lo, hi := LoAt(lo, leaf.keys, i), HiAt(hi, leaf.keys, i);
      leaf := leaf.children[i];
    }
  }

  /** The leaf scan of bptree_search: the payload of the first slot holding `key`. */
  method FindInLeaf<T>(leaf: Node<T>, key: int) returns (r: Option<T>)
    requires leaf.Leaf? && |leaf.keys| == |leaf.vals|
    ensures r == Lookup(Entries(leaf), key)
  {
    LookupZip(leaf.keys, leaf.vals, key);
    var i := 0;
    while i < |leaf.keys|
      invariant 0 <= i <= |leaf.keys|
      invariant key !in leaf.keys[..i]
    {
      if leaf.keys[i] == key {
        return Some(leaf.vals[i]);
      }
      assert leaf.keys[..i + 1] == leaf.keys[..i] + [leaf.keys[i]];
      i := i + 1;
    }
    assert leaf.keys[..i] == leaf.keys;
    return None;
  }

  /**
    One step of the descent: the child picked is well formed within its separators and
    maps `key` as the whole subtree does.
   */
  lemma DescentStep<T>(n: Node<T>, lo: Option<int>, hi: Option<int>, key: int)
    requires n.Internal? && WF(n, lo, hi)
    ensures ChildIndex(n.keys, key) < |n.children|
    ensures var i := ChildIndex(n.keys, key);
      && WF(n.children[i], LoAt(lo, n.keys, i), HiAt(hi, n.keys, i))
      && Lookup(Entries(n.children[i]), key) == Lookup(Entries(n), key)
  {
    var i := ChildIndex(n.keys, key);
    DescentFinds(n, lo, hi, key);
    ChildOrdered(n, lo, hi, i);
    assert Bounded(n.children[i]);
  }

  // ---------------------------------------------------------------------------
  // The leaf chain

  /**
    The leaves of a subtree from left to right. This is the order the `next` links are
    read in: LeafChain shows that insertion and the underflow repair change it exactly
    where bptree.c relinks `next`.
   */
  function Leaves<T>(n: Node<T>): (ls: seq<Node<T>>)
    ensures forall j :: 0 <= j < |ls| ==> ls[j].Leaf?
    decreases n
  {
    match n
    case Leaf(_, _) => [n]
    case Internal(_, cs) => LeavesSeq(cs)
  }

  function LeavesSeq<T>(cs: seq<Node<T>>): (ls: seq<Node<T>>)
    ensures forall j :: 0 <= j < |ls| ==> ls[j].Leaf?
    decreases cs
  {
    if cs == [] then [] else LeavesSeq(cs[..|cs| - 1]) + Leaves(cs[|cs| - 1])
  }

  /** Reading the leaves in chain order yields exactly the entries of the subtree. */
  lemma {:induction false} LeavesEntries<T>(n: Node<T>)
    ensures EntriesSeq(Leaves(n)) == Entries(n)
    decreases n, 1
  {
    match n
    case Leaf(_, _) =>
      EntriesSeqSingle(n);
    case Internal(_, cs) =>
      LeavesSeqEntries(cs);
  }

  lemma {:induction false} LeavesSeqEntries<T>(cs: seq<Node<T>>)
    ensures EntriesSeq(LeavesSeq(cs)) == EntriesSeq(cs)
    decreases cs, 0
  {
    if cs != [] {
      var init, last := cs[..|cs| - 1], cs[|cs| - 1];
      LeavesSeqEntries(init);
      LeavesEntries(last);
      EntriesSeqAppend(LeavesSeq(init), Leaves(last));
    }
  }

  /** The leaves of a shaped subtree carry a payload per key. */
  lemma {:induction false} LeavesShaped<T>(n: Node<T>)
    requires Shaped(n)
    ensures forall j :: 0 <= j < |Leaves(n)| ==> |Leaves(n)[j].keys| == |Leaves(n)[j].vals|
    decreases n, 1
  {
    match n
    case Leaf(_, _) =>
    case Internal(_, cs) =>
      LeavesSeqShaped(cs);
  }

  lemma {:induction false} LeavesSeqShaped<T>(cs: seq<Node<T>>)
    requires forall j :: 0 <= j < |cs| ==> Shaped(cs[j])
    ensures forall j :: 0 <= j < |LeavesSeq(cs)| ==> |LeavesSeq(cs)[j].keys| == |LeavesSeq(cs)[j].vals|
    decreases cs, 0
  {
    if cs != [] {
      var init, last := cs[..|cs| - 1], cs[|cs| - 1];
      LeavesSeqShaped(init);
      LeavesShaped(last);
    }
  }

  /**
    A shaped subtree has at least one leaf, and the chain of an internal node starts
    with the chain of its first child: going down `ptr[0]` reaches the leftmost leaf.
   */
  lemma {:induction false} LeftmostLeaf<T>(n: Node<T>)
    requires Shaped(n)
    ensures 0 < |Leaves(n)|
    ensures n.Internal? ==> 0 < |Leaves(n.children[0])| && Leaves(n)[0] == Leaves(n.children[0])[0]
    decreases n, 1
  {
    match n
    case Leaf(_, _) =>
    case Internal(_, cs) =>
      LeftmostLeaf(cs[0]);
      LeavesSeqFirst(cs);
  }

  lemma {:induction false} LeavesSeqFirst<T>(cs: seq<Node<T>>)
    requires 0 < |cs| && 0 < |Leaves(cs[0])|
    ensures 0 < |LeavesSeq(cs)| && LeavesSeq(cs)[0] == Leaves(cs[0])[0]
    decreases |cs|
  {
    var init := cs[..|cs| - 1];
    if |cs| == 1 {
      assert init == [];
    } else {
      assert init[0] == cs[0];
      LeavesSeqFirst(init);
    }
  }

  /** The descent of bptree_traverse: follow the first child down to the leftmost leaf. */
  method LeftmostDescent<T>(n: Node<T>) returns (leaf: Node<T>)
    requires Shaped(n)
    ensures 0 < |Leaves(n)| && leaf == Leaves(n)[0]
  {
    leaf := n;
    LeftmostLeaf(n);
    while leaf.Internal?
      invariant Shaped(leaf) && 0 < |Leaves(leaf)| && Leaves(leaf)[0] == Leaves(n)[0]
      decreases leaf
    {
      LeftmostLeaf(leaf);
      leaf := leaf.children[0];
      LeftmostLeaf(leaf);
    }
  }

  /** Reading one leaf of the chain: its pairs in slot order. */
  method ReadLeaf<T>(leaf: Node<T>) returns (es: seq<Entry<T>>)
    requires leaf.Leaf? && |leaf.keys| == |leaf.vals|
    ensures es == Entries(leaf)
  {
    es := [];
    var i := 0;
    while i < |leaf.keys|
      invariant 0 <= i <= |leaf.keys|
      invariant es == Zip(leaf.keys[..i], leaf.vals[..i])
    {
      es := es + [(leaf.keys[i], leaf.vals[i])];
      i := i + 1;
    }
    assert leaf.keys[..i] == leaf.keys && leaf.vals[..i] == leaf.vals;
  }

  /**
    The walk of bptree_traverse: go down to the leftmost leaf, then read every leaf in
    chain order, here the positions of `Leaves` one after the other. It yields the
    entries of the whole tree, in ascending key order.
   */
  method Scan<T>(t: Tree<T>) returns (out: seq<Entry<T>>)
    requires Valid(t)
    ensures out == Contents(t)
    ensures StrictlySorted(KeysOf(out))
  {
    ContentsSorted(t);
    if t.None? {
      return [];
    }
    var chain := Leaves(t.value);
    var node := LeftmostDescent(t.value);
    LeavesShaped(t.value);
    var k := 0;
    out := [];
    while k < |chain|
      invariant 0 <= k <= |chain|
      invariant k < |chain| ==> node == chain[k]
      invariant out == EntriesSeq(chain[..k])
    {
      var es := ReadLeaf(node);
      PrefixSnoc(chain, k);
      out := out + es;
      k := k + 1;
      if k < |chain| {
        node := chain[k];
      }
    }
    assert chain[..k] == chain;
    LeavesEntries(t.value);
  }
}
