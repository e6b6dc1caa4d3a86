/**
  The tree operations of bptree.c over tree values. A node is a leaf, holding keys
  and the payloads paired with them, or an internal node, holding separator keys and
  one more child than it has keys. The absent root (a NULL `*root`) is `None`.

  The abstraction every operation is proved against is Entries: the (key, payload)
  pairs of the leaves from left to right, which is what the leaf chain yields.
 */
module BPTree {
  import opened Wrappers
  import opened KeySeq

  datatype Node<T> =
    | Leaf(keys: seq<int>, vals: seq<T>)
    | Internal(keys: seq<int>, children: seq<Node<T>>)

  type Tree<T> = Option<Node<T>>

  type Entry<T> = (int, T)

  // ---------------------------------------------------------------------------
  // The abstraction: entries in leaf order

  function Zip<T>(ks: seq<int>, vs: seq<T>): (es: seq<Entry<T>>)
    requires |ks| == |vs|
    ensures |es| == |ks|
    ensures forall i :: 0 <= i < |es| ==> es[i] == (ks[i], vs[i])
  {
    seq(|ks|, i requires 0 <= i < |ks| => (ks[i], vs[i]))
  }

  function KeysOf<T>(es: seq<Entry<T>>): (ks: seq<int>)
    ensures |ks| == |es|
    ensures forall i :: 0 <= i < |es| ==> ks[i] == es[i].0
  {
    seq(|es|, i requires 0 <= i < |es| => es[i].0)
  }

  /** The entries of a subtree, leaves read from left to right. */
  function Entries<T>(n: Node<T>): seq<Entry<T>>
    decreases n
  {
    match n
    case Leaf(ks, vs) => if |ks| == |vs| then Zip(ks, vs) else []
    case Internal(_, cs) => EntriesSeq(cs)
  }

  function EntriesSeq<T>(cs: seq<Node<T>>): seq<Entry<T>>
    decreases cs
  {
    if cs == [] then [] else EntriesSeq(cs[..|cs| - 1]) + Entries(cs[|cs| - 1])
  }

  /** The entries of a whole tree; an absent root holds none. */
  function Contents<T>(t: Tree<T>): seq<Entry<T>> {
    match t
    case None => []
    case Some(n) => Entries(n)
  }

  /** The payload stored with the first entry for `key`, if any. */
  function Lookup<T>(es: seq<Entry<T>>, key: int): Option<T> {
    if es == [] then None
    else if es[0].0 == key then Some(es[0].1)
    else Lookup(es[1..], key)
  }

  /** The abstract effect of an insertion: the pair lands after every key not greater. */
  function InsertEntry<T>(es: seq<Entry<T>>, key: int, data: T): seq<Entry<T>> {
    InsertAt(es, InsertPos(KeysOf(es), key), (key, data))
  }

  /** The abstract effect of a deletion: the first entry for `key` is gone. */
  function RemoveKey<T>(es: seq<Entry<T>>, key: int): seq<Entry<T>> {
    if es == [] then []
    else if es[0].0 == key then es[1..]
    else [es[0]] + RemoveKey(es[1..], key)
  }

  // ---------------------------------------------------------------------------
  // Shape, order and capacity

  /** Levels of internal nodes above the leaves, measured down the first child. */
  function Height<T>(n: Node<T>): nat {
    match n
    case Leaf(_, _) => 0
    case Internal(_, cs) => if cs == [] then 0 else 1 + Height(cs[0])
  }

  /**
    Structural soundness: a payload per leaf key, one more child than separators, and
    every leaf at the same depth.
   */
  ghost predicate Shaped<T>(n: Node<T>)
    decreases n
  {
    match n
    case Leaf(ks, vs) => |ks| == |vs|
    case Internal(ks, cs) =>
      && |cs| == |ks| + 1
      && (forall j :: 0 <= j < |cs| ==> Height(cs[j]) == Height(cs[0]))
      && (forall j :: 0 <= j < |cs| ==> Shaped(cs[j]))
  }

  /** `lo <= k < hi`, an absent bound being no bound. */
  ghost predicate InRange(k: int, lo: Option<int>, hi: Option<int>) {
    (lo.None? || lo.value <= k) && (hi.None? || k < hi.value)
  }

  /**
    `lo < k < hi`: where a separator new to a row must lie, strictly between the
    separators it goes in between, so that the row stays strictly ascending.
   */
  ghost predicate Between(k: int, lo: Option<int>, hi: Option<int>) {
    (lo.None? || lo.value < k) && (hi.None? || k < hi.value)
  }

  /** Lower bound of child `j`: the separator to its left. */
  function LoAt(lo: Option<int>, ks: seq<int>, j: nat): Option<int>
    requires j <= |ks|
  {
    if j == 0 then lo else Some(ks[j - 1])
  }

  /** Upper bound of child `j`: the separator to its right. */
  function HiAt(hi: Option<int>, ks: seq<int>, j: nat): Option<int>
    requires j <= |ks|
  {
    if j == |ks| then hi else Some(ks[j])
  }

  /**
    Separator semantics within the bounds [lo, hi): the keys of every node strictly
    ascending and within the bounds, and child j of an internal node holding only keys
    k with keys[j-1] <= k < keys[j].
   */
  ghost predicate Ordered<T>(n: Node<T>, lo: Option<int>, hi: Option<int>)
    decreases n
  {
    match n
    case Leaf(ks, _) =>
      && StrictlySorted(ks)
      && (forall i :: 0 <= i < |ks| ==> InRange(ks[i], lo, hi))
    case Internal(ks, cs) =>
      && StrictlySorted(ks)
      && (forall i :: 0 <= i < |ks| ==> InRange(ks[i], lo, hi))
      && (forall j :: 0 <= j < |cs| && j <= |ks| ==> Ordered(cs[j], LoAt(lo, ks, j), HiAt(hi, ks, j)))
  }

  /** No node holds more than MAX keys. */
  ghost predicate Bounded<T>(n: Node<T>)
    decreases n
  {
    match n
    case Leaf(ks, _) => |ks| <= MAX
    case Internal(ks, cs) => |ks| <= MAX && forall j :: 0 <= j < |cs| ==> Bounded(cs[j])
  }

  ghost predicate WF<T>(n: Node<T>, lo: Option<int>, hi: Option<int>) {
    Shaped(n) && Ordered(n, lo, hi) && Bounded(n)
  }

  /** The invariant of a whole tree: an absent root, or a root well formed without bounds. */
  ghost predicate Valid<T>(t: Tree<T>) {
    t.Some? ==> WF(t.value, None, None)
  }

  // ---------------------------------------------------------------------------
  // Insertion (bptree_insert)

  /** What inserting into a subtree hands to its parent: the subtree, or a split. */
  datatype Grown<T> = Fit(node: Node<T>) | Split(left: Node<T>, upKey: int, right: Node<T>)

  /**
    Insertion below `n`: descend to the leaf, insert in sorted position, split on
    overflow, and absorb or split again at each node on the way back up.
   */
  function InsertRec<T>(n: Node<T>, key: int, data: T): (g: Grown<T>)
    requires Shaped(n)
    ensures n.Leaf? ==> (g.Fit? <==> |n.keys| < MAX)
    ensures g.Fit? ==> g.node.Leaf? == n.Leaf?
    ensures g.Split? ==> g.left.Leaf? == n.Leaf? && g.right.Leaf? == n.Leaf?
    decreases n
  {
    match n
    case Leaf(ks, vs) =>
      var p := InsertPos(ks, key);
      SettleLeaf(InsertAt(ks, p, key), InsertAt(vs, p, data))
    case Internal(ks, cs) =>
      var i := ChildIndex(ks, key);
      match InsertRec(cs[i], key, data)
      case Fit(c) => Fit(Internal(ks, cs[i := c]))
      case Split(l, u, r) => Promote(ks, cs, i, l, u, r)
  }

  /**
    A leaf holding `ks` and `vs` after taking a pair: the leaf itself when it fits, or
    else its first MID pairs and the rest, the rest's first key copied up as separator.
   */
  function SettleLeaf<T>(ks: seq<int>, vs: seq<T>): (g: Grown<T>)
    requires |ks| == |vs|
    ensures g.Fit? <==> |ks| <= MAX
    ensures g.Split? ==>
      && g.left.Leaf? && g.right.Leaf? && |g.left.keys| == MID
      && g.left.keys + g.right.keys == ks && g.left.vals + g.right.vals == vs
      && g.upKey == g.right.keys[0]
  {
    if |ks| <= MAX then Fit(Leaf(ks, vs))
    else Split(Leaf(ks[..MID], vs[..MID]), ks[MID], Leaf(ks[MID..], vs[MID..]))
  }

  /**
    A parent (keys `ks`, children `cs`) whose child `i` split into `l` and `r` around
    `u`: the key goes in at `i` and `r` right after `l`; on overflow the parent splits,
    the key at MID moving up and kept in neither half.
   */
  function Promote<T>(ks: seq<int>, cs: seq<Node<T>>, i: nat, l: Node<T>, u: int, r: Node<T>): (g: Grown<T>)
    requires |cs| == |ks| + 1 && i < |cs|
    ensures g.Fit? <==> |ks| < MAX
    ensures g.Fit? ==> g.node.Internal? && g.node.keys == InsertAt(ks, i, u)
    ensures g.Fit? ==> g.node.children == InsertAt(cs[i := l], i + 1, r)
    ensures g.Split? ==>
      && g.left.Internal? && g.right.Internal? && |g.left.keys| == MID
      && g.left.keys + [g.upKey] + g.right.keys == InsertAt(ks, i, u)
      && g.left.children + g.right.children == InsertAt(cs[i := l], i + 1, r)
  {
    var ks', cs' := InsertAt(ks, i, u), InsertAt(cs[i := l], i + 1, r);
    if |ks'| <= MAX then Fit(Internal(ks', cs'))
    else Split(Internal(ks'[..MID], cs'[..MID + 1]), ks'[MID], Internal(ks'[MID + 1..], cs'[MID + 1..]))
  }

  /**
    bptree_insert: an empty tree becomes a single leaf; otherwise a split that reaches
    the top grows a new root with one key and two children. The descent records at most
    STACK_DEPTH internal nodes.
   */
  function Insert<T>(t: Tree<T>, key: int, data: T): (r: Tree<T>)
    requires t.Some? ==> Shaped(t.value) && Height(t.value) <= STACK_DEPTH
    ensures r.Some?
  {
    match t
    case None => Some(Leaf([key], [data]))
    case Some(n) =>
      match InsertRec(n, key, data)
      case Fit(n') => Some(n')
      case Split(l, u, r) => Some(Internal([u], [l, r]))
  }

  // ---------------------------------------------------------------------------
  // Deletion (bptree_delete)

  /** Index of the first occurrence of `key`, as the leaf scan finds it. */
  function FirstIndex(ks: seq<int>, key: int): (i: nat)
    requires key in ks
    ensures i < |ks| && ks[i] == key && key !in ks[..i]
  {
    if ks[0] == key then 0
    else
      assert key in ks[1..];
      1 + FirstIndex(ks[1..], key)
  }

  /**
    One-level underflow repair of child `i`, a leaf, through its parent (keys `ks`,
    children `cs`): borrow from the left sibling, else from the right sibling, else
    merge into the left sibling, else merge the right sibling in.
   */
  function Rebalance<T>(ks: seq<int>, cs: seq<Node<T>>, i: nat): (r: Node<T>)
    requires |cs| == |ks| + 1 && i < |cs|
    requires forall j :: 0 <= j < |cs| ==> cs[j].Leaf? && |cs[j].keys| == |cs[j].vals|
    ensures r.Internal? && |r.children| == |r.keys| + 1
  {
    var leaf := cs[i];
    if 0 < i && |cs[i - 1].keys| > MID then
      var lk, lv := cs[i - 1].keys, cs[i - 1].vals;
      var m := |lk| - 1;
      Internal(ks[i - 1 := lk[m]],
               cs[i - 1 := Leaf(lk[..m], lv[..m])][i := Leaf([lk[m]] + leaf.keys, [lv[m]] + leaf.vals)])
    else if i < |ks| && |cs[i + 1].keys| > MID then
      var rk, rv := cs[i + 1].keys, cs[i + 1].vals;
      Internal(ks[i := rk[1]],
               cs[i := Leaf(leaf.keys + [rk[0]], leaf.vals + [rv[0]])][i + 1 := Leaf(rk[1..], rv[1..])])
    else if 0 < i then
      var l := cs[i - 1];
      Internal(RemoveAt(ks, i - 1), RemoveAt(cs[i - 1 := Leaf(l.keys + leaf.keys, l.vals + leaf.vals)], i))
    else if i < |ks| then
      var r := cs[i + 1];
      Internal(RemoveAt(ks, i), RemoveAt(cs[i := Leaf(leaf.keys + r.keys, leaf.vals + r.vals)], i + 1))
    else
      Internal(ks, cs)
  }

  /**
    Deletion below an internal node: descend to the leaf, remove the entry, and repair
    an underflow through the leaf's immediate parent only.
   */
  function DeleteBelow<T>(n: Node<T>, key: int): (r: Node<T>)
    requires n.Internal? && Shaped(n)
    ensures r.Internal? && |r.children| == |r.keys| + 1
    decreases n
  {
    var ks, cs := n.keys, n.children;
    var i := ChildIndex(ks, key);
    match cs[i]
    case Internal(_, _) => Internal(ks, cs[i := DeleteBelow(cs[i], key)])
    case Leaf(lks, lvs) =>
      if key !in lks then n
      else
        assert Shaped(cs[i]);
        var j := FirstIndex(lks, key);
        var cs' := cs[i := Leaf(RemoveAt(lks, j), RemoveAt(lvs, j))];
        if |lks| - 1 >= MID then Internal(ks, cs')
        else
          LeafChildren(n);
          Rebalance(ks, cs', i)
  }

  /**
    bptree_delete: a root leaf that loses its last key leaves the tree empty; a root
    whose last separator a merge removed gives way to the merged node.
   */
  function Delete<T>(t: Tree<T>, key: int): (r: Tree<T>)
    requires t.Some? ==> Shaped(t.value)
    ensures r.None? <==> t.None? || (t.value.Leaf? && t.value.keys == [key])
  {
    match t
    case None => None
    case Some(Leaf(ks, vs)) =>
      if key !in ks then t
      else if |ks| == 1 then None
      else
        var i := FirstIndex(ks, key);
        Some(Leaf(RemoveAt(ks, i), RemoveAt(vs, i)))
    case Some(Internal(ks, _)) =>
      var n' := DeleteBelow(t.value, key);
      if 0 < |ks| && |n'.keys| == 0 then Some(n'.children[0]) else Some(n')
  }

  // ---------------------------------------------------------------------------
  // Structural helpers

  /** In a shaped node whose children include a leaf, every child is a leaf. */
  lemma LeafChildren<T>(n: Node<T>)
    requires n.Internal? && Shaped(n)
    requires exists j :: 0 <= j < |n.children| && n.children[j].Leaf?
    ensures forall j :: 0 <= j < |n.children| ==> n.children[j].Leaf? && |n.children[j].keys| == |n.children[j].vals|
  {
    var j :| 0 <= j < |n.children| && n.children[j].Leaf?;
    forall k | 0 <= k < |n.children|
      ensures n.children[k].Leaf?
    {
      assert Height(n.children[k]) == Height(n.children[0]) == Height(n.children[j]) == 0;
      assert Shaped(n.children[k]);
    }
  }
}
