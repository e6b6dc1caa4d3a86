/**
  Correctness of bptree_insert over tree values: inserting a key that the tree does
  not hold keeps every node ordered, bounded and at one depth, and adds exactly the
  new pair to the entries, at its sorted position.
 */
module InsertProofs {
  import opened Wrappers
  import opened KeySeq
  import opened BPTree
  import opened EntriesFacts

  ghost predicate AllBounded<T>(cs: seq<Node<T>>) {
    forall j :: 0 <= j < |cs| ==> Bounded(cs[j])
  }

  // ---------------------------------------------------------------------------
  // Leaves

  /** Inserting an absent key at InsertPos keeps a leaf ordered and adds its pair. */
  lemma LeafInsertOrdered<T>(ks: seq<int>, vs: seq<T>, lo: Option<int>, hi: Option<int>, key: int, data: T)
    requires |ks| == |vs| && Ordered(Leaf(ks, vs), lo, hi)
    requires InRange(key, lo, hi) && key !in ks
    ensures var p := InsertPos(ks, key);
      && Ordered(Leaf(InsertAt(ks, p, key), InsertAt(vs, p, data)), lo, hi)
      && Entries(Leaf(InsertAt(ks, p, key), InsertAt(vs, p, data))) == InsertEntry(Entries(Leaf(ks, vs)), key, data)
  {
    var p := InsertPos(ks, key);
    var ks' := InsertAt(ks, p, key);
    InsertPosKeepsOrder(ks, key);
    forall i | 0 <= i < |ks'| ensures InRange(ks'[i], lo, hi) {
      if i < p {
        assert InRange(ks[i], lo, hi);
      } else if i > p {
        assert InRange(ks[i - 1], lo, hi);
      }
    }
    InsertEntryZip(ks, vs, key, data);
  }

  /** The halves of a leaf split at `m` are ordered on either side of `ks[m]`. */
  lemma LeafSplitOrdered<T>(ks: seq<int>, vs: seq<T>, lo: Option<int>, hi: Option<int>, m: nat)
    requires |ks| == |vs| && 0 < m < |ks| && Ordered(Leaf(ks, vs), lo, hi)
    ensures Ordered(Leaf(ks[..m], vs[..m]), lo, Some(ks[m]))
    ensures Ordered(Leaf(ks[m..], vs[m..]), Some(ks[m]), hi)
    ensures Between(ks[m], lo, hi)
    ensures Entries(Leaf(ks[..m], vs[..m])) + Entries(Leaf(ks[m..], vs[m..])) == Entries(Leaf(ks, vs))
  {
    assert InRange(ks[0], lo, hi) && ks[0] < ks[m];
    assert InRange(ks[m], lo, hi);
    forall i | 0 <= i < m ensures InRange(ks[..m][i], lo, Some(ks[m])) {
      assert InRange(ks[i], lo, hi);
    }
    forall i | 0 <= i < |ks| - m ensures InRange(ks[m..][i], Some(ks[m]), hi) {
      assert InRange(ks[m + i], lo, hi);
    }
  }

  // ---------------------------------------------------------------------------
  // Internal nodes

  /** The left half of an internal node split at separator `m` is ordered below it. */
  lemma InternalSplitLeft<T>(ks: seq<int>, cs: seq<Node<T>>, lo: Option<int>, hi: Option<int>, m: nat)
    requires m < |ks| && |cs| == |ks| + 1 && Ordered(Internal(ks, cs), lo, hi)
    ensures Ordered(Internal(ks[..m], cs[..m + 1]), lo, Some(ks[m]))
  {
    var lk, lc := ks[..m], cs[..m + 1];
    forall i | 0 <= i < |lk| ensures InRange(lk[i], lo, Some(ks[m])) {
      assert InRange(ks[i], lo, hi);
    }
    forall j | 0 <= j < |lc| ensures Ordered(lc[j], LoAt(lo, lk, j), HiAt(Some(ks[m]), lk, j)) {
      assert Ordered(cs[j], LoAt(lo, ks, j), HiAt(hi, ks, j));
    }
  }

  /** The right half of an internal node split at separator `m` is ordered above it. */
  lemma InternalSplitRight<T>(ks: seq<int>, cs: seq<Node<T>>, lo: Option<int>, hi: Option<int>, m: nat)
    requires m < |ks| && |cs| == |ks| + 1 && Ordered(Internal(ks, cs), lo, hi)
    ensures Ordered(Internal(ks[m + 1..], cs[m + 1..]), Some(ks[m]), hi)
  {
    var rk, rc := ks[m + 1..], cs[m + 1..];
    forall i | 0 <= i < |rk| ensures InRange(rk[i], Some(ks[m]), hi) {
      assert InRange(ks[m + 1 + i], lo, hi);
    }
    forall j | 0 <= j < |rc| ensures Ordered(rc[j], LoAt(Some(ks[m]), rk, j), HiAt(hi, rk, j)) {
      assert Ordered(cs[m + 1 + j], LoAt(lo, ks, m + 1 + j), HiAt(hi, ks, m + 1 + j));
    }
  }

  /** Both halves of a split internal node are shaped and keep its height. */
  lemma InternalSplitShaped<T>(ks: seq<int>, cs: seq<Node<T>>, m: nat)
    requires m < |ks| && Shaped(Internal(ks, cs))
    ensures Shaped(Internal(ks[..m], cs[..m + 1])) && Shaped(Internal(ks[m + 1..], cs[m + 1..]))
    ensures Height(Internal(ks[..m], cs[..m + 1])) == Height(Internal(ks, cs))
    ensures Height(Internal(ks[m + 1..], cs[m + 1..])) == Height(Internal(ks, cs))
  {
    var lc, rc := cs[..m + 1], cs[m + 1..];
    assert forall j :: 0 <= j < |rc| ==> rc[j] == cs[m + 1 + j];
    assert Height(rc[0]) == Height(cs[0]);
  }

  /**
    The halves of an internal node split at separator `m`: both at the node's height,
    ordered on either side of `ks[m]`, their entries together the node's.
   */
  lemma InternalSplitOrdered<T>(ks: seq<int>, cs: seq<Node<T>>, lo: Option<int>, hi: Option<int>, m: nat)
    requires 0 < m < |ks| && Shaped(Internal(ks, cs)) && Ordered(Internal(ks, cs), lo, hi)
    ensures Shaped(Internal(ks[..m], cs[..m + 1])) && Ordered(Internal(ks[..m], cs[..m + 1]), lo, Some(ks[m]))
    ensures Shaped(Internal(ks[m + 1..], cs[m + 1..])) && Ordered(Internal(ks[m + 1..], cs[m + 1..]), Some(ks[m]), hi)
    ensures Height(Internal(ks[..m], cs[..m + 1])) == Height(Internal(ks, cs))
    ensures Height(Internal(ks[m + 1..], cs[m + 1..])) == Height(Internal(ks, cs))
    ensures Between(ks[m], lo, hi)
    ensures EntriesSeq(cs[..m + 1]) + EntriesSeq(cs[m + 1..]) == EntriesSeq(cs)
  {
    assert InRange(ks[0], lo, hi) && ks[0] < ks[m] && InRange(ks[m], lo, hi);
    InternalSplitLeft(ks, cs, lo, hi, m);
    InternalSplitRight(ks, cs, lo, hi, m);
    InternalSplitShaped(ks, cs, m);
    SplitEntries(cs, m + 1);
  }

  // ---------------------------------------------------------------------------
  // A parent taking in a split child

  /**
    The separators after inserting `u` strictly between those around index `i` stay
    strictly ascending and within bounds.
   */
  lemma AbsorbSeparators(ks: seq<int>, lo: Option<int>, hi: Option<int>, i: nat, u: int)
    requires i <= |ks| && StrictlySorted(ks)
    requires forall j :: 0 <= j < |ks| ==> InRange(ks[j], lo, hi)
    requires Between(u, LoAt(lo, ks, i), HiAt(hi, ks, i))
    ensures StrictlySorted(InsertAt(ks, i, u))
    ensures forall j :: 0 <= j < |ks| + 1 ==> InRange(InsertAt(ks, i, u)[j], lo, hi)
  {
    InsertAtKeepsStrict(ks, i, u);
    if 0 < i {
      assert InRange(ks[i - 1], lo, hi);
    }
    if i < |ks| {
      assert InRange(ks[i], lo, hi);
    }
    assert InRange(u, lo, hi);
  }

  /**
    A parent ordered within [lo, hi) that replaces child `i` by the halves `l` and `r`
    of its split, with `u` between them, stays ordered within [lo, hi).
   */
  lemma AbsorbOrdered<T>(ks: seq<int>, cs: seq<Node<T>>, lo: Option<int>, hi: Option<int>, i: nat, l: Node<T>, u: int, r: Node<T>)
    requires |cs| == |ks| + 1 && i < |cs| && Ordered(Internal(ks, cs), lo, hi)
    requires Between(u, LoAt(lo, ks, i), HiAt(hi, ks, i))
    requires Ordered(l, LoAt(lo, ks, i), Some(u)) && Ordered(r, Some(u), HiAt(hi, ks, i))
    ensures Ordered(Internal(InsertAt(ks, i, u), InsertAt(cs[i := l], i + 1, r)), lo, hi)
  {
    var ks', cs' := InsertAt(ks, i, u), InsertAt(cs[i := l], i + 1, r);
    AbsorbSeparators(ks, lo, hi, i, u);
    forall j | 0 <= j < |cs'| ensures Ordered(cs'[j], LoAt(lo, ks', j), HiAt(hi, ks', j)) {
      if j < i {
        assert Ordered(cs[j], LoAt(lo, ks, j), HiAt(hi, ks, j));
      } else if j == i {
      } else if j == i + 1 {
      } else {
        assert Ordered(cs[j - 1], LoAt(lo, ks, j - 1), HiAt(hi, ks, j - 1));
      }
    }
  }

  /** The same parent stays shaped and bounded, and keeps its height. */
  lemma AbsorbShaped<T>(ks: seq<int>, cs: seq<Node<T>>, i: nat, l: Node<T>, u: int, r: Node<T>)
    requires |cs| == |ks| + 1 && i < |cs| && Shaped(Internal(ks, cs))
    requires Shaped(l) && Shaped(r) && Height(l) == Height(cs[i]) && Height(r) == Height(cs[i])
    requires AllBounded(cs) && Bounded(l) && Bounded(r)
    ensures Shaped(Internal(InsertAt(ks, i, u), InsertAt(cs[i := l], i + 1, r)))
    ensures Height(Internal(InsertAt(ks, i, u), InsertAt(cs[i := l], i + 1, r))) == Height(Internal(ks, cs))
    ensures AllBounded(InsertAt(cs[i := l], i + 1, r))
  {
    var cs' := InsertAt(cs[i := l], i + 1, r);
    assert Height(cs'[0]) == Height(cs[0]);
  }

  /** A parent whose child `i` is replaced by a well-formed node of the same height stays well formed. */
  lemma ReplaceChildWF<T>(ks: seq<int>, cs: seq<Node<T>>, lo: Option<int>, hi: Option<int>, i: nat, c: Node<T>)
    requires |cs| == |ks| + 1 && i < |cs| && WF(Internal(ks, cs), lo, hi)
    requires WF(c, LoAt(lo, ks, i), HiAt(hi, ks, i)) && Height(c) == Height(cs[i])
    ensures WF(Internal(ks, cs[i := c]), lo, hi)
    ensures Height(Internal(ks, cs[i := c])) == Height(Internal(ks, cs))
  {
    var cs' := cs[i := c];
    assert Height(cs'[0]) == Height(cs[0]);
    forall j | 0 <= j < |cs'| ensures Ordered(cs'[j], LoAt(lo, ks, j), HiAt(hi, ks, j)) {
      if j != i {
        assert Ordered(cs[j], LoAt(lo, ks, j), HiAt(hi, ks, j));
      }
    }
  }

  // ---------------------------------------------------------------------------
  // The recursion

  /**
    What inserting `key` below a well-formed subtree with bounds [lo, hi) promises its
    parent: a well-formed node of the same height holding the old entries plus the new
    pair, or two such halves of that height with the separator `u` between them.
   */
  ghost predicate InsertedInto<T>(g: Grown<T>, n: Node<T>, lo: Option<int>, hi: Option<int>, key: int, data: T) {
    Settled(g, lo, hi, Height(n), InsertEntry(Entries(n), key, data))
  }

  /**
    What a node that took in entries hands to its parent, with bounds [lo, hi): a
    well-formed node of height `h` holding exactly `es`, or two such halves with the
    separator `u` strictly between the bounds.
   */
  ghost predicate Settled<T>(g: Grown<T>, lo: Option<int>, hi: Option<int>, h: nat, es: seq<Entry<T>>) {
    match g
    case Fit(c) => WF(c, lo, hi) && Height(c) == h && Entries(c) == es
    case Split(l, u, r) =>
      && WF(l, lo, Some(u)) && WF(r, Some(u), hi) && Between(u, lo, hi)
      && Height(l) == h && Height(r) == h && Entries(l) + Entries(r) == es
  }

  /** A key not among all the entries is not among a middle part of them. */
  lemma NotInMiddle<T>(p: seq<Entry<T>>, m: seq<Entry<T>>, s: seq<Entry<T>>, key: int)
    requires key !in KeysOf(p + m + s)
    ensures key !in KeysOf(m)
  {
    forall j | 0 <= j < |m| ensures m[j].0 != key {
      assert (p + m + s)[|p| + j] == m[j];
    }
  }

  /**
    The entries left of the child a descent picks have keys below `key`, those right of
    it keys above `key`.
   */
  lemma DescentSeparates<T>(n: Node<T>, lo: Option<int>, hi: Option<int>, key: int)
    requires n.Internal? && Shaped(n) && Ordered(n, lo, hi)
    ensures ChildIndex(n.keys, key) < |n.children|
    ensures AllBelow(EntriesSeq(n.children[..ChildIndex(n.keys, key)]), key)
    ensures AllAbove(EntriesSeq(n.children[ChildIndex(n.keys, key) + 1..]), key)
    ensures InRange(key, lo, hi) ==> InRange(key, LoAt(lo, n.keys, ChildIndex(n.keys, key)), HiAt(hi, n.keys, ChildIndex(n.keys, key)))
  {
    ChildrenOrdered(n, lo, hi);
    RowSeparates(n.keys, n.children, lo, hi, key);
  }

  /** Insertion into a leaf: the leaf itself, or its split into two and three entries. */
  lemma LeafInsertCorrect<T>(n: Node<T>, lo: Option<int>, hi: Option<int>, key: int, data: T)
    requires n.Leaf? && WF(n, lo, hi) && InRange(key, lo, hi) && key !in n.keys
    ensures InsertedInto(InsertRec(n, key, data), n, lo, hi, key, data)
  {
    var ks, vs := n.keys, n.vals;
    var p := InsertPos(ks, key);
    var ks', vs' := InsertAt(ks, p, key), InsertAt(vs, p, data);
    LeafInsertOrdered(ks, vs, lo, hi, key, data);
    assert InsertRec(n, key, data) == SettleLeaf(ks', vs');
    SettleLeafCorrect(ks', vs', lo, hi);
  }

  /**
    An ordered leaf of at most MAX + 1 pairs settles into a well-formed leaf with the
    same pairs, or two well-formed leaves on either side of the separator moved up.
   */
  lemma SettleLeafCorrect<T>(ks: seq<int>, vs: seq<T>, lo: Option<int>, hi: Option<int>)
    requires |ks| == |vs| <= MAX + 1 && Ordered(Leaf(ks, vs), lo, hi)
    ensures Settled(SettleLeaf(ks, vs), lo, hi, 0, Entries(Leaf(ks, vs)))
  {
    if |ks| > MAX {
      var l, r := Leaf(ks[..MID], vs[..MID]), Leaf(ks[MID..], vs[MID..]);
      assert SettleLeaf(ks, vs) == Split(l, ks[MID], r);
      LeafSplitOrdered(ks, vs, lo, hi, MID);
      assert WF(l, lo, Some(ks[MID])) && WF(r, Some(ks[MID]), hi);
    } else {
      assert SettleLeaf(ks, vs) == Fit(Leaf(ks, vs));
    }
  }

  /**
    A well-formed parent taking in the halves of its child `i`, which split into `l` and
    `r` around `u` within that child's bounds: the result keeps the parent's height, is
    well formed, and its entries are the parent's with those of child `i` replaced by
    the halves'.
   */
  lemma PromoteCorrect<T>(ks: seq<int>, cs: seq<Node<T>>, lo: Option<int>, hi: Option<int>, i: nat, l: Node<T>, u: int, r: Node<T>)
    requires WF(Internal(ks, cs), lo, hi) && i < |cs|
    requires WF(l, LoAt(lo, ks, i), Some(u)) && WF(r, Some(u), HiAt(hi, ks, i))
    requires Between(u, LoAt(lo, ks, i), HiAt(hi, ks, i))
    requires Height(l) == Height(cs[i]) && Height(r) == Height(cs[i])
    ensures Settled(Promote(ks, cs, i, l, u, r), lo, hi, Height(Internal(ks, cs)),
      EntriesSeq(cs[..i]) + (Entries(l) + Entries(r)) + EntriesSeq(cs[i + 1..]))
  {
    var ks', cs' := InsertAt(ks, i, u), InsertAt(cs[i := l], i + 1, r);
    AbsorbOrdered(ks, cs, lo, hi, i, l, u, r);
    AbsorbShaped(ks, cs, i, l, u, r);
    ReplaceTwoEntries(cs, i, l, r);
    ParentOverflow(ks', cs', lo, hi);
  }

  /** The node a parent becomes after taking in a split child: itself, or split at MID. */
  lemma ParentOverflow<T>(ks: seq<int>, cs: seq<Node<T>>, lo: Option<int>, hi: Option<int>)
    requires |ks| <= MAX + 1 && Shaped(Internal(ks, cs)) && Ordered(Internal(ks, cs), lo, hi) && AllBounded(cs)
    ensures |ks| <= MAX ==> WF(Internal(ks, cs), lo, hi)
    ensures |ks| > MAX ==>
      && WF(Internal(ks[..MID], cs[..MID + 1]), lo, Some(ks[MID]))
      && WF(Internal(ks[MID + 1..], cs[MID + 1..]), Some(ks[MID]), hi)
      && Between(ks[MID], lo, hi)
      && Height(Internal(ks[..MID], cs[..MID + 1])) == Height(Internal(ks, cs))
      && Height(Internal(ks[MID + 1..], cs[MID + 1..])) == Height(Internal(ks, cs))
      && EntriesSeq(cs[..MID + 1]) + EntriesSeq(cs[MID + 1..]) == EntriesSeq(cs)
  {
    if |ks| > MAX {
      InternalSplitOrdered(ks, cs, lo, hi, MID);
      SplitBounded(ks, cs);
    }
  }

  /** Both halves of an overfull parent whose children are bounded are bounded. */
  lemma SplitBounded<T>(ks: seq<int>, cs: seq<Node<T>>)
    requires MAX < |ks| <= MAX + 1 && |cs| == |ks| + 1 && AllBounded(cs)
    ensures Bounded(Internal(ks[..MID], cs[..MID + 1])) && Bounded(Internal(ks[MID + 1..], cs[MID + 1..]))
  {
    var rc := cs[MID + 1..];
    assert forall j :: 0 <= j < |rc| ==> rc[j] == cs[MID + 1 + j];
  }

  /**
    The child a descent picks is well formed within its separators, admits the key, and
    takes the whole effect of the insertion on the parent's entries.
   */
  lemma DescentInsert<T>(n: Node<T>, lo: Option<int>, hi: Option<int>, key: int, data: T)
    requires n.Internal? && WF(n, lo, hi) && InRange(key, lo, hi) && key !in KeysOf(Entries(n))
    ensures ChildIndex(n.keys, key) < |n.children|
    ensures var i := ChildIndex(n.keys, key);
      && WF(n.children[i], LoAt(lo, n.keys, i), HiAt(hi, n.keys, i))
      && InRange(key, LoAt(lo, n.keys, i), HiAt(hi, n.keys, i))
      && key !in KeysOf(Entries(n.children[i]))
      && InsertEntry(Entries(n), key, data)
         == EntriesSeq(n.children[..i]) + InsertEntry(Entries(n.children[i]), key, data) + EntriesSeq(n.children[i + 1..])
  {
    var ks, cs := n.keys, n.children;
    var i := ChildIndex(ks, key);
    DescentSeparates(n, lo, hi, key);
    ChildPartition(n, lo, hi, i);
    ChildOrdered(n, lo, hi, i);
    assert Bounded(cs[i]);
    var p, e, s := EntriesSeq(cs[..i]), Entries(cs[i]), EntriesSeq(cs[i + 1..]);
    NotInMiddle(p, e, s, key);
    InsertEntryAround(p, e, s, key, data);
  }

  /** Insertion below an internal node whose chosen child absorbed the key. */
  lemma InternalFitCase<T>(n: Node<T>, lo: Option<int>, hi: Option<int>, key: int, data: T, c: Node<T>)
    requires n.Internal? && WF(n, lo, hi) && ChildIndex(n.keys, key) < |n.children|
    requires var i := ChildIndex(n.keys, key);
      && InsertRec(n.children[i], key, data) == Fit(c)
      && InsertedInto(Fit(c), n.children[i], LoAt(lo, n.keys, i), HiAt(hi, n.keys, i), key, data)
      && InsertEntry(Entries(n), key, data)
         == EntriesSeq(n.children[..i]) + InsertEntry(Entries(n.children[i]), key, data) + EntriesSeq(n.children[i + 1..])
    ensures InsertedInto(InsertRec(n, key, data), n, lo, hi, key, data)
  {
    var ks, cs := n.keys, n.children;
    var i := ChildIndex(ks, key);
    assert InsertRec(n, key, data) == Fit(Internal(ks, cs[i := c]));
    ReplaceChildWF(ks, cs, lo, hi, i, c);
    ReplaceOneEntries(cs, i, c);
  }

  /** Insertion below an internal node whose chosen child split. */
  lemma InternalGrowCase<T>(n: Node<T>, lo: Option<int>, hi: Option<int>, key: int, data: T, l: Node<T>, u: int, r: Node<T>)
    requires n.Internal? && WF(n, lo, hi) && ChildIndex(n.keys, key) < |n.children|
    requires var i := ChildIndex(n.keys, key);
      && InsertRec(n.children[i], key, data) == Split(l, u, r)
      && InsertedInto(Split(l, u, r), n.children[i], LoAt(lo, n.keys, i), HiAt(hi, n.keys, i), key, data)
      && InsertEntry(Entries(n), key, data)
         == EntriesSeq(n.children[..i]) + InsertEntry(Entries(n.children[i]), key, data) + EntriesSeq(n.children[i + 1..])
    ensures InsertedInto(InsertRec(n, key, data), n, lo, hi, key, data)
  {
    var ks, cs := n.keys, n.children;
    var i := ChildIndex(ks, key);
    var lo', hi' := LoAt(lo, ks, i), HiAt(hi, ks, i);
    assert Settled(Split(l, u, r), lo', hi', Height(cs[i]), InsertEntry(Entries(cs[i]), key, data));
    assert WF(l, lo', Some(u)) && WF(r, Some(u), hi') && Between(u, lo', hi');
    assert Height(l) == Height(cs[i]) && Height(r) == Height(cs[i]);
    assert InsertEntry(Entries(n), key, data)
      == EntriesSeq(cs[..i]) + (Entries(l) + Entries(r)) + EntriesSeq(cs[i + 1..]);
    PromoteCorrect(ks, cs, lo, hi, i, l, u, r);
    assert InsertRec(n, key, data) == Promote(ks, cs, i, l, u, r);
  }

  /**
    Insertion of an absent key below a well-formed subtree whose bounds admit the key
    keeps its promise to the parent.
   */
  lemma {:induction false} InsertRecCorrect<T>(n: Node<T>, lo: Option<int>, hi: Option<int>, key: int, data: T)
    requires WF(n, lo, hi) && InRange(key, lo, hi) && key !in KeysOf(Entries(n))
    ensures InsertedInto(InsertRec(n, key, data), n, lo, hi, key, data)
    decreases n
  {
    match n
    case Leaf(ks, vs) =>
      KeysOfZip(ks, vs);
      LeafInsertCorrect(n, lo, hi, key, data);
    case Internal(ks, cs) =>
      var i := ChildIndex(ks, key);
      DescentInsert(n, lo, hi, key, data);
      InsertRecCorrect(cs[i], LoAt(lo, ks, i), HiAt(hi, ks, i), key, data);
      match InsertRec(cs[i], key, data)
      case Fit(c) =>
        InternalFitCase(n, lo, hi, key, data, c);
      case Split(l, u, r) =>
        InternalGrowCase(n, lo, hi, key, data, l, u, r);
  }

  // ---------------------------------------------------------------------------
  // The whole tree

  /** A root that splits becomes the two children of a new root with one separator. */
  lemma NewRootWF<T>(l: Node<T>, u: int, r: Node<T>)
    requires WF(l, None, Some(u)) && WF(r, Some(u), None) && Height(l) == Height(r)
    ensures WF(Internal([u], [l, r]), None, None)
    ensures Height(Internal([u], [l, r])) == Height(l) + 1
    ensures Entries(Internal([u], [l, r])) == Entries(l) + Entries(r)
  {
    EntriesPair(l, r);
  }

  /**
    bptree_insert of a key the tree does not hold keeps the tree valid and adds exactly
    the pair (key, data) to its contents, at its sorted position.
   */
  lemma InsertCorrect<T>(t: Tree<T>, key: int, data: T)
    requires Valid(t) && key !in KeysOf(Contents(t))
    requires t.Some? ==> Height(t.value) <= STACK_DEPTH
    ensures Valid(Insert(t, key, data))
    ensures Contents(Insert(t, key, data)) == InsertEntry(Contents(t), key, data)
  {
    match t
    case None =>
      assert Insert(t, key, data) == Some(Leaf([key], [data]));
    case Some(n) =>
      InsertRecCorrect(n, None, None, key, data);
      match InsertRec(n, key, data)
      case Fit(n') =>
      case Split(l, u, r) =>
        NewRootWF(l, u, r);
  }

  /** Looking up in the entries after InsertEntry of an absent key. */
  lemma LookupInsertEntry<T>(es: seq<Entry<T>>, key: int, data: T, k: int)
    requires key !in KeysOf(es)
    ensures Lookup(InsertEntry(es, key, data), k) == if k == key then Some(data) else Lookup(es, k)
  {
    LookupInsertAt(es, InsertPos(KeysOf(es), key), (key, data), k);
  }

  /** Looking up after slotting in a pair whose key is new, at any position. */
  lemma LookupInsertAt<T>(es: seq<Entry<T>>, p: nat, e: Entry<T>, k: int)
    requires p <= |es| && e.0 !in KeysOf(es)
    ensures Lookup(InsertAt(es, p, e), k) == if k == e.0 then Some(e.1) else Lookup(es, k)
  {
    var a, b := es[..p], es[p..];
    assert InsertAt(es, p, e) == a + ([e] + b);
    assert es == a + b;
    LookupCons(e, b, k);
    LookupAppend(a, [e] + b, k);
    LookupAppend(a, b, k);
    if k == e.0 {
      assert k !in KeysOf(a) by {
        forall j | 0 <= j < |a| ensures KeysOf(a)[j] != k {
          assert a[j] == es[j];
        }
      }
    }
  }

  lemma LookupCons<T>(e: Entry<T>, b: seq<Entry<T>>, k: int)
    ensures Lookup([e] + b, k) == if e.0 == k then Some(e.1) else Lookup(b, k)
  {
    assert ([e] + b)[1..] == b;
  }

  /**
    After inserting an absent key, searching for it finds the new payload, and every
    other key is found exactly as before.
   */
  lemma InsertThenLookup<T>(t: Tree<T>, key: int, data: T, k: int)
    requires Valid(t) && key !in KeysOf(Contents(t))
    requires t.Some? ==> Height(t.value) <= STACK_DEPTH
    ensures Lookup(Contents(Insert(t, key, data)), k) == if k == key then Some(data) else Lookup(Contents(t), k)
  {
    InsertCorrect(t, key, data);
    LookupInsertEntry(Contents(t), key, data, k);
  }

  /** Insertion raises the tree by at most one level, and only by growing a new root. */
  lemma InsertHeight<T>(t: Tree<T>, key: int, data: T)
    requires t.Some? && Valid(t) && key !in KeysOf(Contents(t)) && Height(t.value) <= STACK_DEPTH
    ensures Insert(t, key, data).Some?
    ensures var h, h' := Height(t.value), Height(Insert(t, key, data).value);
      h' == h || (h' == h + 1 && Insert(t, key, data).value.Internal? && |Insert(t, key, data).value.keys| == 1)
  {
    InsertRecCorrect(t.value, None, None, key, data);
    match InsertRec(t.value, key, data)
    case Fit(n') =>
    case Split(l, u, r) =>
      NewRootWF(l, u, r);
  }
}
