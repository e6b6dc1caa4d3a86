/**
  How insertion and the underflow repair change the leaf chain. bptree.c relinks `next`
  in two places only: a leaf split links the new leaf directly after the one it came
  from (bptree.c:87-88), and a merge gives the surviving leaf the `next` of the leaf it
  takes in (bptree.c:309, 331). A borrow moves one entry between neighbours and relinks
  nothing. The lemmas here show that `Leaves`, the left-to-right order of the leaves,
  changes in exactly those ways at every height, for insertion and for deletion, so
  that it stays the order the chain visits them in.
 */
module LeafChain {
  import opened KeySeq
  import opened BPTree
  import opened Queries

  // ---------------------------------------------------------------------------
  // Leaves of a row of subtrees

  /** A row of one subtree has that subtree's leaves. */
  lemma {:induction false} LeavesSeqSingle<T>(x: Node<T>)
    ensures LeavesSeq([x]) == Leaves(x)
  {
    assert [x][..0] == [];
  }

  /** The leaves of two rows side by side are the leaves of the first, then of the second. */
  lemma {:induction false} LeavesSeqConcat<T>(a: seq<Node<T>>, b: seq<Node<T>>)
    ensures LeavesSeq(a + b) == LeavesSeq(a) + LeavesSeq(b)
    decreases |b|
  {
    if b == [] {
      assert a + b == a;
    } else {
      DropLast(a, b);
      LeavesSeqConcat(a, b[..|b| - 1]);
    }
  }

  /** The leaves of a row: those before child `i`, those of child `i`, those after it. */
  lemma {:induction false} LeavesAround<T>(cs: seq<Node<T>>, i: nat)
    requires i < |cs|
    ensures LeavesSeq(cs) == LeavesSeq(cs[..i]) + Leaves(cs[i]) + LeavesSeq(cs[i + 1..])
  {
    SplitAt(cs, i);
    LeavesSeqConcat(cs[..i] + [cs[i]], cs[i + 1..]);
    LeavesSeqConcat(cs[..i], [cs[i]]);
    LeavesSeqSingle(cs[i]);
  }

  /** A row of leaves is its own chain. */
  lemma {:induction false} LeavesOfLeaves<T>(cs: seq<Node<T>>)
    requires forall j :: 0 <= j < |cs| ==> cs[j].Leaf?
    ensures LeavesSeq(cs) == cs
    decreases |cs|
  {
    if cs != [] {
      DropLast([], cs);
      LeavesOfLeaves(cs[..|cs| - 1]);
    }
  }

  // ---------------------------------------------------------------------------
  // Insertion

  /** The leaves a node hands back to its parent after an insertion, left to right. */
  function GrownLeaves<T>(g: Grown<T>): seq<Node<T>> {
    match g
    case Fit(c) => Leaves(c)
    case Split(l, _, r) => Leaves(l) + Leaves(r)
  }

  /** Two subtrees side by side: the leaves of the first, then those of the second. */
  lemma {:induction false} LeavesPair<T>(l: Node<T>, r: Node<T>)
    ensures LeavesSeq([l, r]) == Leaves(l) + Leaves(r)
  {
    assert [l, r][..1] == [l];
    LeavesSeqSingle(l);
  }

  /** Child `i` replaced by `l` and `r`, side by side: the row's leaves change there only. */
  lemma {:induction false} LeavesTwoForOne<T>(cs: seq<Node<T>>, i: nat, l: Node<T>, r: Node<T>)
    requires i < |cs|
    ensures LeavesSeq(InsertAt(cs[i := l], i + 1, r))
      == LeavesSeq(cs[..i]) + (Leaves(l) + Leaves(r)) + LeavesSeq(cs[i + 1..])
  {
    InsertTwo(cs, i, l, r);
    LeavesSeqConcat(cs[..i] + [l, r], cs[i + 1..]);
    LeavesSeqConcat(cs[..i], [l, r]);
    LeavesPair(l, r);
  }

  /** A parent taking in a split child puts the right half's leaves directly after the left's. */
  lemma {:induction false} PromoteLeaves<T>(ks: seq<int>, cs: seq<Node<T>>, i: nat, l: Node<T>, u: int, r: Node<T>)
    requires |cs| == |ks| + 1 && i < |cs|
    ensures GrownLeaves(Promote(ks, cs, i, l, u, r))
      == LeavesSeq(cs[..i]) + GrownLeaves(Split(l, u, r)) + LeavesSeq(cs[i + 1..])
  {
    GrownOfRow(Promote(ks, cs, i, l, u, r), InsertAt(cs[i := l], i + 1, r));
    LeavesTwoForOne(cs, i, l, r);
  }

  /** A parent that fits, or its two halves, has the leaves of the row of children it was built from. */
  lemma {:induction false} GrownOfRow<T>(g: Grown<T>, cs: seq<Node<T>>)
    requires g.Fit? ==> g.node.Internal? && g.node.children == cs
    requires g.Split? ==> g.left.Internal? && g.right.Internal? && g.left.children + g.right.children == cs
    ensures GrownLeaves(g) == LeavesSeq(cs)
  {
    if g.Split? {
      LeavesSeqConcat(g.left.children, g.right.children);
    }
  }

  /** At an internal node, what comes back up holds the chain of the child that took the pair. */
  lemma {:induction false} InternalGrownLeaves<T>(ks: seq<int>, cs: seq<Node<T>>, key: int, data: T)
    requires Shaped(Internal(ks, cs))
    ensures var i := ChildIndex(ks, key);
      GrownLeaves(InsertRec(Internal(ks, cs), key, data))
      == LeavesSeq(cs[..i]) + GrownLeaves(InsertRec(cs[i], key, data)) + LeavesSeq(cs[i + 1..])
  {
    var i := ChildIndex(ks, key);
    InsertRecInternal(ks, cs, key, data);
    GrownStep(ks, cs, i, InsertRec(cs[i], key, data), InsertRec(Internal(ks, cs), key, data));
  }

  /** InsertRec at an internal node, by what the child on the path hands back. */
  lemma {:induction false} InsertRecInternal<T>(ks: seq<int>, cs: seq<Node<T>>, key: int, data: T)
    requires Shaped(Internal(ks, cs))
    ensures var i := ChildIndex(ks, key); var g := InsertRec(cs[i], key, data);
      && (g.Fit? ==> InsertRec(Internal(ks, cs), key, data) == Fit(Internal(ks, cs[i := g.node])))
      && (g.Split? ==> InsertRec(Internal(ks, cs), key, data) == Promote(ks, cs, i, g.left, g.upKey, g.right))
  { }

  /**
    One level of insertion, given only what the child handed back: the parent's chain
    is its children's chains with the child's replaced by what came back from it.
   */
  lemma {:induction false} GrownStep<T>(ks: seq<int>, cs: seq<Node<T>>, i: nat, g: Grown<T>, whole: Grown<T>)
    requires |cs| == |ks| + 1 && i < |cs|
    requires g.Fit? ==> whole == Fit(Internal(ks, cs[i := g.node]))
    requires g.Split? ==> whole == Promote(ks, cs, i, g.left, g.upKey, g.right)
    ensures GrownLeaves(whole) == LeavesSeq(cs[..i]) + GrownLeaves(g) + LeavesSeq(cs[i + 1..])
  {
    if g.Fit? {
      FitGrownLeaves(ks, cs, i, g.node);
    } else {
      PromoteLeaves(ks, cs, i, g.left, g.upKey, g.right);
    }
  }

  /** A child that absorbed the pair is the only part of its parent's chain that changes. */
  lemma {:induction false} FitGrownLeaves<T>(ks: seq<int>, cs: seq<Node<T>>, i: nat, c: Node<T>)
    requires i < |cs|
    ensures GrownLeaves(Fit(Internal(ks, cs[i := c])))
      == LeavesSeq(cs[..i]) + GrownLeaves(Fit(c)) + LeavesSeq(cs[i + 1..])
  {
    LeavesAround(cs[i := c], i);
    UpdateKeepsRest(cs, i, c);
  }

  /** What a leaf taking the pair hands back, read as a piece of chain: one leaf or two. */
  function LeafGrown<T>(f: Node<T>, key: int, data: T): seq<Node<T>>
    requires f.Leaf? && |f.keys| == |f.vals|
  {
    var p := InsertPos(f.keys, key);
    GrownLeaves(SettleLeaf(InsertAt(f.keys, p, key), InsertAt(f.vals, p, data)))
  }

  /**
    A leaf taking a pair hands back itself with the pair in sorted place, or two leaves
    whose keys and payloads, read left then right, are exactly that: the new leaf sits
    directly after the one it split from.
   */
  lemma {:induction false} LeafGrownLeaves<T>(f: Node<T>, key: int, data: T)
    requires f.Leaf? && |f.keys| == |f.vals|
    ensures var p := InsertPos(f.keys, key);
      var ks, vs := InsertAt(f.keys, p, key), InsertAt(f.vals, p, data);
      var ls := LeafGrown(f, key, data);
      && (|f.keys| < MAX ==> ls == [Leaf(ks, vs)])
      && (|f.keys| >= MAX ==>
            |ls| == 2 && ls[0].Leaf? && ls[1].Leaf?
            && ls[0].keys + ls[1].keys == ks && ls[0].vals + ls[1].vals == vs)
  {
    var p := InsertPos(f.keys, key);
    var g := SettleLeaf(InsertAt(f.keys, p, key), InsertAt(f.vals, p, data));
    if g.Split? {
      assert Leaves(g.left) == [g.left] && Leaves(g.right) == [g.right];
    }
  }

  /** The leaf the descent for `key` reaches. */
  function ReachedLeaf<T>(n: Node<T>, key: int): (f: Node<T>)
    requires Shaped(n)
    ensures f.Leaf? && |f.keys| == |f.vals|
    decreases n
  {
    match n
    case Leaf(_, _) => n
    case Internal(ks, cs) => ReachedLeaf(cs[ChildIndex(ks, key)], key)
  }

  /** The leaves of `n` left of the one the descent for `key` reaches. */
  ghost function ChainBefore<T>(n: Node<T>, key: int): seq<Node<T>>
    requires Shaped(n)
    decreases n
  {
    match n
    case Leaf(_, _) => []
    case Internal(ks, cs) =>
      var i := ChildIndex(ks, key);
      LeavesSeq(cs[..i]) + ChainBefore(cs[i], key)
  }

  /** The leaves of `n` right of the one the descent for `key` reaches. */
  ghost function ChainAfter<T>(n: Node<T>, key: int): seq<Node<T>>
    requires Shaped(n)
    decreases n
  {
    match n
    case Leaf(_, _) => []
    case Internal(ks, cs) =>
      var i := ChildIndex(ks, key);
      ChainAfter(cs[i], key) + LeavesSeq(cs[i + 1..])
  }

  /** Regrouping five pieces of a chain around the middle one. */
  lemma Regroup<X>(a: seq<X>, b: seq<X>, c: seq<X>, d: seq<X>, e: seq<X>)
    ensures a + (b + c + d) + e == (a + b) + c + (d + e)
  { }

  /** The chain of `n` is the leaves before the reached one, that leaf, and the leaves after it. */
  lemma {:induction false} LeavesAroundReached<T>(n: Node<T>, key: int)
    requires Shaped(n)
    ensures Leaves(n) == ChainBefore(n, key) + [ReachedLeaf(n, key)] + ChainAfter(n, key)
    decreases n
  {
    match n
    case Leaf(_, _) =>
      assert Leaves(n) == [n];
      assert [] + [n] + [] == [n];
    case Internal(ks, cs) =>
      var i := ChildIndex(ks, key);
      var c := cs[i];
      LeavesAroundReached(c, key);
      LeavesAround(cs, i);
      Regroup(LeavesSeq(cs[..i]), ChainBefore(c, key), [ReachedLeaf(c, key)], ChainAfter(c, key), LeavesSeq(cs[i + 1..]));
  }

  /**
    The chain insertion hands back, read off along the descent for `key`: the chains of
    the children left of the path, what comes back from the child on it, and the chains
    of the children right of it. GrownChainIsInsertRec shows it is what InsertRec builds.
   */
  ghost function GrownChain<T>(n: Node<T>, key: int, data: T): seq<Node<T>>
    requires Shaped(n)
    decreases n
  {
    match n
    case Leaf(_, _) => LeafGrown(n, key, data)
    case Internal(ks, cs) =>
      var i := ChildIndex(ks, key);
      LeavesSeq(cs[..i]) + GrownChain(cs[i], key, data) + LeavesSeq(cs[i + 1..])
  }

  /** The leaves of what InsertRec hands back are GrownChain. */
  lemma {:induction false} GrownChainIsInsertRec<T>(n: Node<T>, key: int, data: T)
    requires Shaped(n)
    ensures GrownLeaves(InsertRec(n, key, data)) == GrownChain(n, key, data)
    decreases n
  {
    match n
    case Leaf(_, _) =>
    case Internal(ks, cs) =>
      GrownChainIsInsertRec(cs[ChildIndex(ks, key)], key, data);
      InternalGrownLeaves(ks, cs, key, data);
  }

  /** GrownChain is the same chain with the reached leaf replaced by what it alone hands back. */
  lemma {:induction false} GrownAroundReached<T>(n: Node<T>, key: int, data: T)
    requires Shaped(n)
    ensures GrownChain(n, key, data) == ChainBefore(n, key) + LeafGrown(ReachedLeaf(n, key), key, data) + ChainAfter(n, key)
    decreases n
  {
    match n
    case Leaf(_, _) =>
      assert [] + LeafGrown(n, key, data) + [] == LeafGrown(n, key, data);
    case Internal(ks, cs) =>
      var i := ChildIndex(ks, key);
      var c := cs[i];
      GrownAroundReached(c, key, data);
      Regroup(LeavesSeq(cs[..i]), ChainBefore(c, key), LeafGrown(ReachedLeaf(c, key), key, data), ChainAfter(c, key), LeavesSeq(cs[i + 1..]));
  }

  /**
    Insertion changes the chain of a subtree at the leaf the descent reaches and nowhere
    else: the leaves before and after it stay as they were, in order, and that leaf is
    replaced by itself with the pair in place or by its two halves (LeafGrownLeaves).
   */
  lemma {:induction false} InsertRecLeaves<T>(n: Node<T>, key: int, data: T)
    requires Shaped(n)
    ensures var before, f, after := ChainBefore(n, key), ReachedLeaf(n, key), ChainAfter(n, key);
      && Leaves(n) == before + [f] + after
      && GrownLeaves(InsertRec(n, key, data)) == before + LeafGrown(f, key, data) + after
  {
    LeavesAroundReached(n, key);
    GrownChainIsInsertRec(n, key, data);
    GrownAroundReached(n, key, data);
  }

  // ---------------------------------------------------------------------------
  // The underflow repair

  /**
    `b` is `a` with the leaves at `j` and `j + 1` still in place, side by side, and the
    entries of the two shared out anew: a borrow, which relinks nothing.
   */
  ghost predicate Redistributed<T>(a: seq<Node<T>>, b: seq<Node<T>>, j: nat) {
    && j + 1 < |a| && j + 1 < |b|
    && b == a[..j] + [b[j], b[j + 1]] + a[j + 2..]
    && a[j].Leaf? && a[j + 1].Leaf? && b[j].Leaf? && b[j + 1].Leaf?
    && b[j].keys + b[j + 1].keys == a[j].keys + a[j + 1].keys
    && b[j].vals + b[j + 1].vals == a[j].vals + a[j + 1].vals
  }

  /**
    `b` is `a` with the leaves at `j` and `j + 1` replaced by one leaf holding the
    entries of both: a merge, after which the left leaf links to where the right one did.
   */
  ghost predicate Merged<T>(a: seq<Node<T>>, b: seq<Node<T>>, j: nat) {
    && j + 1 < |a| && a[j].Leaf? && a[j + 1].Leaf?
    && b == a[..j] + [Leaf(a[j].keys + a[j + 1].keys, a[j].vals + a[j + 1].vals)] + a[j + 2..]
  }

  /**
    The chain under a repaired parent, branch by branch: a borrow from the left or the
    right leaves the leaves in place with the entries of two neighbours shared out anew,
    a merge into the left or of the right replaces two neighbours by their union, and a
    parent with a single child keeps its chain.
   */
  lemma {:induction false} RebalanceLeaves<T>(ks: seq<int>, cs: seq<Node<T>>, i: nat)
    requires |cs| == |ks| + 1 && i < |cs|
    requires forall j :: 0 <= j < |cs| ==> cs[j].Leaf? && |cs[j].keys| == |cs[j].vals|
    ensures var ls := Leaves(Rebalance(ks, cs, i));
      var fromLeft := 0 < i && |cs[i - 1].keys| > MID;
      var fromRight := i < |ks| && |cs[i + 1].keys| > MID;
      && (fromLeft ==> Redistributed(cs, ls, i - 1))
      && (!fromLeft && fromRight ==> Redistributed(cs, ls, i))
      && (!fromLeft && !fromRight && 0 < i ==> Merged(cs, ls, i - 1))
      && (!fromLeft && !fromRight && i == 0 && i < |ks| ==> Merged(cs, ls, i))
      && (|ks| == 0 ==> ls == cs)
  {
    if 0 < i && |cs[i - 1].keys| > MID {
      BorrowLeftLeaves(ks, cs, i);
    } else if i < |ks| && |cs[i + 1].keys| > MID {
      BorrowRightLeaves(ks, cs, i);
    } else if 0 < i {
      MergeLeftLeaves(ks, cs, i);
    } else if i < |ks| {
      MergeRightLeaves(ks, cs, i);
    } else {
      LeavesOfLeaves(cs);
    }
  }

  /** Borrowing the left neighbour's last entry (bptree.c:273-285) relinks nothing. */
  lemma {:induction false} BorrowLeftLeaves<T>(ks: seq<int>, cs: seq<Node<T>>, i: nat)
    requires |cs| == |ks| + 1 && i < |cs|
    requires forall j :: 0 <= j < |cs| ==> cs[j].Leaf? && |cs[j].keys| == |cs[j].vals|
    requires 0 < i && |cs[i - 1].keys| > MID
    ensures Redistributed(cs, Leaves(Rebalance(ks, cs, i)), i - 1)
  {
    var leaf := cs[i];
    var lk, lv := cs[i - 1].keys, cs[i - 1].vals;
    var m := |lk| - 1;
    var a, b := Leaf(lk[..m], lv[..m]), Leaf([lk[m]] + leaf.keys, [lv[m]] + leaf.vals);
    var r := Rebalance(ks, cs, i);
    assert r.children == cs[i - 1 := a][i := b];
    assert lk[..m] + ([lk[m]] + leaf.keys) == lk + leaf.keys;
    assert lv[..m] + ([lv[m]] + leaf.vals) == lv + leaf.vals;
    PairRedistributed(cs, i - 1, a, b);
  }

  /** Borrowing the right neighbour's first entry (bptree.c:287-300) relinks nothing. */
  lemma {:induction false} BorrowRightLeaves<T>(ks: seq<int>, cs: seq<Node<T>>, i: nat)
    requires |cs| == |ks| + 1 && i < |cs|
    requires forall j :: 0 <= j < |cs| ==> cs[j].Leaf? && |cs[j].keys| == |cs[j].vals|
    requires !(0 < i && |cs[i - 1].keys| > MID) && i < |ks| && |cs[i + 1].keys| > MID
    ensures Redistributed(cs, Leaves(Rebalance(ks, cs, i)), i)
  {
    var leaf := cs[i];
    var rk, rv := cs[i + 1].keys, cs[i + 1].vals;
    var a, b := Leaf(leaf.keys + [rk[0]], leaf.vals + [rv[0]]), Leaf(rk[1..], rv[1..]);
    var r := Rebalance(ks, cs, i);
    assert r.children == cs[i := a][i + 1 := b];
    assert leaf.keys + [rk[0]] + rk[1..] == leaf.keys + rk;
    assert leaf.vals + [rv[0]] + rv[1..] == leaf.vals + rv;
    PairRedistributed(cs, i, a, b);
  }

  /** Merging into the left neighbour (bptree.c:302-323, the link at 309) links it to the merged leaf's successor. */
  lemma {:induction false} MergeLeftLeaves<T>(ks: seq<int>, cs: seq<Node<T>>, i: nat)
    requires |cs| == |ks| + 1 && i < |cs|
    requires forall j :: 0 <= j < |cs| ==> cs[j].Leaf? && |cs[j].keys| == |cs[j].vals|
    requires !(0 < i && |cs[i - 1].keys| > MID) && !(i < |ks| && |cs[i + 1].keys| > MID) && 0 < i
    ensures Merged(cs, Leaves(Rebalance(ks, cs, i)), i - 1)
  {
    var c := Leaf(cs[i - 1].keys + cs[i].keys, cs[i - 1].vals + cs[i].vals);
    var r := Rebalance(ks, cs, i);
    assert r.children == RemoveAt(cs[i - 1 := c], i);
    PairMerged(cs, i - 1);
  }

  /** Merging the right neighbour in (bptree.c:324-344, the link at 331) links the leaf to that neighbour's successor. */
  lemma {:induction false} MergeRightLeaves<T>(ks: seq<int>, cs: seq<Node<T>>, i: nat)
    requires |cs| == |ks| + 1 && i < |cs|
    requires forall j :: 0 <= j < |cs| ==> cs[j].Leaf? && |cs[j].keys| == |cs[j].vals|
    requires !(0 < i && |cs[i - 1].keys| > MID) && !(i < |ks| && |cs[i + 1].keys| > MID)
    requires i == 0 && i < |ks|
    ensures Merged(cs, Leaves(Rebalance(ks, cs, i)), i)
  {
    var c := Leaf(cs[i].keys + cs[i + 1].keys, cs[i].vals + cs[i + 1].vals);
    var r := Rebalance(ks, cs, i);
    assert r.children == RemoveAt(cs[i := c], i + 1);
    PairMerged(cs, i);
  }

  /** Two neighbouring leaves that share out their entries anew: the chain is the row itself. */
  lemma {:induction false} PairRedistributed<T>(cs: seq<Node<T>>, j: nat, a: Node<T>, b: Node<T>)
    requires j + 1 < |cs| && forall k :: 0 <= k < |cs| ==> cs[k].Leaf?
    requires a.Leaf? && b.Leaf?
    requires a.keys + b.keys == cs[j].keys + cs[j + 1].keys
    requires a.vals + b.vals == cs[j].vals + cs[j + 1].vals
    ensures LeavesSeq(cs[j := a][j + 1 := b]) == cs[j := a][j + 1 := b]
    ensures Redistributed(cs, cs[j := a][j + 1 := b], j)
  {
    ReplacePair(cs, j, a, b);
    LeavesOfLeaves(cs[j := a][j + 1 := b]);
  }

  /** Two neighbouring leaves merged into the left one: the chain is the row itself. */
  lemma {:induction false} PairMerged<T>(cs: seq<Node<T>>, j: nat)
    requires j + 1 < |cs| && forall k :: 0 <= k < |cs| ==> cs[k].Leaf?
    ensures var c := Leaf(cs[j].keys + cs[j + 1].keys, cs[j].vals + cs[j + 1].vals);
      && LeavesSeq(RemoveAt(cs[j := c], j + 1)) == RemoveAt(cs[j := c], j + 1)
      && Merged(cs, RemoveAt(cs[j := c], j + 1), j)
  {
    var c := Leaf(cs[j].keys + cs[j + 1].keys, cs[j].vals + cs[j + 1].vals);
    RemoveNext(cs, j, c);
    LeavesOfLeaves(RemoveAt(cs[j := c], j + 1));
  }

  // ---------------------------------------------------------------------------
  // Deletion

  /** The lowest internal node on the descent for `key`: the parent of the leaf it reaches. */
  ghost function ReachedParent<T>(n: Node<T>, key: int): (p: Node<T>)
    requires n.Internal? && Shaped(n)
    ensures p.Internal? && Shaped(p)
    ensures forall j :: 0 <= j < |p.children| ==> p.children[j].Leaf? && |p.children[j].keys| == |p.children[j].vals|
    decreases n
  {
    var i := ChildIndex(n.keys, key);
    if n.children[i].Leaf? then
      LeafChildren(n);
      n
    else
      ReachedParent(n.children[i], key)
  }

  /** The leaves of `n` left of the reached parent's. */
  ghost function ParentBefore<T>(n: Node<T>, key: int): seq<Node<T>>
    requires n.Internal? && Shaped(n)
    decreases n
  {
    var i := ChildIndex(n.keys, key);
    if n.children[i].Leaf? then [] else LeavesSeq(n.children[..i]) + ParentBefore(n.children[i], key)
  }

  /** The leaves of `n` right of the reached parent's. */
  ghost function ParentAfter<T>(n: Node<T>, key: int): seq<Node<T>>
    requires n.Internal? && Shaped(n)
    decreases n
  {
    var i := ChildIndex(n.keys, key);
    if n.children[i].Leaf? then [] else ParentAfter(n.children[i], key) + LeavesSeq(n.children[i + 1..])
  }

  /** Deletion stepping down through an internal child (bptree.c:217-227) changes the leaves of that child only. */
  lemma {:induction false} ChildDeleteLeaves<T>(ks: seq<int>, cs: seq<Node<T>>, key: int)
    requires Shaped(Internal(ks, cs)) && cs[ChildIndex(ks, key)].Internal?
    ensures var i := ChildIndex(ks, key);
      Leaves(DeleteBelow(Internal(ks, cs), key))
      == LeavesSeq(cs[..i]) + Leaves(DeleteBelow(cs[i], key)) + LeavesSeq(cs[i + 1..])
  {
    var i := ChildIndex(ks, key);
    var d := DeleteBelow(cs[i], key);
    assert DeleteBelow(Internal(ks, cs), key) == Internal(ks, cs[i := d]);
    LeavesAround(cs[i := d], i);
    UpdateKeepsRest(cs, i, d);
  }

  /**
    Deletion changes the chain of a subtree inside the leaves of the reached parent and
    nowhere else, at every height: the leaves before and after that parent's stay as
    they were, in order.
   */
  lemma {:induction false} DeleteBelowLeaves<T>(n: Node<T>, key: int)
    requires n.Internal? && Shaped(n)
    ensures var p, before, after := ReachedParent(n, key), ParentBefore(n, key), ParentAfter(n, key);
      && Leaves(n) == before + Leaves(p) + after
      && Leaves(DeleteBelow(n, key)) == before + Leaves(DeleteBelow(p, key)) + after
    decreases n
  {
    var ks, cs := n.keys, n.children;
    var i := ChildIndex(ks, key);
    var c := cs[i];
    if c.Leaf? {
      assert [] + Leaves(n) + [] == Leaves(n);
      assert [] + Leaves(DeleteBelow(n, key)) + [] == Leaves(DeleteBelow(n, key));
    } else {
      var p := ReachedParent(c, key);
      DeleteBelowLeaves(c, key);
      LeavesAround(cs, i);
      ChildDeleteLeaves(ks, cs, key);
      Regroup(LeavesSeq(cs[..i]), ParentBefore(c, key), Leaves(p), ParentAfter(c, key), LeavesSeq(cs[i + 1..]));
      Regroup(LeavesSeq(cs[..i]), ParentBefore(c, key), Leaves(DeleteBelow(p, key)), ParentAfter(c, key), LeavesSeq(cs[i + 1..]));
    }
  }

  /**
    Deletion at the parent of the leaf (bptree.c:244-259): an absent key changes nothing,
    the entry leaves its leaf in place, and only an underflow goes on to the repair,
    whose effect on the chain RebalanceLeaves gives.
   */
  lemma {:induction false} ParentDeleteLeaves<T>(p: Node<T>, key: int)
    requires p.Internal? && Shaped(p)
    requires forall j :: 0 <= j < |p.children| ==> p.children[j].Leaf? && |p.children[j].keys| == |p.children[j].vals|
    ensures var ks, cs := p.keys, p.children; var i := ChildIndex(ks, key); var f := cs[i];
      && Leaves(p) == cs
      && (key !in f.keys ==> Leaves(DeleteBelow(p, key)) == cs)
      && (key in f.keys ==>
            var j := FirstIndex(f.keys, key);
            var cs' := cs[i := Leaf(RemoveAt(f.keys, j), RemoveAt(f.vals, j))];
            && (|f.keys| - 1 >= MID ==> Leaves(DeleteBelow(p, key)) == cs')
            && (|f.keys| - 1 < MID ==> Leaves(DeleteBelow(p, key)) == Leaves(Rebalance(ks, cs', i))))
  {
    var ks, cs := p.keys, p.children;
    var i := ChildIndex(ks, key);
    var f := cs[i];
    LeavesOfLeaves(cs);
    if key in f.keys {
      var j := FirstIndex(f.keys, key);
      var cs' := cs[i := Leaf(RemoveAt(f.keys, j), RemoveAt(f.vals, j))];
      if |f.keys| - 1 >= MID {
        assert DeleteBelow(p, key) == Internal(ks, cs');
        LeavesOfLeaves(cs');
      }
    }
  }

  /**
    bptree_delete on an internal root: when the last separator goes, the merged child
    that becomes the root (bptree.c:320-323, 340-343) has the same leaves as the old root.
   */
  lemma {:induction false} DeleteLeaves<T>(t: Tree<T>, key: int)
    requires t.Some? && t.value.Internal? && Shaped(t.value)
    ensures Delete(t, key).Some? && Leaves(Delete(t, key).value) == Leaves(DeleteBelow(t.value, key))
  {
    var n' := DeleteBelow(t.value, key);
    if 0 < |t.value.keys| && |n'.keys| == 0 {
      assert n'.children == [n'.children[0]];
      LeavesSeqSingle(n'.children[0]);
    }
  }
}
