/**
  Correctness of bptree_delete over tree values: removing a key keeps every node
  ordered, bounded and at one depth, and removes exactly the first entry for the key;
  the four underflow repairs each keep the entries of the two leaves they touch.
 */
module DeleteProofs {
  import opened Wrappers
  import opened KeySeq
  import opened BPTree
  import opened EntriesFacts
  import opened InsertProofs

  /** A row of children that are all leaves, each with a payload per key and within capacity. */
  ghost predicate LeafRow<T>(cs: seq<Node<T>>) {
    forall j :: 0 <= j < |cs| ==> cs[j].Leaf? && |cs[j].keys| == |cs[j].vals| <= MAX
  }

  // ---------------------------------------------------------------------------
  // Two neighbouring leaves

  /**
    Borrowing from the left: the left leaf's last entry moves to the front of its right
    neighbour and becomes the separator between them.
   */
  lemma MoveLastRight<T>(lk: seq<int>, lv: seq<T>, nk: seq<int>, nv: seq<T>, lo: Option<int>, s: int, hi: Option<int>)
    requires |lk| == |lv| && |nk| == |nv| && 1 < |lk| && InRange(s, lo, hi)
    requires Ordered(Leaf(lk, lv), lo, Some(s)) && Ordered(Leaf(nk, nv), Some(s), hi)
    ensures var m := |lk| - 1;
      && Ordered(Leaf(lk[..m], lv[..m]), lo, Some(lk[m]))
      && Ordered(Leaf([lk[m]] + nk, [lv[m]] + nv), Some(lk[m]), hi)
      && Between(lk[m], lo, hi)
      && Entries(Leaf(lk[..m], lv[..m])) + Entries(Leaf([lk[m]] + nk, [lv[m]] + nv))
         == Entries(Leaf(lk, lv)) + Entries(Leaf(nk, nv))
  {
    var m := |lk| - 1;
    var nk' := [lk[m]] + nk;
    assert InRange(lk[0], lo, Some(s)) && lk[0] < lk[m];
    assert InRange(lk[m], lo, Some(s));
    forall i | 0 <= i < m ensures InRange(lk[..m][i], lo, Some(lk[m])) {
      assert InRange(lk[i], lo, Some(s));
    }
    forall i | 0 <= i < |nk'| ensures InRange(nk'[i], Some(lk[m]), hi) {
      if 0 < i {
        assert InRange(nk[i - 1], Some(s), hi);
      }
    }
    forall a, b | 0 <= a < b < |nk'| ensures nk'[a] < nk'[b] {
      if a == 0 {
        assert InRange(nk[b - 1], Some(s), hi);
      }
    }
    assert lk[..m] + nk' == lk + nk;
    assert lv[..m] + ([lv[m]] + nv) == lv + nv;
    ZipRegroup(lk[..m], lv[..m], nk', [lv[m]] + nv, lk, lv, nk, nv);
  }

  /**
    Borrowing from the right: the right leaf's first entry moves to the end of its left
    neighbour, and the right leaf's new first key becomes the separator between them.
   */
  lemma MoveFirstLeft<T>(nk: seq<int>, nv: seq<T>, rk: seq<int>, rv: seq<T>, lo: Option<int>, s: int, hi: Option<int>)
    requires |nk| == |nv| && |rk| == |rv| && 1 < |rk| && InRange(s, lo, hi)
    requires Ordered(Leaf(nk, nv), lo, Some(s)) && Ordered(Leaf(rk, rv), Some(s), hi)
    ensures
      && Ordered(Leaf(nk + [rk[0]], nv + [rv[0]]), lo, Some(rk[1]))
      && Ordered(Leaf(rk[1..], rv[1..]), Some(rk[1]), hi)
      && Between(rk[1], lo, hi)
      && Entries(Leaf(nk + [rk[0]], nv + [rv[0]])) + Entries(Leaf(rk[1..], rv[1..]))
         == Entries(Leaf(nk, nv)) + Entries(Leaf(rk, rv))
  {
    var nk' := nk + [rk[0]];
    assert InRange(rk[0], Some(s), hi) && InRange(rk[1], Some(s), hi);
    assert rk[0] < rk[1];
    forall i | 0 <= i < |nk'| ensures InRange(nk'[i], lo, Some(rk[1])) {
      if i < |nk| {
        assert InRange(nk[i], lo, Some(s));
      }
    }
    forall i | 0 <= i < |rk| - 1 ensures InRange(rk[1..][i], Some(rk[1]), hi) {
      assert InRange(rk[i + 1], Some(s), hi);
      assert rk[1] <= rk[i + 1];
    }
    forall a, b | 0 <= a < b < |nk'| ensures nk'[a] < nk'[b] {
      if b == |nk| {
        assert InRange(nk[a], lo, Some(s));
      }
    }
  }

  /** Merging two neighbouring leaves concatenates their entries in key order. */
  lemma MergeLeaves<T>(ak: seq<int>, av: seq<T>, bk: seq<int>, bv: seq<T>, lo: Option<int>, s: int, hi: Option<int>)
    requires |ak| == |av| && |bk| == |bv| && InRange(s, lo, hi)
    requires Ordered(Leaf(ak, av), lo, Some(s)) && Ordered(Leaf(bk, bv), Some(s), hi)
    ensures Ordered(Leaf(ak + bk, av + bv), lo, hi)
    ensures Entries(Leaf(ak + bk, av + bv)) == Entries(Leaf(ak, av)) + Entries(Leaf(bk, bv))
  {
    var ks := ak + bk;
    forall i | 0 <= i < |ks| ensures InRange(ks[i], lo, hi) {
      if i < |ak| {
        assert InRange(ak[i], lo, Some(s));
      } else {
        assert InRange(bk[i - |ak|], Some(s), hi);
      }
    }
    forall a, b | 0 <= a < b < |ks| ensures ks[a] < ks[b] {
      if a < |ak| <= b {
        assert InRange(ak[a], lo, Some(s));
        assert InRange(bk[b - |ak|], Some(s), hi);
      }
    }
  }

  // ---------------------------------------------------------------------------
  // The parent of the two leaves

  /**
    A parent that replaces neighbouring children `j`, `j+1` and the separator between
    them by ones that keep the separator's meaning, the new separator strictly between
    its neighbours, stays ordered.
   */
  lemma ReplacePairOrdered<T>(ks: seq<int>, cs: seq<Node<T>>, lo: Option<int>, hi: Option<int>, j: nat, a: Node<T>, k: int, b: Node<T>)
    requires |cs| == |ks| + 1 && j + 1 < |cs| && Ordered(Internal(ks, cs), lo, hi)
    requires Between(k, LoAt(lo, ks, j), HiAt(hi, ks, j + 1))
    requires Ordered(a, LoAt(lo, ks, j), Some(k)) && Ordered(b, Some(k), HiAt(hi, ks, j + 1))
    ensures Ordered(Internal(ks[j := k], cs[j := a][j + 1 := b]), lo, hi)
  {
    var ks', cs' := ks[j := k], cs[j := a][j + 1 := b];
    ReplaceKeepsStrict(ks, j, k);
    if 0 < j {
      assert InRange(ks[j - 1], lo, hi);
    }
    if j + 1 < |ks| {
      assert InRange(ks[j + 1], lo, hi);
    }
    assert InRange(k, lo, hi);
    forall x | 0 <= x < |cs'| ensures Ordered(cs'[x], LoAt(lo, ks', x), HiAt(hi, ks', x)) {
      if x != j && x != j + 1 {
        assert Ordered(cs[x], LoAt(lo, ks, x), HiAt(hi, ks, x));
      }
    }
  }

  /**
    A parent that replaces neighbouring children `j`, `j+1` by their merge `c` and drops
    the separator between them stays ordered.
   */
  lemma MergeOrdered<T>(ks: seq<int>, cs: seq<Node<T>>, lo: Option<int>, hi: Option<int>, j: nat, c: Node<T>)
    requires |cs| == |ks| + 1 && j + 1 < |cs| && Ordered(Internal(ks, cs), lo, hi)
    requires Ordered(c, LoAt(lo, ks, j), HiAt(hi, ks, j + 1))
    ensures Ordered(Internal(RemoveAt(ks, j), RemoveAt(cs[j := c], j + 1)), lo, hi)
  {
    var ks', cs' := RemoveAt(ks, j), RemoveAt(cs[j := c], j + 1);
    RemoveKeepsStrict(ks, j);
    forall x | 0 <= x < |ks'| ensures InRange(ks'[x], lo, hi) {
      if x < j {
        assert InRange(ks[x], lo, hi);
      } else {
        assert InRange(ks[x + 1], lo, hi);
      }
    }
    forall x | 0 <= x < |cs'| ensures Ordered(cs'[x], LoAt(lo, ks', x), HiAt(hi, ks', x)) {
      if x < j {
        assert Ordered(cs[x], LoAt(lo, ks, x), HiAt(hi, ks, x));
      } else if x > j {
        assert Ordered(cs[x + 1], LoAt(lo, ks, x + 1), HiAt(hi, ks, x + 1));
      }
    }
  }

  /** An ordered parent of a row of leaves with at most MAX separators is well formed, at height one. */
  lemma LeafRowWF<T>(ks: seq<int>, cs: seq<Node<T>>, lo: Option<int>, hi: Option<int>)
    requires |cs| == |ks| + 1 && |ks| <= MAX && LeafRow(cs) && Ordered(Internal(ks, cs), lo, hi)
    ensures WF(Internal(ks, cs), lo, hi) && Height(Internal(ks, cs)) == 1
  {
  }

  /** Neighbouring children `j`, `j+1` of an ordered parent lie on either side of `ks[j]`. */
  lemma Neighbours<T>(ks: seq<int>, cs: seq<Node<T>>, lo: Option<int>, hi: Option<int>, j: nat)
    requires |cs| == |ks| + 1 && j + 1 < |cs| && Ordered(Internal(ks, cs), lo, hi)
    ensures Ordered(cs[j], LoAt(lo, ks, j), Some(ks[j])) && Ordered(cs[j + 1], Some(ks[j]), HiAt(hi, ks, j + 1))
    ensures InRange(ks[j], LoAt(lo, ks, j), HiAt(hi, ks, j + 1))
  {
    assert Ordered(cs[j], LoAt(lo, ks, j), HiAt(hi, ks, j));
    assert Ordered(cs[j + 1], LoAt(lo, ks, j + 1), HiAt(hi, ks, j + 1));
    SepBetween(Internal(ks, cs), lo, hi, j, j, j + 1);
  }

  // ---------------------------------------------------------------------------
  // The four underflow repairs

  /** What each repair of an underflowing leaf promises: a well-formed parent with the same entries. */
  ghost predicate Repaired<T>(r: Node<T>, cs: seq<Node<T>>, lo: Option<int>, hi: Option<int>) {
    r.Internal? && WF(r, lo, hi) && Height(r) == 1 && LeafRow(r.children) && EntriesSeq(r.children) == EntriesSeq(cs)
  }

  /** Shared preconditions of the repairs: child `i` of a well-formed row of leaves underflows. */
  ghost predicate Underflow<T>(ks: seq<int>, cs: seq<Node<T>>, lo: Option<int>, hi: Option<int>, i: nat) {
    |cs| == |ks| + 1 && i < |cs| && LeafRow(cs) && |ks| <= MAX
    && Ordered(Internal(ks, cs), lo, hi) && |cs[i].keys| < MID
  }

  lemma BorrowLeftCase<T>(ks: seq<int>, cs: seq<Node<T>>, lo: Option<int>, hi: Option<int>, i: nat)
    requires Underflow(ks, cs, lo, hi, i) && 0 < i && |cs[i - 1].keys| > MID
    ensures Repaired(Rebalance(ks, cs, i), cs, lo, hi)
  {
    var j := i - 1;
    var lk, lv, nk, nv := cs[j].keys, cs[j].vals, cs[i].keys, cs[i].vals;
    var m := |lk| - 1;
    var a, b := Leaf(lk[..m], lv[..m]), Leaf([lk[m]] + nk, [lv[m]] + nv);
    assert Rebalance(ks, cs, i) == Internal(ks[j := lk[m]], cs[j := a][j + 1 := b]);
    Neighbours(ks, cs, lo, hi, j);
    MoveLastRight(lk, lv, nk, nv, LoAt(lo, ks, j), ks[j], HiAt(hi, ks, j + 1));
    ReplacePairOrdered(ks, cs, lo, hi, j, a, lk[m], b);
    LeafRowWF(ks[j := lk[m]], cs[j := a][j + 1 := b], lo, hi);
    PairSameEntries(cs, j, a, b);
  }

  lemma BorrowRightCase<T>(ks: seq<int>, cs: seq<Node<T>>, lo: Option<int>, hi: Option<int>, i: nat)
    requires Underflow(ks, cs, lo, hi, i) && !(0 < i && |cs[i - 1].keys| > MID)
    requires i < |ks| && |cs[i + 1].keys| > MID
    ensures Repaired(Rebalance(ks, cs, i), cs, lo, hi)
  {
    var nk, nv, rk, rv := cs[i].keys, cs[i].vals, cs[i + 1].keys, cs[i + 1].vals;
    var a, b := Leaf(nk + [rk[0]], nv + [rv[0]]), Leaf(rk[1..], rv[1..]);
    assert Rebalance(ks, cs, i) == Internal(ks[i := rk[1]], cs[i := a][i + 1 := b]);
    Neighbours(ks, cs, lo, hi, i);
    MoveFirstLeft(nk, nv, rk, rv, LoAt(lo, ks, i), ks[i], HiAt(hi, ks, i + 1));
    ReplacePairOrdered(ks, cs, lo, hi, i, a, rk[1], b);
    LeafRowWF(ks[i := rk[1]], cs[i := a][i + 1 := b], lo, hi);
    PairSameEntries(cs, i, a, b);
  }

  /** Merging neighbouring leaves `j`, `j+1` of a row into one: the common step of both merges. */
  lemma MergeStep<T>(ks: seq<int>, cs: seq<Node<T>>, lo: Option<int>, hi: Option<int>, j: nat)
    requires |cs| == |ks| + 1 && j + 1 < |cs| && LeafRow(cs) && |ks| <= MAX
    requires Ordered(Internal(ks, cs), lo, hi) && |cs[j].keys| + |cs[j + 1].keys| <= MAX
    ensures var c := Leaf(cs[j].keys + cs[j + 1].keys, cs[j].vals + cs[j + 1].vals);
      Repaired(Internal(RemoveAt(ks, j), RemoveAt(cs[j := c], j + 1)), cs, lo, hi)
  {
    var ak, av, bk, bv := cs[j].keys, cs[j].vals, cs[j + 1].keys, cs[j + 1].vals;
    var c := Leaf(ak + bk, av + bv);
    Neighbours(ks, cs, lo, hi, j);
    MergeLeaves(ak, av, bk, bv, LoAt(lo, ks, j), ks[j], HiAt(hi, ks, j + 1));
    MergeOrdered(ks, cs, lo, hi, j, c);
    LeafRowWF(RemoveAt(ks, j), RemoveAt(cs[j := c], j + 1), lo, hi);
    MergeSameEntries(cs, j, c);
  }

  lemma MergeLeftCase<T>(ks: seq<int>, cs: seq<Node<T>>, lo: Option<int>, hi: Option<int>, i: nat)
    requires Underflow(ks, cs, lo, hi, i) && 0 < i && |cs[i - 1].keys| <= MID
    requires !(i < |ks| && |cs[i + 1].keys| > MID)
    ensures Repaired(Rebalance(ks, cs, i), cs, lo, hi)
  {
    MergeStep(ks, cs, lo, hi, i - 1);
  }

  lemma MergeRightCase<T>(ks: seq<int>, cs: seq<Node<T>>, lo: Option<int>, hi: Option<int>, i: nat)
    requires Underflow(ks, cs, lo, hi, i) && i == 0 && i < |ks| && |cs[i + 1].keys| <= MID
    ensures Repaired(Rebalance(ks, cs, i), cs, lo, hi)
  {
    MergeStep(ks, cs, lo, hi, i);
  }

  /**
    The underflow repair of bptree_delete keeps a well-formed row of leaves well formed
    and keeps its entries: borrowing and merging only move entries between neighbours.
   */
  lemma RebalanceCorrect<T>(ks: seq<int>, cs: seq<Node<T>>, lo: Option<int>, hi: Option<int>, i: nat)
    requires Underflow(ks, cs, lo, hi, i)
    ensures Repaired(Rebalance(ks, cs, i), cs, lo, hi)
  {
    if 0 < i && |cs[i - 1].keys| > MID {
      BorrowLeftCase(ks, cs, lo, hi, i);
    } else if i < |ks| && |cs[i + 1].keys| > MID {
      BorrowRightCase(ks, cs, lo, hi, i);
    } else if 0 < i {
      MergeLeftCase(ks, cs, lo, hi, i);
    } else if i < |ks| {
      MergeRightCase(ks, cs, lo, hi, i);
    } else {
      LeafRowWF(ks, cs, lo, hi);
    }
  }

  // ---------------------------------------------------------------------------
  // The recursion

  /** The entries of the children a descent passes by do not hold `key`. */
  lemma DescentExcludes<T>(n: Node<T>, lo: Option<int>, hi: Option<int>, key: int)
    requires n.Internal? && Shaped(n) && Ordered(n, lo, hi)
    ensures ChildIndex(n.keys, key) < |n.children|
    ensures key !in KeysOf(EntriesSeq(n.children[..ChildIndex(n.keys, key)]))
    ensures key !in KeysOf(EntriesSeq(n.children[ChildIndex(n.keys, key) + 1..]))
  {
    ChildrenOrdered(n, lo, hi);
    RowSeparates(n.keys, n.children, lo, hi, key);
  }

  /** Removing an entry from an ordered leaf keeps it ordered within the same bounds. */
  lemma LeafRemoveOrdered<T>(ks: seq<int>, vs: seq<T>, lo: Option<int>, hi: Option<int>, j: nat)
    requires |ks| == |vs| && j < |ks| && Ordered(Leaf(ks, vs), lo, hi)
    ensures Ordered(Leaf(RemoveAt(ks, j), RemoveAt(vs, j)), lo, hi)
  {
    var ks' := RemoveAt(ks, j);
    forall x | 0 <= x < |ks'| ensures InRange(ks'[x], lo, hi) {
      if x < j {
        assert InRange(ks[x], lo, hi);
      } else {
        assert InRange(ks[x + 1], lo, hi);
      }
    }
    forall a, b | 0 <= a < b < |ks'| ensures ks'[a] < ks'[b] {
      if b < j {
      } else if a < j {
        assert ks[a] < ks[b + 1];
      } else {
        assert ks[a + 1] < ks[b + 1];
      }
    }
  }

  /**
    Deletion of a key found in the leaf child a descent picks: the entry goes, and an
    underflowing leaf is repaired through this node.
   */
  lemma DeleteFromLeafChild<T>(n: Node<T>, lo: Option<int>, hi: Option<int>, key: int)
    requires n.Internal? && WF(n, lo, hi) && ChildIndex(n.keys, key) < |n.children|
    requires n.children[ChildIndex(n.keys, key)].Leaf? && key in n.children[ChildIndex(n.keys, key)].keys
    ensures var i := ChildIndex(n.keys, key);
      && WF(DeleteBelow(n, key), lo, hi) && Height(DeleteBelow(n, key)) == Height(n)
      && Entries(DeleteBelow(n, key))
         == EntriesSeq(n.children[..i]) + RemoveKey(Entries(n.children[i]), key) + EntriesSeq(n.children[i + 1..])
  {
    var ks, cs := n.keys, n.children;
    var i := ChildIndex(ks, key);
    var lks, lvs := cs[i].keys, cs[i].vals;
    ChildOrdered(n, lo, hi, i);
    assert Bounded(cs[i]);
    var j := FirstIndex(lks, key);
    var c := Leaf(RemoveAt(lks, j), RemoveAt(lvs, j));
    var cs' := cs[i := c];
    LeafRemoveOrdered(lks, lvs, LoAt(lo, ks, i), HiAt(hi, ks, i), j);
    RemoveKeyZip(lks, lvs, key);
    ReplaceChildWF(ks, cs, lo, hi, i, c);
    ReplaceOneEntries(cs, i, c);
    if |lks| - 1 < MID {
      LeafUnderflowCase(n, lo, hi, i, c);
    }
  }

  /**
    A leaf child `i` that dropped below MID keys, replaced by `c` in a parent that stays
    well formed: the repair keeps the parent well formed at its height and its entries.
   */
  lemma LeafUnderflowCase<T>(n: Node<T>, lo: Option<int>, hi: Option<int>, i: nat, c: Node<T>)
    requires n.Internal? && WF(n, lo, hi) && i < |n.children| && n.children[i].Leaf?
    requires c.Leaf? && |c.keys| < MID && WF(Internal(n.keys, n.children[i := c]), lo, hi)
    ensures LeafRow(n.children[i := c])
    ensures var r := Rebalance(n.keys, n.children[i := c], i);
      WF(r, lo, hi) && Height(r) == Height(n) && Entries(r) == EntriesSeq(n.children[i := c])
  {
    var ks, cs, cs' := n.keys, n.children, n.children[i := c];
    LeafChildren(n);
    assert LeafRow(cs') by {
      forall x | 0 <= x < |cs'| ensures cs'[x].Leaf? && |cs'[x].keys| == |cs'[x].vals| <= MAX {
        assert Bounded(cs'[x]) && Shaped(cs'[x]);
      }
    }
    RebalanceCorrect(ks, cs', lo, hi, i);
    assert Height(n) == 1;
  }

  /**
    Deletion below a well-formed internal node keeps it well formed at the same height
    and removes exactly the first entry for `key` from its entries.
   */
  lemma {:induction false} DeleteBelowCorrect<T>(n: Node<T>, lo: Option<int>, hi: Option<int>, key: int)
    requires n.Internal? && WF(n, lo, hi)
    ensures WF(DeleteBelow(n, key), lo, hi) && Height(DeleteBelow(n, key)) == Height(n)
    ensures Entries(DeleteBelow(n, key)) == RemoveKey(Entries(n), key)
    decreases n
  {
    var ks, cs := n.keys, n.children;
    var i := ChildIndex(ks, key);
    DescentExcludes(n, lo, hi, key);
    ChildPartition(n, lo, hi, i);
    var p, e, s := EntriesSeq(cs[..i]), Entries(cs[i]), EntriesSeq(cs[i + 1..]);
    RemoveKeyMiddle(p, e, s, key);
    match cs[i]
    case Internal(_, _) =>
      ChildOrdered(n, lo, hi, i);
      assert Bounded(cs[i]);
      DeleteBelowCorrect(cs[i], LoAt(lo, ks, i), HiAt(hi, ks, i), key);
      var c := DeleteBelow(cs[i], key);
      ReplaceChildWF(ks, cs, lo, hi, i, c);
      ReplaceOneEntries(cs, i, c);
    case Leaf(lks, lvs) =>
      if key in lks {
        DeleteFromLeafChild(n, lo, hi, key);
      } else {
        assert Shaped(cs[i]);
        KeysOfZip(lks, lvs);
        RemoveKeyAbsent(e, key);
      }
  }

  // ---------------------------------------------------------------------------
  // The whole tree

  /**
    bptree_delete keeps the tree valid and removes exactly the first entry for `key`
    from its contents; an emptied root leaf empties the tree, and a root left without
    separators gives way to its only child.
   */
  lemma DeleteCorrect<T>(t: Tree<T>, key: int)
    requires Valid(t)
    ensures Valid(Delete(t, key))
    ensures Contents(Delete(t, key)) == RemoveKey(Contents(t), key)
  {
    match t
    case None =>
    case Some(Leaf(ks, vs)) =>
      KeysOfZip(ks, vs);
      if key !in ks {
        RemoveKeyAbsent(Zip(ks, vs), key);
      } else if |ks| == 1 {
        assert Zip(ks, vs)[0].0 == key;
      } else {
        RemoveKeyZip(ks, vs, key);
        LeafRemoveOrdered(ks, vs, None, None, FirstIndex(ks, key));
      }
    case Some(Internal(ks, _)) =>
      var n' := DeleteBelow(t.value, key);
      DeleteBelowCorrect(t.value, None, None, key);
      if 0 < |ks| && |n'.keys| == 0 {
        var c := n'.children[0];
        assert n'.children == [c];
        assert Ordered(c, LoAt(None, n'.keys, 0), HiAt(None, n'.keys, 0));
        EntriesSeqSingle(c);
      }
  }

  /** Deleting below a well-formed node a key its entries do not hold changes nothing. */
  lemma {:induction false} DeleteBelowAbsent<T>(n: Node<T>, lo: Option<int>, hi: Option<int>, key: int)
    requires n.Internal? && WF(n, lo, hi) && key !in KeysOf(Entries(n))
    ensures DeleteBelow(n, key) == n
    decreases n
  {
    var ks, cs := n.keys, n.children;
    var i := ChildIndex(ks, key);
    ChildPartition(n, lo, hi, i);
    NotInMiddle(EntriesSeq(cs[..i]), Entries(cs[i]), EntriesSeq(cs[i + 1..]), key);
    match cs[i]
    case Internal(_, _) =>
      ChildOrdered(n, lo, hi, i);
      assert Bounded(cs[i]);
      DeleteBelowAbsent(cs[i], LoAt(lo, ks, i), HiAt(hi, ks, i), key);
      assert cs[i := cs[i]] == cs;
    case Leaf(lks, lvs) =>
      assert Shaped(cs[i]);
      KeysOfZip(lks, lvs);
  }

  /** Deleting a key the tree does not hold, or deleting from an empty tree, leaves it unchanged. */
  lemma DeleteAbsent<T>(t: Tree<T>, key: int)
    requires Valid(t) && key !in KeysOf(Contents(t))
    ensures Delete(t, key) == t
  {
    match t
    case None =>
    case Some(Leaf(ks, vs)) =>
      KeysOfZip(ks, vs);
    case Some(Internal(_, _)) =>
      DeleteBelowAbsent(t.value, None, None, key);
  }

  /** On entries with distinct keys, the removed key is no longer found and every other key is. */
  lemma {:induction false} LookupRemoveKey<T>(es: seq<Entry<T>>, key: int, k: int)
    requires StrictlySorted(KeysOf(es))
    ensures Lookup(RemoveKey(es, key), k) == if k == key then None else Lookup(es, k)
    decreases |es|
  {
    if es != [] {
      var rest := es[1..];
      assert KeysOf(es) == [es[0].0] + KeysOf(rest);
      assert StrictlySorted(KeysOf(rest));
      if es[0].0 == key {
        if k == key {
          assert key !in KeysOf(rest);
          LookupAbsent(rest, key);
        }
      } else {
        LookupRemoveKey(rest, key, k);
        LookupCons(es[0], RemoveKey(rest, key), k);
      }
    }
  }

  /** After deleting `key`, searching for it finds nothing and every other key is found as before. */
  lemma DeleteThenLookup<T>(t: Tree<T>, key: int, k: int)
    requires Valid(t)
    ensures Lookup(Contents(Delete(t, key)), k) == if k == key then None else Lookup(Contents(t), k)
  {
    DeleteCorrect(t, key);
    ContentsSorted(t);
    LookupRemoveKey(Contents(t), key, k);
  }
}
