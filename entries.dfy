/**
  Facts about the entry abstraction: how Entries distributes over runs of children,
  how Lookup, InsertEntry and RemoveKey act on concatenations, and why the entries
  of an ordered subtree are strictly ascending and lie within the subtree's bounds.
 */
module EntriesFacts {
  import opened Wrappers
  import opened KeySeq
  import opened BPTree

  /** Every key of `es` lies in [lo, hi). */
  ghost predicate AllInRange<T>(es: seq<Entry<T>>, lo: Option<int>, hi: Option<int>) {
    forall i :: 0 <= i < |es| ==> InRange(es[i].0, lo, hi)
  }

  ghost predicate AllBelow<T>(es: seq<Entry<T>>, key: int) {
    forall i :: 0 <= i < |es| ==> es[i].0 < key
  }

  ghost predicate AllAbove<T>(es: seq<Entry<T>>, key: int) {
    forall i :: 0 <= i < |es| ==> key < es[i].0
  }

  /** Entries strictly ascending in key, every key in [lo, hi). */
  ghost predicate OrderedRun<T>(es: seq<Entry<T>>, lo: Option<int>, hi: Option<int>) {
    AllInRange(es, lo, hi) && StrictlySorted(KeysOf(es))
  }

  /**
    A row of children under separators `ks` within [lo, hi): the separators strictly
    ascend and lie within the bounds, and each child's entries are an ordered run between the
    separators around it.
   */
  ghost predicate RowOrdered<T>(ks: seq<int>, cs: seq<Node<T>>, lo: Option<int>, hi: Option<int>) {
    && |cs| == |ks| + 1 && StrictlySorted(ks)
    && (forall i :: 0 <= i < |ks| ==> InRange(ks[i], lo, hi))
    && (forall j :: 0 <= j < |cs| ==> OrderedRun(Entries(cs[j]), LoAt(lo, ks, j), HiAt(hi, ks, j)))
  }

  // ---------------------------------------------------------------------------
  // Concatenation

  lemma {:induction false} EntriesSeqAppend<T>(a: seq<Node<T>>, b: seq<Node<T>>)
    ensures EntriesSeq(a + b) == EntriesSeq(a) + EntriesSeq(b)
    decreases |b|
  {
    if b == [] {
      assert a + b == a;
    } else {
      var b' := b[..|b| - 1];
      assert (a + b)[..|a + b| - 1] == a + b';
      EntriesSeqAppend(a, b');
      assert EntriesSeq(b) == EntriesSeq(b') + Entries(b[|b| - 1]);
    }
  }

  lemma EntriesSeqSingle<T>(x: Node<T>)
    ensures EntriesSeq([x]) == Entries(x)
  {
    assert [x][..0] == [];
  }

  /** The entries of a run of children are those of its two parts. */
  lemma SplitEntries<T>(cs: seq<Node<T>>, k: nat)
    requires k <= |cs|
    ensures EntriesSeq(cs[..k]) + EntriesSeq(cs[k..]) == EntriesSeq(cs)
  {
    EntriesSeqAppend(cs[..k], cs[k..]);
    assert cs[..k] + cs[k..] == cs;
  }

  lemma EntriesSeqAppend3<T>(p: seq<Node<T>>, x: seq<Node<T>>, s: seq<Node<T>>)
    ensures EntriesSeq(p + x + s) == EntriesSeq(p) + EntriesSeq(x) + EntriesSeq(s)
  {
    EntriesSeqAppend(p + x, s);
    EntriesSeqAppend(p, x);
  }

  /** The entries of a subtree with children split around child `i`. */
  lemma EntriesAround<T>(cs: seq<Node<T>>, i: nat)
    requires i < |cs|
    ensures EntriesSeq(cs) == EntriesSeq(cs[..i]) + Entries(cs[i]) + EntriesSeq(cs[i + 1..])
  {
    EntriesSeqAppend3(cs[..i], [cs[i]], cs[i + 1..]);
    SplitAt(cs, i);
    EntriesSeqSingle(cs[i]);
  }

  lemma KeysOfAppend<T>(a: seq<Entry<T>>, b: seq<Entry<T>>)
    ensures KeysOf(a + b) == KeysOf(a) + KeysOf(b)
  {
  }

  lemma KeysOfZip<T>(ks: seq<int>, vs: seq<T>)
    requires |ks| == |vs|
    ensures KeysOf(Zip(ks, vs)) == ks
  {
  }

  // ---------------------------------------------------------------------------
  // Lookup, InsertEntry and RemoveKey on concatenations

  /** The keys of a non-empty run: the first key, then the keys of the rest. */
  lemma KeysOfCons<T>(es: seq<Entry<T>>)
    requires es != []
    ensures KeysOf(es) == [es[0].0] + KeysOf(es[1..])
  {
  }

  lemma {:induction false} LookupAppend<T>(a: seq<Entry<T>>, b: seq<Entry<T>>, key: int)
    ensures key !in KeysOf(a) ==> Lookup(a + b, key) == Lookup(b, key)
    ensures key in KeysOf(a) ==> Lookup(a + b, key) == Lookup(a, key)
    decreases |a|
  {
    if a != [] {
      TailAppend(a, b);
      KeysOfCons(a);
      LookupAppend(a[1..], b, key);
    } else {
      assert a + b == b;
    }
  }

  /** A key absent from the entries is looked up in vain. */
  lemma {:induction false} LookupAbsent<T>(es: seq<Entry<T>>, key: int)
    requires key !in KeysOf(es)
    ensures Lookup(es, key) == None
    decreases |es|
  {
    if es != [] {
      KeysOfCons(es);
      LookupAbsent(es[1..], key);
    }
  }

  /** In a leaf, the first index of a key gives its payload. */
  lemma {:induction false} LookupZip<T>(ks: seq<int>, vs: seq<T>, key: int)
    requires |ks| == |vs|
    ensures key !in ks ==> Lookup(Zip(ks, vs), key) == None
    ensures key in ks ==> Lookup(Zip(ks, vs), key) == Some(vs[FirstIndex(ks, key)])
    decreases |ks|
  {
    if ks != [] {
      assert Zip(ks, vs)[1..] == Zip(ks[1..], vs[1..]);
      LookupZip(ks[1..], vs[1..], key);
      if key in ks && ks[0] != key {
        assert key in ks[1..];
      }
    }
  }

  lemma {:induction false} RemoveKeyAbsent<T>(es: seq<Entry<T>>, key: int)
    requires key !in KeysOf(es)
    ensures RemoveKey(es, key) == es
    decreases |es|
  {
    if es != [] {
      KeysOfCons(es);
      RemoveKeyAbsent(es[1..], key);
    }
  }

  lemma {:induction false} RemoveKeyAfter<T>(a: seq<Entry<T>>, b: seq<Entry<T>>, key: int)
    requires key !in KeysOf(a)
    ensures RemoveKey(a + b, key) == a + RemoveKey(b, key)
    decreases |a|
  {
    if a == [] {
      assert a + b == b;
    } else {
      TailAppend(a, b);
      KeysOfCons(a);
      RemoveKeyAfter(a[1..], b, key);
      assert RemoveKey(a + b, key) == [a[0]] + RemoveKey(a[1..] + b, key);
      ConsTail(a, RemoveKey(b, key));
    }
  }

  lemma {:induction false} RemoveKeyWithin<T>(a: seq<Entry<T>>, b: seq<Entry<T>>, key: int)
    requires key in KeysOf(a)
    ensures RemoveKey(a + b, key) == RemoveKey(a, key) + b
    decreases |a|
  {
    TailAppend(a, b);
    if a[0].0 != key {
      KeysOfCons(a);
      RemoveKeyWithin(a[1..], b, key);
      assert RemoveKey(a + b, key) == [a[0]] + (RemoveKey(a[1..], key) + b);
      assert [a[0]] + (RemoveKey(a[1..], key) + b) == ([a[0]] + RemoveKey(a[1..], key)) + b;
    }
  }

  /** Removing a key absent from both outer parts removes it from the middle part. */
  lemma RemoveKeyMiddle<T>(p: seq<Entry<T>>, m: seq<Entry<T>>, s: seq<Entry<T>>, key: int)
    requires key !in KeysOf(p) && key !in KeysOf(s)
    ensures RemoveKey(p + m + s, key) == p + RemoveKey(m, key) + s
  {
    RemoveKeyAfter(p, m + s, key);
    assert p + m + s == p + (m + s);
    if key in KeysOf(m) {
      RemoveKeyWithin(m, s, key);
    } else {
      RemoveKeyAfter(m, s, key);
      RemoveKeyAbsent(s, key);
      RemoveKeyAbsent(m, key);
    }
  }

  /** Removing from a leaf the entry at the first index of `key`. */
  lemma ZipTail<T>(ks: seq<int>, vs: seq<T>)
    requires |ks| == |vs| && ks != []
    ensures Zip(ks, vs)[0] == (ks[0], vs[0]) && Zip(ks, vs)[1..] == Zip(ks[1..], vs[1..])
  {
  }

  lemma ZipCons<T>(k: int, v: T, ks: seq<int>, vs: seq<T>)
    requires |ks| == |vs|
    ensures Zip([k] + ks, [v] + vs) == [(k, v)] + Zip(ks, vs)
  {
  }

  /** Pairing up two runs is pairing up their concatenation. */
  lemma ZipAppend<T>(ak: seq<int>, av: seq<T>, bk: seq<int>, bv: seq<T>)
    requires |ak| == |av| && |bk| == |bv|
    ensures Zip(ak, av) + Zip(bk, bv) == Zip(ak + bk, av + bv)
  {
  }

  /** Two ways of cutting the same keys and payloads in two give the same pairs. */
  lemma ZipRegroup<T>(ak: seq<int>, av: seq<T>, bk: seq<int>, bv: seq<T>, ck: seq<int>, cv: seq<T>, dk: seq<int>, dv: seq<T>)
    requires |ak| == |av| && |bk| == |bv| && |ck| == |cv| && |dk| == |dv|
    requires ak + bk == ck + dk && av + bv == cv + dv
    ensures Zip(ak, av) + Zip(bk, bv) == Zip(ck, cv) + Zip(dk, dv)
  {
    ZipAppend(ak, av, bk, bv);
    ZipAppend(ck, cv, dk, dv);
  }

  /** One step of RemoveKeyZip: a first key other than `key` stays in front. */
  lemma RemoveKeyZipCons<T>(ks: seq<int>, vs: seq<T>, key: int, i: nat)
    requires |ks| == |vs| && i + 1 < |ks| && ks[0] != key
    requires RemoveKey(Zip(ks[1..], vs[1..]), key) == Zip(RemoveAt(ks[1..], i), RemoveAt(vs[1..], i))
    ensures RemoveKey(Zip(ks, vs), key) == Zip(RemoveAt(ks, i + 1), RemoveAt(vs, i + 1))
  {
    ZipTail(ks, vs);
    RemoveAtCons(ks, i);
    RemoveAtCons(vs, i);
    ZipCons(ks[0], vs[0], RemoveAt(ks[1..], i), RemoveAt(vs[1..], i));
  }

  lemma {:induction false} RemoveKeyZip<T>(ks: seq<int>, vs: seq<T>, key: int)
    requires |ks| == |vs| && key in ks
    ensures RemoveKey(Zip(ks, vs), key) == Zip(RemoveAt(ks, FirstIndex(ks, key)), RemoveAt(vs, FirstIndex(ks, key)))
    decreases |ks|
  {
    if ks[0] != key {
      assert key in ks[1..];
      RemoveKeyZip(ks[1..], vs[1..], key);
      var i := FirstIndex(ks[1..], key);
      RemoveKeyZipCons(ks, vs, key, i);
    } else {
      ZipTail(ks, vs);
      assert RemoveAt(ks, 0) == ks[1..] && RemoveAt(vs, 0) == vs[1..];
    }
  }

  /** Inserting into a leaf at the position InsertPos picks is InsertEntry on its entries. */
  lemma InsertEntryZip<T>(ks: seq<int>, vs: seq<T>, key: int, data: T)
    requires |ks| == |vs|
    ensures Zip(InsertAt(ks, InsertPos(ks, key), key), InsertAt(vs, InsertPos(ks, key), data))
         == InsertEntry(Zip(ks, vs), key, data)
  {
    KeysOfZip(ks, vs);
  }

  /**
    When every key before the middle part is not greater than `key` and every key after
    it is greater, insertion happens inside the middle part.
   */
  lemma InsertEntryAround<T>(a: seq<Entry<T>>, e: seq<Entry<T>>, b: seq<Entry<T>>, key: int, data: T)
    requires forall i :: 0 <= i < |a| ==> a[i].0 <= key
    requires AllAbove(b, key)
    ensures InsertEntry(a + e + b, key, data) == a + InsertEntry(e, key, data) + b
  {
    var ke := KeysOf(e);
    var p := InsertPos(ke, key);
    var all := KeysOf(a + e + b);
    InsertPosUnique(all, key, |a| + p);
    var lhs := InsertEntry(a + e + b, key, data);
    var rhs := a + InsertEntry(e, key, data) + b;
    assert |lhs| == |rhs|;
    forall j | 0 <= j < |lhs| ensures lhs[j] == rhs[j] {
      if j < |a| + p {
      } else if j == |a| + p {
      } else if j <= |a| + |e| {
      } else {
      }
    }
  }

  // ---------------------------------------------------------------------------
  // Order of the entries

  /**
    The entries of an ordered subtree are strictly ascending and lie within its
    bounds.
   */
  lemma {:induction false} EntriesOrdered<T>(n: Node<T>, lo: Option<int>, hi: Option<int>)
    requires Shaped(n) && Ordered(n, lo, hi)
    ensures AllInRange(Entries(n), lo, hi) && StrictlySorted(KeysOf(Entries(n)))
    decreases n
  {
    match n
    case Leaf(ks, vs) =>
      KeysOfZip(ks, vs);
    case Internal(ks, cs) =>
      ChildrenOrdered(n, lo, hi);
      RunOrdered(ks, cs, lo, hi, 0, |cs|);
      assert cs[0..|cs|] == cs;
  }

  /** The entries of each child of a shaped, ordered node are an ordered run within its separators. */
  lemma {:induction false} ChildrenOrdered<T>(n: Node<T>, lo: Option<int>, hi: Option<int>)
    requires n.Internal? && Shaped(n) && Ordered(n, lo, hi)
    ensures RowOrdered(n.keys, n.children, lo, hi)
    decreases n, 0
  {
    var ks, cs := n.keys, n.children;
    forall j | 0 <= j < |cs|
      ensures OrderedRun(Entries(cs[j]), LoAt(lo, ks, j), HiAt(hi, ks, j))
    {
      ChildOrdered(n, lo, hi, j);
      EntriesOrdered(cs[j], LoAt(lo, ks, j), HiAt(hi, ks, j));
    }
  }

  /** The contents of a valid tree are strictly ascending in key. */
  lemma ContentsSorted<T>(t: Tree<T>)
    requires Valid(t)
    ensures StrictlySorted(KeysOf(Contents(t)))
  {
    if t.Some? {
      EntriesOrdered(t.value, None, None);
    }
  }

  /** Two ascending runs separated by `mid` join into one ascending run. */
  lemma JoinRuns<T>(front: seq<Entry<T>>, back: seq<Entry<T>>, lo: Option<int>, mid: int, hi: Option<int>)
    requires OrderedRun(front, lo, Some(mid)) && OrderedRun(back, Some(mid), hi)
    requires InRange(mid, lo, hi)
    ensures OrderedRun(front + back, lo, hi)
  {
    KeysOfAppend(front, back);
    var all := front + back;
    forall i | 0 <= i < |all| ensures InRange(all[i].0, lo, hi) {
      if i < |front| {
        assert InRange(front[i].0, lo, Some(mid));
      } else {
        assert InRange(back[i - |front|].0, Some(mid), hi);
      }
    }
    forall i, j | 0 <= i < j < |all| ensures KeysOf(all)[i] < KeysOf(all)[j] {
      if j < |front| {
        assert KeysOf(front)[i] < KeysOf(front)[j];
      } else if |front| <= i {
        assert KeysOf(back)[i - |front|] < KeysOf(back)[j - |front|];
      } else {
        assert InRange(front[i].0, lo, Some(mid));
        assert InRange(back[j - |front|].0, Some(mid), hi);
      }
    }
  }

  /** A child of a shaped, ordered node is shaped and ordered within its separators. */
  lemma ChildOrdered<T>(n: Node<T>, lo: Option<int>, hi: Option<int>, j: nat)
    requires n.Internal? && Shaped(n) && Ordered(n, lo, hi) && j < |n.children|
    ensures j <= |n.keys|
    ensures Shaped(n.children[j]) && Ordered(n.children[j], LoAt(lo, n.keys, j), HiAt(hi, n.keys, j))
  {
  }

  /** The entries of a run of children are those of the run one shorter, then the last child's. */
  lemma RunSnoc<T>(cs: seq<Node<T>>, a: nat, b: nat)
    requires a < b <= |cs|
    ensures EntriesSeq(cs[a..b]) == EntriesSeq(cs[a..b - 1]) + Entries(cs[b - 1])
  {
    var run := cs[a..b];
    assert run[..|run| - 1] == cs[a..b - 1];
  }

  /** The entries of a prefix of children one longer. */
  lemma PrefixSnoc<T>(cs: seq<Node<T>>, k: nat)
    requires k < |cs|
    ensures EntriesSeq(cs[..k + 1]) == EntriesSeq(cs[..k]) + Entries(cs[k])
  {
    assert cs[..k + 1][..k] == cs[..k];
  }

  /** A separator lies between the bounds of any run of children it separates. */
  lemma SepBetween<T>(n: Node<T>, lo: Option<int>, hi: Option<int>, a: nat, j: nat, b: nat)
    requires n.Internal? && Ordered(n, lo, hi) && a <= j < b <= |n.keys|
    ensures InRange(n.keys[j], LoAt(lo, n.keys, a), HiAt(hi, n.keys, b))
  {
    assert InRange(n.keys[j], lo, hi);
    if a > 0 {
      assert n.keys[a - 1] <= n.keys[j];
    }
    if b < |n.keys| {
      assert n.keys[j] < n.keys[b];
    }
  }

  /** A separator lies between the bounds of any run of children it separates. */
  lemma KeysBetween(ks: seq<int>, lo: Option<int>, hi: Option<int>, a: nat, j: nat, b: nat)
    requires StrictlySorted(ks) && (forall i :: 0 <= i < |ks| ==> InRange(ks[i], lo, hi))
    requires a <= j < b <= |ks|
    ensures InRange(ks[j], LoAt(lo, ks, a), HiAt(hi, ks, b))
  {
    assert InRange(ks[j], lo, hi);
    if a > 0 {
      assert ks[a - 1] <= ks[j];
    }
    if b < |ks| {
      assert ks[j] < ks[b];
    }
  }

  /**
    The entries of children a to b-1 of an ordered row are strictly ascending and lie
    between the separator left of child a and the separator right of child b-1.
   */
  lemma {:induction false} RunOrdered<T>(ks: seq<int>, cs: seq<Node<T>>, lo: Option<int>, hi: Option<int>, a: nat, b: nat)
    requires RowOrdered(ks, cs, lo, hi) && a < b <= |cs|
    ensures OrderedRun(EntriesSeq(cs[a..b]), LoAt(lo, ks, a), HiAt(hi, ks, b - 1))
    decreases b - a
  {
    var last := cs[b - 1];
    if b - a == 1 {
      assert OrderedRun(Entries(last), LoAt(lo, ks, b - 1), HiAt(hi, ks, b - 1));
      RunSnoc(cs, a, b);
      assert cs[a..b - 1] == [];
    } else {
      RunOrdered(ks, cs, lo, hi, a, b - 1);
      RunStep(ks, cs, lo, hi, a, b);
    }
  }

  /** One step of RunOrdered: an ordered run of children extended by the next child. */
  lemma RunStep<T>(ks: seq<int>, cs: seq<Node<T>>, lo: Option<int>, hi: Option<int>, a: nat, b: nat)
    requires RowOrdered(ks, cs, lo, hi) && a + 1 < b <= |cs|
    requires OrderedRun(EntriesSeq(cs[a..b - 1]), LoAt(lo, ks, a), HiAt(hi, ks, b - 2))
    ensures OrderedRun(EntriesSeq(cs[a..b]), LoAt(lo, ks, a), HiAt(hi, ks, b - 1))
  {
    var front, back := EntriesSeq(cs[a..b - 1]), Entries(cs[b - 1]);
    assert OrderedRun(back, LoAt(lo, ks, b - 1), HiAt(hi, ks, b - 1));
    RunSnoc(cs, a, b);
    KeysBetween(ks, lo, hi, a, b - 2, b - 1);
    assert HiAt(hi, ks, b - 2) == Some(ks[b - 2]) == LoAt(lo, ks, b - 1);
    JoinRuns(front, back, LoAt(lo, ks, a), ks[b - 2], HiAt(hi, ks, b - 1));
  }

  /**
    The entries of an ordered internal node, split around child `i`: those of the
    children to its left lie below the separator left of `i`, those of the children to
    its right at or above the separator right of `i`.
   */
  lemma ChildPartition<T>(n: Node<T>, lo: Option<int>, hi: Option<int>, i: nat)
    requires n.Internal? && Shaped(n) && Ordered(n, lo, hi) && i < |n.children|
    ensures i <= |n.keys|
    ensures Entries(n) == EntriesSeq(n.children[..i]) + Entries(n.children[i]) + EntriesSeq(n.children[i + 1..])
    ensures AllInRange(EntriesSeq(n.children[..i]), lo, LoAt(lo, n.keys, i))
    ensures AllInRange(EntriesSeq(n.children[i + 1..]), HiAt(hi, n.keys, i), hi)
  {
    EntriesAround(n.children, i);
    ChildrenOrdered(n, lo, hi);
    RowPartition(n.keys, n.children, lo, hi, i);
  }

  /** The runs of an ordered row to the left and to the right of child `i`. */
  lemma RowPartition<T>(ks: seq<int>, cs: seq<Node<T>>, lo: Option<int>, hi: Option<int>, i: nat)
    requires RowOrdered(ks, cs, lo, hi) && i < |cs|
    ensures AllInRange(EntriesSeq(cs[..i]), lo, LoAt(lo, ks, i))
    ensures AllInRange(EntriesSeq(cs[i + 1..]), HiAt(hi, ks, i), hi)
  {
    if 0 < i {
      RunOrdered(ks, cs, lo, hi, 0, i);
      assert cs[0..i] == cs[..i];
    } else {
      assert cs[..i] == [];
    }
    if i + 1 < |cs| {
      RunOrdered(ks, cs, lo, hi, i + 1, |cs|);
      assert cs[i + 1..|cs|] == cs[i + 1..];
    } else {
      assert cs[i + 1..] == [];
    }
  }

  /**
    Around the child a descent picks in an ordered row: the runs to its left hold keys
    below `key`, the runs to its right keys above it, so neither holds `key`.
   */
  lemma RowSeparates<T>(ks: seq<int>, cs: seq<Node<T>>, lo: Option<int>, hi: Option<int>, key: int)
    requires RowOrdered(ks, cs, lo, hi)
    ensures ChildIndex(ks, key) < |cs|
    ensures AllBelow(EntriesSeq(cs[..ChildIndex(ks, key)]), key)
    ensures AllAbove(EntriesSeq(cs[ChildIndex(ks, key) + 1..]), key)
    ensures key !in KeysOf(EntriesSeq(cs[..ChildIndex(ks, key)]))
    ensures key !in KeysOf(EntriesSeq(cs[ChildIndex(ks, key) + 1..]))
  {
    var i := ChildIndex(ks, key);
    RowPartition(ks, cs, lo, hi, i);
    var p, s := EntriesSeq(cs[..i]), EntriesSeq(cs[i + 1..]);
    forall j | 0 <= j < |p| ensures p[j].0 < key {
      assert InRange(p[j].0, lo, LoAt(lo, ks, i));
    }
    forall j | 0 <= j < |s| ensures key < s[j].0 {
      assert InRange(s[j].0, HiAt(hi, ks, i), hi);
    }
  }

  /** Looking up a key absent from the tail of the entries ignores the tail. */
  lemma LookupBefore<T>(a: seq<Entry<T>>, b: seq<Entry<T>>, key: int)
    requires key !in KeysOf(b)
    ensures Lookup(a + b, key) == Lookup(a, key)
  {
    LookupAppend(a, b, key);
    if key !in KeysOf(a) {
      LookupAbsent(b, key);
      LookupAbsent(a, key);
    }
  }

  /** A key absent from both outer parts is looked up in the middle part. */
  lemma LookupMiddle<T>(p: seq<Entry<T>>, m: seq<Entry<T>>, s: seq<Entry<T>>, key: int)
    requires key !in KeysOf(p) && key !in KeysOf(s)
    ensures Lookup(p + m + s, key) == Lookup(m, key)
  {
    LookupAppend(p, m + s, key);
    assert p + m + s == p + (m + s);
    LookupBefore(m, s, key);
  }

  /**
    The descent of bptree_search is sound: the entry for `key`, if any, lies in the
    child whose index is the number of separators not greater than `key`.
   */
  lemma DescentFinds<T>(n: Node<T>, lo: Option<int>, hi: Option<int>, key: int)
    requires n.Internal? && Shaped(n) && Ordered(n, lo, hi)
    ensures ChildIndex(n.keys, key) < |n.children|
    ensures Lookup(Entries(n), key) == Lookup(Entries(n.children[ChildIndex(n.keys, key)]), key)
  {
    var ks, cs := n.keys, n.children;
    var i := ChildIndex(ks, key);
    EntriesAround(cs, i);
    ChildrenOrdered(n, lo, hi);
    RowSeparates(ks, cs, lo, hi, key);
    LookupMiddle(EntriesSeq(cs[..i]), Entries(cs[i]), EntriesSeq(cs[i + 1..]), key);
  }

  // ---------------------------------------------------------------------------
  // Entries after replacing children

  lemma EntriesPair<T>(l: Node<T>, r: Node<T>)
    ensures EntriesSeq([l, r]) == Entries(l) + Entries(r)
  {
    assert [l, r][..1] == [l];
    EntriesSeqSingle(l);
  }

  /** Replacing child `i` replaces its entries and nothing else. */
  lemma ReplaceOneEntries<T>(cs: seq<Node<T>>, i: nat, c: Node<T>)
    requires i < |cs|
    ensures EntriesSeq(cs[i := c]) == EntriesSeq(cs[..i]) + Entries(c) + EntriesSeq(cs[i + 1..])
  {
    var cs' := cs[i := c];
    EntriesAround(cs', i);
    assert cs'[..i] == cs[..i];
    assert cs'[i + 1..] == cs[i + 1..];
  }

  /** Replacing child `i` by two children `l`, `r` replaces its entries by theirs. */
  lemma ReplaceTwoEntries<T>(cs: seq<Node<T>>, i: nat, l: Node<T>, r: Node<T>)
    requires i < |cs|
    ensures EntriesSeq(InsertAt(cs[i := l], i + 1, r)) == EntriesSeq(cs[..i]) + (Entries(l) + Entries(r)) + EntriesSeq(cs[i + 1..])
  {
    InsertTwo(cs, i, l, r);
    EntriesSeqAppend3(cs[..i], [l, r], cs[i + 1..]);
    EntriesPair(l, r);
  }

  /** Merging children `i` and `i+1` into `c` replaces their entries by its. */
  lemma MergeEntries<T>(cs: seq<Node<T>>, i: nat, c: Node<T>)
    requires i + 1 < |cs|
    ensures EntriesSeq(RemoveAt(cs[i := c], i + 1)) == EntriesSeq(cs[..i]) + Entries(c) + EntriesSeq(cs[i + 2..])
  {
    RemoveNext(cs, i, c);
    EntriesSeqAppend3(cs[..i], [c], cs[i + 2..]);
    EntriesSeqSingle(c);
  }

  /** Replacing neighbouring children `j` and `j+1` replaces their entries and nothing else. */
  lemma ReplacePairEntries<T>(cs: seq<Node<T>>, j: nat, a: Node<T>, b: Node<T>)
    requires j + 1 < |cs|
    ensures EntriesSeq(cs[j := a][j + 1 := b]) == EntriesSeq(cs[..j]) + (Entries(a) + Entries(b)) + EntriesSeq(cs[j + 2..])
  {
    ReplacePair(cs, j, a, b);
    EntriesSeqAppend3(cs[..j], [a, b], cs[j + 2..]);
    EntriesPair(a, b);
  }

  /** Replacing neighbouring children by two with the same entries between them keeps the entries. */
  lemma PairSameEntries<T>(cs: seq<Node<T>>, j: nat, a: Node<T>, b: Node<T>)
    requires j + 1 < |cs| && Entries(a) + Entries(b) == Entries(cs[j]) + Entries(cs[j + 1])
    ensures EntriesSeq(cs[j := a][j + 1 := b]) == EntriesSeq(cs)
  {
    ReplacePairEntries(cs, j, a, b);
    ReplacePairEntries(cs, j, cs[j], cs[j + 1]);
    assert cs[j := cs[j]][j + 1 := cs[j + 1]] == cs;
  }

  /** Merging neighbouring children into one holding both their entries keeps the entries. */
  lemma MergeSameEntries<T>(cs: seq<Node<T>>, j: nat, c: Node<T>)
    requires j + 1 < |cs| && Entries(c) == Entries(cs[j]) + Entries(cs[j + 1])
    ensures EntriesSeq(RemoveAt(cs[j := c], j + 1)) == EntriesSeq(cs)
  {
    MergeEntries(cs, j, c);
    ReplacePairEntries(cs, j, cs[j], cs[j + 1]);
    assert cs[j := cs[j]][j + 1 := cs[j + 1]] == cs;
  }
}
