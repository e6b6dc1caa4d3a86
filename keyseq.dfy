/**
  The order of the tree and the sequence operations that every node operation is
  built from: the key sequence of a node is `keys[..num_keys]`, and inserting or
  removing in place is the shift of a slice by one position.
 */
module KeySeq {

  /** Order of the tree: a node holds at most MAX keys once an operation is over. */
  const MAX: nat := 4

  /** Split point of an overflowing node, and the underflow threshold of a leaf. */
  const MID: nat := (MAX + 1) / 2

  /** Depth of the parent stack that insertion records on its way down. */
  const STACK_DEPTH: nat := 10

  /** `x` inserted into `s` so that it ends up at index `i`. */
  function InsertAt<X>(s: seq<X>, i: nat, x: X): (r: seq<X>)
    requires i <= |s|
    ensures |r| == |s| + 1 && r[i] == x
    ensures forall j :: 0 <= j < i ==> r[j] == s[j]
    ensures forall j :: i < j < |r| ==> r[j] == s[j - 1]
  {
    s[..i] + [x] + s[i..]
  }

  /** `s` with the element at index `i` taken out. */
  function RemoveAt<X>(s: seq<X>, i: nat): (r: seq<X>)
    requires i < |s|
    ensures |r| == |s| - 1
    ensures forall j :: 0 <= j < i ==> r[j] == s[j]
    ensures forall j :: i <= j < |r| ==> r[j] == s[j + 1]
  {
    s[..i] + s[i + 1..]
  }

  /** A sequence is the part before index i, the element at i, and the part after it. */
  lemma SplitAt<X>(s: seq<X>, i: nat)
    requires i < |s|
    ensures s[..i] + [s[i]] + s[i + 1..] == s
  {
  }

  /** Dropping the last element of `a + b`, for a non-empty `b`, drops it from `b`. */
  lemma DropLast<X>(a: seq<X>, b: seq<X>)
    requires b != []
    ensures (a + b)[..|a + b| - 1] == a + b[..|b| - 1]
    ensures b == b[..|b| - 1] + [b[|b| - 1]]
  {
  }

  /** Overwriting element `i` leaves the parts before and after it as they were. */
  lemma UpdateKeepsRest<X>(s: seq<X>, i: nat, x: X)
    requires i < |s|
    ensures s[i := x][..i] == s[..i] && s[i := x][i] == x && s[i := x][i + 1..] == s[i + 1..]
  {
  }

  /** The head and tail of a concatenation whose first part is not empty. */
  lemma TailAppend<X>(a: seq<X>, b: seq<X>)
    requires a != []
    ensures (a + b)[0] == a[0] && (a + b)[1..] == a[1..] + b
  {
  }

  /** Putting the head back in front of the tail, followed by more. */
  lemma ConsTail<X>(a: seq<X>, r: seq<X>)
    requires a != []
    ensures [a[0]] + (a[1..] + r) == a + r
  {
    assert [a[0]] + a[1..] == a;
  }

  /** Taking out an element after the head takes it out of the tail. */
  lemma RemoveAtCons<X>(s: seq<X>, i: nat)
    requires i + 1 < |s|
    ensures RemoveAt(s, 0) == s[1..]
    ensures RemoveAt(s, i + 1) == [s[0]] + RemoveAt(s[1..], i)
  {
  }

  /** Putting `l` at index `i` and `r` right after it replaces one element by two. */
  lemma InsertTwo<X>(s: seq<X>, i: nat, l: X, r: X)
    requires i < |s|
    ensures InsertAt(s[i := l], i + 1, r) == s[..i] + [l, r] + s[i + 1..]
  {
  }

  /** Putting `c` at index `i` and removing index `i+1` replaces two elements by one. */
  lemma RemoveNext<X>(s: seq<X>, i: nat, c: X)
    requires i + 1 < |s|
    ensures RemoveAt(s[i := c], i + 1) == s[..i] + [c] + s[i + 2..]
  {
  }

  /** Overwriting two neighbouring elements replaces them in place. */
  lemma ReplacePair<X>(s: seq<X>, i: nat, a: X, b: X)
    requires i + 1 < |s|
    ensures s[i := a][i + 1 := b] == s[..i] + [a, b] + s[i + 2..]
  {
  }

  ghost predicate StrictlySorted(s: seq<int>) {
    forall i, j :: 0 <= i < j < |s| ==> s[i] < s[j]
  }

  ghost predicate NonDecreasing(s: seq<int>) {
    forall i, j :: 0 <= i < j < |s| ==> s[i] <= s[j]
  }

  /**
    Where the leaf insertion loop of bptree_insert puts a new key: it walks from the
    last key leftwards, shifting every key strictly greater than `key`, so the new key
    lands just after the last key that is not greater, that is, after any equal keys.
   */
  function InsertPos(ks: seq<int>, key: int): (p: nat)
    ensures p <= |ks|
    ensures forall j :: p <= j < |ks| ==> key < ks[j]
    ensures 0 < p ==> ks[p - 1] <= key
  {
    if |ks| == 0 then 0
    else if key < ks[|ks| - 1] then InsertPos(ks[..|ks| - 1], key)
    else |ks|
  }

  /** The two facts InsertPos promises determine it. */
  lemma {:induction false} InsertPosUnique(ks: seq<int>, key: int, p: nat)
    requires p <= |ks|
    requires forall j :: p <= j < |ks| ==> key < ks[j]
    requires 0 < p ==> ks[p - 1] <= key
    ensures InsertPos(ks, key) == p
  {
    if |ks| > 0 && key < ks[|ks| - 1] {
      InsertPosUnique(ks[..|ks| - 1], key, p);
    }
  }

  /**
    The child a descent takes: the index of the first separator strictly greater than
    `key`, or the number of separators when there is none.
   */
  function ChildIndex(ks: seq<int>, key: int): (i: nat)
    ensures i <= |ks|
    ensures forall j :: 0 <= j < i ==> ks[j] <= key
    ensures i < |ks| ==> key < ks[i]
  {
    if |ks| == 0 || key < ks[0] then 0 else 1 + ChildIndex(ks[1..], key)
  }

  /** The two facts ChildIndex promises determine it. */
  lemma {:induction false} ChildIndexUnique(ks: seq<int>, key: int, i: nat)
    requires i <= |ks|
    requires forall j :: 0 <= j < i ==> ks[j] <= key
    requires i < |ks| ==> key < ks[i]
    ensures ChildIndex(ks, key) == i
  {
    if |ks| > 0 && key >= ks[0] {
      ChildIndexUnique(ks[1..], key, i - 1);
    }
  }

  /**
    On sorted keys the leaf insertion point and the descent index agree: both count the
    keys not greater than `key`.
   */
  lemma InsertPosIsChildIndex(ks: seq<int>, key: int)
    requires NonDecreasing(ks)
    ensures InsertPos(ks, key) == ChildIndex(ks, key)
  {
    var i := ChildIndex(ks, key);
    InsertPosUnique(ks, key, i);
  }

  /** Inserting an absent key at the point InsertPos picks keeps the keys strictly ascending. */
  lemma InsertPosKeepsOrder(ks: seq<int>, key: int)
    requires StrictlySorted(ks) && key !in ks
    ensures StrictlySorted(InsertAt(ks, InsertPos(ks, key), key))
  {
    var p := InsertPos(ks, key);
    var ks' := InsertAt(ks, p, key);
    forall i, j | 0 <= i < j < |ks'| ensures ks'[i] < ks'[j] {
      if j < p {
      } else if j == p {
        assert ks[i] <= key && ks[i] != key;
      } else if i < p {
        assert ks[i] <= key && key < ks[j - 1];
      } else if i == p {
      } else {
      }
    }
  }

  /**
    The leaf insertion of bptree_insert, which admits a key already present, keeps the
    keys non-decreasing: an equal key lands after the keys equal to it.
   */
  lemma InsertPosKeepsNonDecreasing(ks: seq<int>, key: int)
    requires NonDecreasing(ks)
    ensures NonDecreasing(InsertAt(ks, InsertPos(ks, key), key))
  {
    InsertAtKeepsOrder(ks, InsertPos(ks, key), key);
  }

  /** A key placed between its neighbours keeps a non-decreasing sequence so. */
  lemma InsertAtKeepsOrder(ks: seq<int>, i: nat, u: int)
    requires i <= |ks| && NonDecreasing(ks)
    requires 0 < i ==> ks[i - 1] <= u
    requires i < |ks| ==> u <= ks[i]
    ensures NonDecreasing(InsertAt(ks, i, u))
  {
    var ks' := InsertAt(ks, i, u);
    forall a, b | 0 <= a < b < |ks'| ensures ks'[a] <= ks'[b] {
      if b < i {
      } else if b == i {
        assert ks[a] <= ks[i - 1];
      } else if a < i {
        assert ks[a] <= ks[i - 1] && u <= ks[i] <= ks[b - 1];
      } else if a == i {
        assert ks[i] <= ks[b - 1];
      } else {
      }
    }
  }

  /** Taking one key out of a non-decreasing key sequence keeps it so. */
  lemma RemoveKeepsOrder(ks: seq<int>, i: nat)
    requires i < |ks| && NonDecreasing(ks)
    ensures NonDecreasing(RemoveAt(ks, i))
  {
    var ks' := RemoveAt(ks, i);
    forall a, b | 0 <= a < b < |ks'| ensures ks'[a] <= ks'[b] {
      if b < i {
      } else if a < i {
        assert ks[a] <= ks[b + 1];
      } else {
        assert ks[a + 1] <= ks[b + 1];
      }
    }
  }

  /** A key placed strictly between its neighbours keeps a strictly ascending sequence so. */
  lemma InsertAtKeepsStrict(ks: seq<int>, i: nat, u: int)
    requires i <= |ks| && StrictlySorted(ks)
    requires 0 < i ==> ks[i - 1] < u
    requires i < |ks| ==> u < ks[i]
    ensures StrictlySorted(InsertAt(ks, i, u))
  {
    var ks' := InsertAt(ks, i, u);
    forall a, b | 0 <= a < b < |ks'| ensures ks'[a] < ks'[b] {
      if b < i {
      } else if b == i {
        assert ks[a] <= ks[i - 1];
      } else if a < i {
        assert ks[a] <= ks[i - 1] && u < ks[i] <= ks[b - 1];
      } else if a == i {
        assert ks[i] <= ks[b - 1];
      } else {
      }
    }
  }

  /** Taking one key out of a strictly ascending key sequence keeps it so. */
  lemma RemoveKeepsStrict(ks: seq<int>, i: nat)
    requires i < |ks| && StrictlySorted(ks)
    ensures StrictlySorted(RemoveAt(ks, i))
  {
    var ks' := RemoveAt(ks, i);
    forall a, b | 0 <= a < b < |ks'| ensures ks'[a] < ks'[b] {
      if b < i {
      } else if a < i {
        assert ks[a] < ks[b + 1];
      } else {
        assert ks[a + 1] < ks[b + 1];
      }
    }
  }

  /** A key overwritten by one strictly between its neighbours keeps a strictly ascending sequence so. */
  lemma ReplaceKeepsStrict(ks: seq<int>, i: nat, k: int)
    requires i < |ks| && StrictlySorted(ks)
    requires 0 < i ==> ks[i - 1] < k
    requires i + 1 < |ks| ==> k < ks[i + 1]
    ensures StrictlySorted(ks[i := k])
  {
    var ks' := ks[i := k];
    forall a, b | 0 <= a < b < |ks'| ensures ks'[a] < ks'[b] {
      if b == i {
        assert ks[a] <= ks[i - 1];
      } else if a == i {
        assert ks[i + 1] <= ks[b];
      } else {
      }
    }
  }
}
