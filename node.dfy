/**
  The node record of the tree and the in-place operations the tree algorithms perform
  on one, two or three nodes at a time. A node has room for MAX + 1 keys and MAX + 2
  pointer slots, so that it can hold one key too many between an insertion and the
  split that follows it. In a leaf, slot i holds the payload paired with key i; in an
  internal node, slots 0 to num_keys hold the children.
 */
module NodeRecord {
  import opened KeySeq

  /** What a pointer slot holds: nothing, a caller's payload, or a child node. */
  datatype Slot<T> = Null | Payload(data: T) | Child(node: BPTreeNode<T>)

  class BPTreeNode<T> {
    var isLeaf: bool
    var numKeys: int
    const keys: array<int>
    const ptr: array<Slot<T>>
    /** The next leaf in key order, or null for the last leaf. */
    var next: BPTreeNode?<T>

    /** The storage of this node: the record and its two arrays. */
    ghost function Repr(): set<object>
      reads this
    {
      {this, keys, ptr}
    }

    ghost predicate Valid()
      reads this
    {
      keys.Length == MAX + 1 && ptr.Length == MAX + 2 && 0 <= numKeys <= MAX + 1
    }

    /** The keys in use, `keys[..num_keys]`. */
    ghost function Keys(): seq<int>
      reads this, keys
      requires Valid()
    {
      keys[..numKeys]
    }

    /** In a leaf: the payload slots paired with Keys(). */
    ghost function Payloads(): seq<Slot<T>>
      reads this, ptr
      requires Valid()
    {
      ptr[..numKeys]
    }

    /** In an internal node: the num_keys + 1 child slots. */
    ghost function Children(): seq<Slot<T>>
      reads this, ptr
      requires Valid()
    {
      ptr[..numKeys + 1]
    }

    /**
      create_node: an empty node of the given kind, unlinked, its first MAX + 1 pointer
      slots cleared; the last slot is left as it is.
     */
    constructor (leaf: bool)
      ensures Valid() && fresh(keys) && fresh(ptr)
      ensures isLeaf == leaf && numKeys == 0 && next == null
      ensures forall i :: 0 <= i <= MAX ==> ptr[i] == Null
    {
      isLeaf := leaf;
      numKeys := 0;
      keys := new int[MAX + 1];
      ptr := new Slot<T>[MAX + 2](_ => Null);
      next := null;
    }

    /** The root created by the first insertion into an empty tree: one leaf, one entry. */
    constructor SingleEntry(key: int, data: T)
      ensures Valid() && fresh(keys) && fresh(ptr)
      ensures isLeaf && next == null
      ensures Keys() == [key] && Payloads() == [Payload(data)]
    {
      isLeaf := true;
      keys := new int[MAX + 1];
      ptr := new Slot<T>[MAX + 2](_ => Null);
      next := null;
      new;
      keys[0] := key;
      ptr[0] := Payload(data);
      numKeys := 1;
    }

    /** The new root grown when a split reaches the top: one key, two children. */
    constructor NewRoot(upKey: int, left: BPTreeNode<T>, right: BPTreeNode<T>)
      ensures Valid() && fresh(keys) && fresh(ptr)
      ensures !isLeaf && next == null
      ensures Keys() == [upKey] && Children() == [Child(left), Child(right)]
    {
      isLeaf := false;
      keys := new int[MAX + 1];
      ptr := new Slot<T>[MAX + 2](_ => Null);
      next := null;
      new;
      keys[0] := upKey;
      ptr[0] := Child(left);
      ptr[1] := Child(right);
      numKeys := 1;
    }

    /**
      The descent step shared by insertion, search and deletion: the index of the first
      key strictly greater than `key`, or num_keys when there is none.
     */
    method ChildIndexOf(key: int) returns (i: int)
      requires Valid()
      ensures 0 <= i <= numKeys
      ensures forall j :: 0 <= j < i ==> keys[j] <= key
      ensures i < numKeys ==> key < keys[i]
      ensures i == ChildIndex(Keys(), key)
    {
      i := 0;
      while i < numKeys && key >= keys[i]
        invariant 0 <= i <= numKeys
        invariant forall j :: 0 <= j < i ==> keys[j] <= key
      {
        i := i + 1;
      }
      ChildIndexUnique(Keys(), key, i);
    }

    /**
      The linear scan of a leaf for `key`: whether it is there and, if so, the index of
      its first occurrence.
     */
    method FindKey(key: int) returns (found: bool, i: int)
      requires Valid()
      ensures found <==> key in Keys()
      ensures found ==> 0 <= i < numKeys && keys[i] == key && key !in keys[..i]
    {
      found := false;
      i := 0;
      while i < numKeys
        invariant 0 <= i <= numKeys
        invariant key !in keys[..i]
      {
        if keys[i] == key {
          found := true;
          return;
        }
        i := i + 1;
      }
    }

    /**
      The shifting loop of the sorted insertion into a leaf: every key greater than
      `key` moves one slot right together with its payload, leaving a gap at the
      position where `key` belongs.
     */
    method MakeRoom(key: int) returns (p: int)
      requires Valid() && numKeys <= MAX
      modifies keys, ptr
      ensures 0 <= p <= numKeys && p == InsertPos(old(Keys()), key)
      ensures forall j :: 0 <= j < p ==> keys[j] == old(Keys())[j]
      ensures forall j :: 0 <= j < p ==> ptr[j] == old(Payloads())[j]
      ensures forall j :: p < j <= numKeys ==> keys[j] == old(Keys())[j - 1]
      ensures forall j :: p < j <= numKeys ==> ptr[j] == old(Payloads())[j - 1]
    {
      ghost var ks, ps := Keys(), Payloads();
      var i := numKeys - 1;
      while i >= 0 && keys[i] > key
        invariant -1 <= i < numKeys
        invariant forall j :: 0 <= j <= i ==> keys[j] == ks[j]
        invariant forall j :: 0 <= j <= i ==> ptr[j] == ps[j]
        invariant forall j :: i + 1 < j <= numKeys ==> keys[j] == ks[j - 1]
        invariant forall j :: i + 1 < j <= numKeys ==> ptr[j] == ps[j - 1]
        invariant forall j :: i < j < numKeys ==> key < ks[j]
      {
        keys[i + 1] := keys[i];
        ptr[i + 1] := ptr[i];
        i := i - 1;
      }
      p := i + 1;
      InsertPosUnique(ks, key, p);
    }

    /** Sorted insertion into a leaf: make room, then put the new pair in the gap. */
    method LeafInsert(key: int, data: T)
      requires Valid() && numKeys <= MAX
      modifies this, keys, ptr
      ensures Valid() && numKeys == old(numKeys) + 1
      ensures isLeaf == old(isLeaf) && next == old(next)
      ensures Keys() == InsertAt(old(Keys()), InsertPos(old(Keys()), key), key)
      ensures Payloads() == InsertAt(old(Payloads()), InsertPos(old(Keys()), key), Payload(data))
      ensures NonDecreasing(old(Keys())) ==> NonDecreasing(Keys())
    {
      ghost var ks, ps := Keys(), Payloads();
      var p := MakeRoom(key);
      keys[p] := key;
      ptr[p] := Payload(data);
      numKeys := numKeys + 1;
      ShiftedIn(keys, numKeys, ks, p, key);
      ShiftedIn(ptr, numKeys, ps, p, Payload(data));
      if NonDecreasing(ks) {
        InsertPosKeepsNonDecreasing(ks, key);
      }
    }

    /**
      Split of an overflowing leaf: this leaf keeps the first MID entries, a fresh leaf
      takes the rest in order and is linked right after this one; the separator to push
      up is the fresh leaf's first key.
     */
    method SplitLeaf() returns (right: BPTreeNode<T>, upKey: int)
      requires Valid() && numKeys == MAX + 1
      modifies this
      ensures Valid() && fresh(right) && fresh(right.keys) && fresh(right.ptr) && right.Valid()
      ensures isLeaf == old(isLeaf) && right.isLeaf
      ensures Keys() == old(Keys())[..MID] && Payloads() == old(Payloads())[..MID]
      ensures right.Keys() == old(Keys())[MID..] && right.Payloads() == old(Payloads())[MID..]
      ensures right.next == old(next) && next == right
      ensures upKey == right.Keys()[0]
    {
      right := new BPTreeNode(true);
      right.numKeys := numKeys - MID;
      numKeys := MID;
      var i := 0;
      while i < right.numKeys
        modifies right.keys, right.ptr
        invariant 0 <= i <= right.numKeys
        invariant forall j :: 0 <= j < i ==> right.keys[j] == keys[MID + j] && right.ptr[j] == ptr[MID + j]
      {
        right.keys[i] := keys[MID + i];
        right.ptr[i] := ptr[MID + i];
        i := i + 1;
      }
      right.next := next;
      next := right;
      upKey := right.keys[0];
    }

    /**
      Propagation of a split into this internal node: the separator goes in at `pos`
      and the new node becomes the child immediately to its right.
     */
    method InsertChild(pos: int, upKey: int, child: BPTreeNode<T>)
      requires Valid() && 0 <= pos <= numKeys <= MAX
      modifies this, keys, ptr
      ensures Valid() && numKeys == old(numKeys) + 1
      ensures isLeaf == old(isLeaf) && next == old(next)
      ensures Keys() == InsertAt(old(Keys()), pos, upKey)
      ensures Children() == InsertAt(old(Children()), pos + 1, Child(child))
    {
      ghost var ks, cs := Keys(), Children();
      OpenSlot(pos);
      keys[pos] := upKey;
      ptr[pos + 1] := Child(child);
      numKeys := numKeys + 1;
      ShiftedIn(keys, numKeys, ks, pos, upKey);
      ShiftedIn(ptr, numKeys + 1, cs, pos + 1, Child(child));
    }

    /**
      The shifting loop of InsertChild: the keys from `pos` and the children after
      `pos` move one slot right.
     */
    method OpenSlot(pos: int)
      requires Valid() && 0 <= pos <= numKeys <= MAX
      modifies keys, ptr
      ensures forall j :: 0 <= j < pos ==> keys[j] == old(Keys())[j]
      ensures forall j :: pos < j <= numKeys ==> keys[j] == old(Keys())[j - 1]
      ensures forall j :: 0 <= j <= pos ==> ptr[j] == old(Children())[j]
      ensures forall j :: pos + 1 < j <= numKeys + 1 ==> ptr[j] == old(Children())[j - 1]
    {
      ghost var ks, cs := Keys(), Children();
      var i := numKeys;
      while i > pos
        invariant pos <= i <= numKeys
        invariant forall j :: 0 <= j < i ==> keys[j] == ks[j]
        invariant forall j :: i < j <= numKeys ==> keys[j] == ks[j - 1]
        invariant forall j :: 0 <= j <= i ==> ptr[j] == cs[j]
        invariant forall j :: i + 1 < j <= numKeys + 1 ==> ptr[j] == cs[j - 1]
      {
        keys[i] := keys[i - 1];
        ptr[i + 1] := ptr[i];
        i := i - 1;
      }
    }

    /**
      Split of an overflowing internal node: the key at MID is promoted and kept in
      neither half; a fresh internal node takes the keys after it and the children
      after MID, and this node keeps MID keys and MID + 1 children.
     */
    method SplitInternal() returns (right: BPTreeNode<T>, upKey: int)
      requires Valid() && numKeys == MAX + 1
      modifies this
      ensures Valid() && fresh(right) && fresh(right.keys) && fresh(right.ptr) && right.Valid()
      ensures isLeaf == old(isLeaf) && !right.isLeaf && right.next == null && next == old(next)
      ensures upKey == old(Keys())[MID]
      ensures Keys() == old(Keys())[..MID] && Children() == old(Children())[..MID + 1]
      ensures right.Keys() == old(Keys())[MID + 1..] && right.Children() == old(Children())[MID + 1..]
    {
      right := new BPTreeNode(false);
      upKey := keys[MID];
      right.numKeys := numKeys - MID - 1;
      var i := 0;
      while i < right.numKeys
        modifies right.keys, right.ptr
        invariant 0 <= i <= right.numKeys
        invariant forall j :: 0 <= j < i ==> right.keys[j] == keys[MID + 1 + j] && right.ptr[j] == ptr[MID + 1 + j]
      {
        right.keys[i] := keys[MID + 1 + i];
        right.ptr[i] := ptr[MID + 1 + i];
        i := i + 1;
      }
      right.ptr[i] := ptr[numKeys];
      numKeys := MID;
    }

    /** Removal of entry `i` from a leaf: the later entries move one slot left. */
    method RemoveEntry(i: int)
      requires Valid() && 0 <= i < numKeys
      modifies this, keys, ptr
      ensures Valid() && numKeys == old(numKeys) - 1
      ensures isLeaf == old(isLeaf) && next == old(next)
      ensures Keys() == RemoveAt(old(Keys()), i)
      ensures Payloads() == RemoveAt(old(Payloads()), i)
      ensures NonDecreasing(old(Keys())) ==> NonDecreasing(Keys())
    {
      ghost var ks, ps := Keys(), Payloads();
      var j := i;
      while j < numKeys - 1
        modifies keys, ptr
        invariant i <= j <= numKeys - 1
        invariant forall m :: 0 <= m < i ==> keys[m] == ks[m] && ptr[m] == ps[m]
        invariant forall m :: i <= m < j ==> keys[m] == ks[m + 1] && ptr[m] == ps[m + 1]
        invariant forall m :: j <= m < numKeys ==> keys[m] == ks[m] && ptr[m] == ps[m]
      {
        keys[j] := keys[j + 1];
        ptr[j] := ptr[j + 1];
        j := j + 1;
      }
      numKeys := numKeys - 1;
      ShiftedOut(keys, numKeys, ks, i);
      ShiftedOut(ptr, numKeys, ps, i);
      if NonDecreasing(ks) {
        RemoveKeepsOrder(ks, i);
      }
    }

    /**
      Removal of separator `j` and the child to its right from an internal node, as a
      merge does to the parent of the two merged leaves.
     */
    method RemoveSeparator(j: int)
      requires Valid() && 0 <= j < numKeys
      modifies this, keys, ptr
      ensures Valid() && numKeys == old(numKeys) - 1
      ensures isLeaf == old(isLeaf) && next == old(next)
      ensures Keys() == RemoveAt(old(Keys()), j)
      ensures Children() == RemoveAt(old(Children()), j + 1)
    {
      ghost var ks, cs := Keys(), Children();
      var m := j;
      while m < numKeys - 1
        modifies keys, ptr
        invariant j <= m <= numKeys - 1
        invariant forall q :: 0 <= q < j ==> keys[q] == ks[q]
        invariant forall q :: j <= q < m ==> keys[q] == ks[q + 1]
        invariant forall q :: m <= q < numKeys ==> keys[q] == ks[q]
        invariant forall q :: 0 <= q <= j ==> ptr[q] == cs[q]
        invariant forall q :: j + 1 <= q < m + 1 ==> ptr[q] == cs[q + 1]
        invariant forall q :: m + 1 <= q <= numKeys ==> ptr[q] == cs[q]
      {
        keys[m] := keys[m + 1];
        ptr[m + 1] := ptr[m + 2];
        m := m + 1;
      }
      numKeys := numKeys - 1;
      ShiftedOut(keys, numKeys, ks, j);
      ShiftedOut(ptr, numKeys + 1, cs, j + 1);
    }

    /**
      Borrowing from the left sibling: its last entry moves to the front of this leaf,
      and the parent's separator between the two becomes this leaf's new first key.
     */
    method BorrowFromLeft(left: BPTreeNode<T>, parent: BPTreeNode<T>, parentIndex: int)
      requires Valid() && left.Valid() && parent.Valid()
      requires Repr() !! left.Repr() && Repr() !! parent.Repr() && left.Repr() !! parent.Repr()
      requires numKeys <= MAX && 0 < left.numKeys && 0 < parentIndex <= parent.numKeys
      modifies this, keys, ptr, left, parent.keys
      ensures Valid() && left.Valid() && parent.Valid()
      ensures isLeaf == old(isLeaf) && next == old(next)
      ensures left.isLeaf == old(left.isLeaf) && left.next == old(left.next)
      ensures Keys() == [old(left.Keys())[old(left.numKeys) - 1]] + old(Keys())
      ensures Payloads() == [old(left.Payloads())[old(left.numKeys) - 1]] + old(Payloads())
      ensures left.Keys() == old(left.Keys())[..old(left.numKeys) - 1]
      ensures left.Payloads() == old(left.Payloads())[..old(left.numKeys) - 1]
      ensures parent.Keys() == old(parent.Keys())[parentIndex - 1 := keys[0]]
      ensures parent.Children() == old(parent.Children())
    {
      ghost var ks, ps := Keys(), Payloads();
      ghost var lks, lps := left.Keys(), left.Payloads();
      ShiftEntriesRight();
      keys[0] := left.keys[left.numKeys - 1];
      ptr[0] := left.ptr[left.numKeys - 1];
      numKeys := numKeys + 1;
      ShiftedFront(keys, numKeys, ks, keys[0]);
      ShiftedFront(ptr, numKeys, ps, ptr[0]);
      left.numKeys := left.numKeys - 1;
      assert left.Keys() == lks[..left.numKeys];
      assert left.Payloads() == lps[..left.numKeys];
      parent.keys[parentIndex - 1] := keys[0];
    }

    /** The shifting loop of BorrowFromLeft: every entry moves one slot right. */
    method ShiftEntriesRight()
      requires Valid() && numKeys <= MAX
      modifies keys, ptr
      ensures forall m :: 0 < m <= numKeys ==> keys[m] == old(Keys())[m - 1]
      ensures forall m :: 0 < m <= numKeys ==> ptr[m] == old(Payloads())[m - 1]
    {
      ghost var ks, ps := Keys(), Payloads();
      var j := numKeys;
      while j > 0
        invariant 0 <= j <= numKeys
        invariant forall m :: 0 <= m < j ==> keys[m] == ks[m]
        invariant forall m :: 0 <= m < j ==> ptr[m] == ps[m]
        invariant forall m :: j < m <= numKeys ==> keys[m] == ks[m - 1]
        invariant forall m :: j < m <= numKeys ==> ptr[m] == ps[m - 1]
      {
        keys[j] := keys[j - 1];
        ptr[j] := ptr[j - 1];
        j := j - 1;
      }
    }

    /**
      Borrowing from the right sibling: its first entry moves to the end of this leaf,
      and the parent's separator between the two becomes the sibling's new first key.
     */
    method BorrowFromRight(right: BPTreeNode<T>, parent: BPTreeNode<T>, parentIndex: int)
      requires Valid() && right.Valid() && parent.Valid()
      requires Repr() !! right.Repr() && Repr() !! parent.Repr() && right.Repr() !! parent.Repr()
      requires numKeys <= MAX && 1 < right.numKeys && 0 <= parentIndex < parent.numKeys
      modifies this, keys, ptr, right, right.keys, right.ptr, parent.keys
      ensures Valid() && right.Valid() && parent.Valid()
      ensures isLeaf == old(isLeaf) && next == old(next)
      ensures right.isLeaf == old(right.isLeaf) && right.next == old(right.next)
      ensures Keys() == old(Keys()) + [old(right.Keys())[0]]
      ensures Payloads() == old(Payloads()) + [old(right.Payloads())[0]]
      ensures right.Keys() == old(right.Keys())[1..]
      ensures right.Payloads() == old(right.Payloads())[1..]
      ensures parent.Keys() == old(parent.Keys())[parentIndex := right.keys[0]]
      ensures parent.Children() == old(parent.Children())
    {
      AppendEntry(right.keys[0], right.ptr[0]);
      right.DropFirst();
      parent.keys[parentIndex] := right.keys[0];
    }

    /** The first entry removed, the others shifted left, as a borrow from the right does. */
    method DropFirst()
      requires Valid() && 0 < numKeys
      modifies this, keys, ptr
      ensures Valid() && numKeys == old(numKeys) - 1
      ensures isLeaf == old(isLeaf) && next == old(next)
      ensures Keys() == old(Keys())[1..] && Payloads() == old(Payloads())[1..]
    {
      ghost var ks, ps := Keys(), Payloads();
      RemoveEntry(0);
      assert RemoveAt(ks, 0) == ks[1..] && RemoveAt(ps, 0) == ps[1..];
    }

    /** One entry written after the last one in use, as a borrow from the right does. */
    method AppendEntry(k: int, p: Slot<T>)
      requires Valid() && numKeys <= MAX
      modifies this, keys, ptr
      ensures Valid() && isLeaf == old(isLeaf) && next == old(next)
      ensures Keys() == old(Keys()) + [k] && Payloads() == old(Payloads()) + [p]
    {
      ghost var ks, ps := Keys(), Payloads();
      keys[numKeys] := k;
      ptr[numKeys] := p;
      numKeys := numKeys + 1;
      assert Keys() == ks + [k];
      assert Payloads() == ps + [p];
    }

    /**
      The data movement of a merge: the entries of the leaf to the right are appended
      to this one, and this leaf takes over its `next` link.
     */
    method Absorb(right: BPTreeNode<T>)
      requires Valid() && right.Valid() && Repr() !! right.Repr()
      requires numKeys + right.numKeys <= MAX + 1
      modifies this, keys, ptr
      ensures Valid() && isLeaf == old(isLeaf)
      ensures Keys() == old(Keys()) + right.Keys()
      ensures Payloads() == old(Payloads()) + right.Payloads()
      ensures next == right.next
    {
      ghost var ks, ps := Keys(), Payloads();
      var idx := numKeys;
      var j := 0;
      while j < right.numKeys
        modifies keys, ptr
        invariant 0 <= j <= right.numKeys
        invariant forall m :: 0 <= m < idx ==> keys[m] == ks[m]
        invariant forall m :: 0 <= m < idx ==> ptr[m] == ps[m]
        invariant forall m :: 0 <= m < j ==> keys[idx + m] == right.keys[m]
        invariant forall m :: 0 <= m < j ==> ptr[idx + m] == right.ptr[m]
      {
        keys[idx + j] := right.keys[j];
        ptr[idx + j] := right.ptr[j];
        j := j + 1;
      }
      numKeys := numKeys + right.numKeys;
      next := right.next;
      Concatenated(keys, ks, right.Keys());
      Concatenated(ptr, ps, right.Payloads());
    }
  }

  /**
    An array whose first `n` slots hold `s` with `x` put in at `p`, the rest moved one
    slot right: the state a shift-and-insert loop leaves behind.
   */
  lemma ShiftedIn<X>(a: array<X>, n: int, s: seq<X>, p: int, x: X)
    requires 0 <= p <= |s| && n == |s| + 1 <= a.Length
    requires forall j :: 0 <= j < p ==> a[j] == s[j]
    requires a[p] == x
    requires forall j :: p < j < n ==> a[j] == s[j - 1]
    ensures a[..n] == InsertAt(s, p, x)
  {
  }

  /** The same, for an entry put in front: every old entry moved one slot right. */
  lemma ShiftedFront<X>(a: array<X>, n: int, s: seq<X>, x: X)
    requires n == |s| + 1 <= a.Length
    requires a[0] == x
    requires forall j :: 0 < j < n ==> a[j] == s[j - 1]
    ensures a[..n] == [x] + s
  {
  }

  /**
    An array whose first `n` slots hold `s` with its element `p` taken out, the later
    ones moved one slot left: the state a shift-left loop leaves behind.
   */
  lemma ShiftedOut<X>(a: array<X>, n: int, s: seq<X>, p: int)
    requires 0 <= p < |s| && n + 1 == |s| && n <= a.Length
    requires forall j :: 0 <= j < p ==> a[j] == s[j]
    requires forall j :: p <= j < n ==> a[j] == s[j + 1]
    ensures a[..n] == RemoveAt(s, p)
  {
  }

  /** An array whose first slots hold `s` and then `t`. */
  lemma Concatenated<X>(a: array<X>, s: seq<X>, t: seq<X>)
    requires |s| + |t| <= a.Length
    requires forall j :: 0 <= j < |s| ==> a[j] == s[j]
    requires forall j :: 0 <= j < |t| ==> a[|s| + j] == t[j]
    ensures a[..|s| + |t|] == s + t
  {
  }
}
