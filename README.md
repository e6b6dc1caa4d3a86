# A verified model of the car-showroom B+ tree

The showroom program keeps its cars and salespeople in an in-memory B+ tree of
order 4 keyed by `int` (a VIN or a salesperson id), with an untyped payload per key.
This project models the core of that tree:

- the node record (`bptree.h`);
- `create_node`, `bptree_insert`, `bptree_search` and `bptree_delete`;
- the leaf-chain walk of `bptree_traverse`, which is the same walk as the stock merge (`bptree.c`).

The model has two layers.

- **The node record** (`node.dfy`, module `NodeRecord`). `BPTreeNode` is a class with
  the record's fields:
  - `isLeaf` and `numKeys`;
  - the fixed-capacity arrays `keys` (MAX + 1 slots) and `ptr` (MAX + 2 slots);
  - the `next` link.

  Every step the tree algorithms perform in place on one, two or three nodes is a
  method over those arrays, with the loops of the C code and their invariants:
  - sorted insertion with shifting;
  - the leaf and internal splits;
  - separator insertion in a parent;
  - removal with shifting;
  - borrowing from either side;
  - merging.

  Each method states the node's new `keys[..num_keys]` and `ptr[..]` exactly, in terms
  of the old contents.
- **The tree** (`bptree.dfy`, module `BPTree`).
  - A tree is a value: a leaf holds keys and payloads, an internal node holds
    separators and children, and an absent root is `None`.
  - Insertion, deletion and their repairs are functions that follow the C code branch
    for branch.
  - Search and the ordered scan are loop methods.
  - Everything is proved against one abstraction: `Entries`, the (key, payload) pairs
    of the leaves from left to right (`Queries.Leaves`).
- **The leaf chain** (`chain.dfy`, module `LeafChain`). bptree.c relinks `next` in two
  places only: a leaf split links the new leaf directly after the old one
  (bptree.c:87-88), and a merge gives the surviving leaf the `next` of the leaf it takes
  in (bptree.c:309, 331). The lemmas here show that the left-to-right order of the leaves
  changes in exactly those ways:
  - insertion replaces the leaf the descent reaches by itself or by its two halves, side
    by side, and leaves every other leaf where it was;
  - deletion, at every height, changes only the leaves under the parent of the leaf the
    descent reaches, and a root that gives way to its merged child keeps its leaves;
  - under that parent, the entry leaves its leaf in place, a borrow keeps the leaves in
    place, and a merge replaces two neighbouring leaves by their union.

What is proved:

- **Insertion** of an absent key keeps the tree well formed. Well formed means:
  - the keys of every node, leaf or internal, strictly ascending;
  - separator semantics `keys[j-1] <= k < keys[j]`, with every separator inside the
    bounds its own parent sets;
  - every leaf at the same depth;
  - no node above MAX keys.

  Insertion adds exactly the new pair at its sorted place. Search then finds the new
  payload and every other key as before. The height grows by at most one, and only
  through a new root with one key.
- **Deletion** keeps the tree well formed and removes exactly the entry for the key.
  Deleting an absent key leaves the tree unchanged.
- **Search** returns exactly the payload the tree maps the key to, or nothing.
- **The scan** yields every entry of the tree once, in strictly ascending key order.
- **The leaf chain** changes only where bptree.c relinks `next`, at every height: at the
  leaf an insertion reaches, which becomes itself or its two halves side by side, and,
  for a deletion, under the parent of the leaf the descent reaches, where the entry leaves
  its leaf in place and a borrow or a merge touches two neighbours. A root collapse keeps
  the leaves.
- **Occupancy.** The occupancy invariant (no non-root node below MID = (MAX+1)/2 keys):
  insertion keeps it at every height. Deletion keeps it when the leaves hang directly off the
  root. A concrete three-level tree shows that deletion does not keep it above that,
  because the underflow repair reaches only the leaf's immediate parent.
- **Two uses of the tree in the application:**
  - the key transfer of `sell_car`;
  - the DDMMYYYY purchase-date decoding and re-encoding, under C's truncating division,
    which is the identity on every `int`.

## Model

| member | source | states |
|---|---|---|
| NodeRecord.BPTreeNode.constructor | bptree.c:15-36 | A fresh node has the requested kind, no keys and a null `next`, and its first MAX + 1 pointer slots are null. |
| NodeRecord.BPTreeNode.SingleEntry | bptree.c:39-44 | Inserting into an empty tree makes a leaf root holding exactly the one key and its payload. |
| NodeRecord.BPTreeNode.NewRoot | bptree.c:125-131 | The new root has one key and exactly two children: the old root, then the node split off. |
| NodeRecord.BPTreeNode.ChildIndexOf | bptree.c:56 | The descent index is the first separator strictly greater than the key, or num_keys when there is none; every key before it is not greater than the key. |
| NodeRecord.BPTreeNode.FindKey | bptree.c:230-242 | Found exactly when the key is among the node's keys, and then `i` is its first slot. |
| NodeRecord.BPTreeNode.MakeRoom | bptree.c:62-66 | Entries before the sorted slot (after any equal keys) stay where they are; those after it move one slot right. |
| NodeRecord.BPTreeNode.LeafInsert | bptree.c:61-69 | The keys and payloads become the old ones with the new pair at its sorted slot. num_keys grows by one; the kind and `next` are unchanged. Non-decreasing keys stay non-decreasing. |
| NodeRecord.BPTreeNode.SplitLeaf | bptree.c:74-90 | The leaf keeps its first MID entries, and a fresh leaf takes the rest in order. The fresh leaf is linked directly after it and inherits its old `next`. The separator is the fresh leaf's first key. |
| NodeRecord.BPTreeNode.OpenSlot | bptree.c:97-100 | Keys from `pos` on and children from `pos + 1` on move one slot right; the rest stay. |
| NodeRecord.BPTreeNode.InsertChild | bptree.c:95-104 | The separator is inserted at `pos` and the new node at `pos + 1`, immediately to its right. num_keys grows by one. |
| NodeRecord.BPTreeNode.SplitInternal | bptree.c:108-122 | `keys[MID]` is promoted and kept in neither half. The original keeps MID keys and MID + 1 children. A fresh internal node gets the keys after MID and the remaining children. |
| NodeRecord.BPTreeNode.RemoveEntry | bptree.c:244-249 | Entry `i` is gone, later entries shift left by one and num_keys drops by one. Non-decreasing keys stay non-decreasing. |
| NodeRecord.BPTreeNode.RemoveSeparator | bptree.c:312-317 | The parent loses exactly separator `j` and the child to its right; everything else is unchanged. |
| NodeRecord.BPTreeNode.ShiftEntriesRight | bptree.c:275-278 | Every entry moves one slot right, leaving slot 0 free. |
| NodeRecord.BPTreeNode.BorrowFromLeft | bptree.c:272-285 | The left sibling's last entry moves to the front of the node. The parent's separator `parentIndex - 1` becomes the node's new first key, and nothing else in the parent changes. |
| NodeRecord.BPTreeNode.BorrowFromRight | bptree.c:286-300 | The right sibling's first entry moves to the end of the node. The parent's separator `parentIndex` becomes the sibling's new first key. |
| NodeRecord.BPTreeNode.Absorb | bptree.c:302-309 | The merge: the node's entries become its own followed by the right node's, and its `next` becomes the right node's `next`. |
| KeySeq.InsertPosKeepsOrder | bptree.c:62-69 | Inserting an absent key at the leaf insertion point keeps the keys strictly ascending. |
| KeySeq.InsertPosKeepsNonDecreasing | bptree.c:63 | Because the shift stops at keys not greater than the new one, a duplicate key lands after its equals and the keys stay non-decreasing. |
| KeySeq.InsertPosIsChildIndex | bptree.c:56-63 | On sorted keys, the leaf insertion point equals the descent index. |
| KeySeq.InsertAtKeepsStrict | bptree.c:97-104 | A separator placed strictly between its neighbours keeps a strictly ascending row strictly ascending. |
| KeySeq.RemoveKeepsStrict | bptree.c:312-317 | Removing any separator keeps a strictly ascending row strictly ascending. |
| KeySeq.ReplaceKeepsStrict | bptree.c:284-299 | Replacing a separator by a key strictly between its neighbours keeps the row strictly ascending. |
| BPTree.InsertRec | bptree.c:47-123 | A leaf splits exactly when it already held MAX keys, and whatever comes back up is of the same kind as the node it came from. Its full contract (well formed, same height, exactly the new pair added) is `InsertProofs.InsertRecCorrect`. |
| BPTree.SettleLeaf | bptree.c:71-90 | A leaf stays whole exactly when it has at most MAX keys. Otherwise the first half has MID keys, the two halves put back together give exactly the leaf's keys and payloads, and the separator is the right half's first key. |
| BPTree.Promote | bptree.c:93-122 | The parent stays whole exactly when it had fewer than MAX keys, and then its keys are the old ones with the new separator at the child's index. Otherwise the left half has MID keys, left keys, promoted key and right keys together give that same row, and the halves' children are the old ones with the two new halves in place of the child. |
| BPTree.Insert | bptree.c:38-132 | The tree is never empty after an insertion. Its full contract is `InsertProofs.InsertCorrect`. |
| BPTree.FirstIndex | bptree.c:230-242 | The index returned holds the key, and no earlier slot does. |
| BPTree.Rebalance | bptree.c:261-344 | Every repair branch yields an internal node with one more child than keys. Its full contract is `DeleteProofs.RebalanceCorrect`. |
| BPTree.DeleteBelow | bptree.c:217-344 | Deletion below an internal node yields an internal node with one more child than keys. Its full contract is `DeleteProofs.DeleteBelowCorrect`. |
| BPTree.Delete | bptree.c:214-256 | The tree becomes empty exactly when it was empty or was a single leaf holding only the key. Its full contract is `DeleteProofs.DeleteCorrect`. |
| InsertProofs.SettleLeafCorrect | bptree.c:71-90 | A leaf that fits is returned unchanged. An overflowing one splits into two well-formed leaves that keep all its entries in order, around a separator that bounds them. |
| InsertProofs.PromoteCorrect | bptree.c:93-122 | A parent taking in a split child holds the same entries with the two halves in place of the child. On overflow it splits into two well-formed halves of the same height around the promoted key. |
| InsertProofs.InsertRecCorrect | bptree.c:47-123 | Insertion of an absent key below a well-formed subtree yields a well-formed subtree of the same height holding the old entries plus the new pair at its sorted place, or two such halves with a separator between them. |
| InsertProofs.NewRootWF | bptree.c:125-131 | A new root over the two halves is well formed, one level taller, and holds the entries of both halves. |
| InsertProofs.InsertCorrect | bptree.c:38-132 | Inserting an absent key into a valid tree yields a valid tree whose entries are the old ones with the new pair at its sorted place. |
| InsertProofs.LookupInsertEntry | bptree.c:38-132 | After inserting an absent key, the key maps to the new payload and every other key maps to what it did before. |
| InsertProofs.InsertThenLookup | bptree.c:38-148 | Searching after an insertion of an absent key finds the new payload for that key and the old result for every other key. |
| InsertProofs.InsertHeight | bptree.c:93-131 | Insertion keeps the height, or grows it by exactly one through a root with a single key. |
| EntriesFacts.DescentFinds | bptree.c:138-142 | In an ordered node, the child picked by the first separator strictly greater than the key holds every entry for that key the node holds. |
| EntriesFacts.ContentsSorted | bptree.c:150-164 | The entries of a valid tree, read leaf by leaf, have strictly ascending keys. |
| Queries.Descend | bptree.c:136-142 | The descent loop ends at a leaf that maps the key exactly as the whole tree does. |
| Queries.FindInLeaf | bptree.c:144-147 | The leaf scan returns the payload of the first slot holding the key, or nothing when no slot does. |
| Queries.DescentStep | bptree.c:140-141 | One descent step lands in a child that is well formed within its separators and maps the key as its parent does. |
| Queries.Search | bptree.c:134-148 | Search on a valid tree returns exactly what the tree maps the key to, or nothing, including for an empty tree. |
| Queries.LeavesEntries | bptree.c:155-163 | Reading the leaves in chain order yields exactly the entries of the tree. |
| Queries.LeftmostLeaf | bptree.c:153 | The first leaf of an internal node's chain is the first leaf of its first child. |
| Queries.LeftmostDescent | bptree.c:151-153 | Following the first child from the root reaches the first leaf of the chain. |
| Queries.ReadLeaf | bptree.c:156-161 | Reading one leaf yields its pairs in slot order. |
| Queries.Scan | bptree.c:150-164 | The walk yields every entry of the tree exactly once, in strictly ascending key order. The walk at bptree.c:620-632 is the same. |
| DeleteProofs.MoveLastRight | bptree.c:273-284 | Moving the left leaf's last entry to its neighbour's front keeps the pair of leaves' entries in order. The moved key is a separator between them. |
| DeleteProofs.MoveFirstLeft | bptree.c:287-299 | Moving the right leaf's first entry to its neighbour's end keeps the pair of leaves' entries. The right leaf's new first key separates them. |
| DeleteProofs.MergeLeaves | bptree.c:302-331 | Concatenating two neighbouring leaves keeps their entries in key order. |
| DeleteProofs.BorrowLeftCase | bptree.c:273-285 | Borrowing from a left sibling with more than MID keys leaves the parent well formed with the same entries. |
| DeleteProofs.BorrowRightCase | bptree.c:287-300 | Borrowing from a right sibling with more than MID keys, when the left cannot lend, leaves the parent well formed with the same entries. |
| DeleteProofs.MergeLeftCase | bptree.c:302-323 | Merging into the left sibling drops one separator and one child and keeps the parent well formed with the same entries. |
| DeleteProofs.MergeRightCase | bptree.c:324-344 | Merging the right sibling in, when there is no left sibling, does the same. |
| DeleteProofs.RebalanceCorrect | bptree.c:261-344 | Every branch of the underflow repair leaves the parent well formed, at height one, with exactly the same entries in the same order. |
| DeleteProofs.LeafUnderflowCase | bptree.c:258-344 | A leaf that fell below MID keys, once repaired, leaves its parent well formed at the same height and holding the same entries. |
| DeleteProofs.DeleteBelowCorrect | bptree.c:217-344 | Deletion below a well-formed internal node keeps it well formed at the same height and removes exactly the first entry for the key. |
| DeleteProofs.DeleteCorrect | bptree.c:214-345 | Deleting from a valid tree yields a valid tree whose entries are the old ones without the entry for the key. This holds including when the root leaf empties or the root gives way to the merged leaf. |
| DeleteProofs.DeleteAbsent | bptree.c:215-242 | Deleting an absent key, or deleting from an empty tree, leaves the tree unchanged. |
| DeleteProofs.LookupRemoveKey | bptree.c:244-249 | In sorted entries, after the removal the key maps to nothing and every other key to what it did before. |
| DeleteProofs.DeleteThenLookup | bptree.c:214-345 | Searching after a deletion finds nothing for the key and the old result for every other key. |
| LeafChain.LeafGrownLeaves | bptree.c:61-90 | A leaf below MAX keys hands back one leaf holding the pair at its sorted slot. A full leaf hands back two leaves whose keys and payloads, read left then right, are the old ones with the pair at that slot: the new leaf sits directly after the old one. |
| LeafChain.PromoteLeaves | bptree.c:93-122 | When a parent takes in a split child, its leaves are the leaves of the children before it, then the left half's, then the right half's, then those of the children after it. This holds whether the parent fits or splits. |
| LeafChain.InternalGrownLeaves | bptree.c:53-123 | At an internal node, the leaves handed back are those of the children left of the path, then what came back from the child on the path, then those of the children right of it. |
| LeafChain.LeavesAroundReached | bptree.c:53-59 | The leaves of a subtree are the leaves before the one the descent for the key reaches, that leaf, and the leaves after it. |
| LeafChain.GrownAroundReached | bptree.c:47-123 | The leaves insertion hands back, read off along the descent, are the subtree's leaves before the reached one, then what that leaf alone hands back, then the leaves after it. |
| LeafChain.GrownChainIsInsertRec | bptree.c:47-123 | The leaves of what InsertRec hands back are that chain. |
| LeafChain.InsertRecLeaves | bptree.c:47-123 | Insertion changes the leaf order at the reached leaf only: the leaves before and after it are unchanged and in order, and the reached leaf becomes itself with the pair or its two halves. |
| LeafChain.BorrowLeftLeaves | bptree.c:273-285 | Borrowing from the left keeps every leaf in place. The two neighbours' keys and payloads, read left then right, are unchanged, and no other leaf changes. |
| LeafChain.BorrowRightLeaves | bptree.c:287-300 | Borrowing from the right does the same for the leaf and its right neighbour. |
| LeafChain.MergeLeftLeaves | bptree.c:302-323 | Merging into the left neighbour replaces the two leaves by one holding the left one's entries, then the node's. Every other leaf keeps its place, so the merged leaf is followed by the node's old successor (bptree.c:309). |
| LeafChain.MergeRightLeaves | bptree.c:324-344 | Merging the right neighbour in replaces the two leaves by one holding both in order. The leaf is followed by the neighbour's old successor (bptree.c:331). |
| LeafChain.RebalanceLeaves | bptree.c:261-344 | Every branch of the underflow repair: a borrow keeps the leaves in place, a merge joins two neighbours, and a parent with a single child keeps its leaves. |
| LeafChain.DeleteBelowLeaves | bptree.c:217-259 | At every height, deletion leaves the leaves before and after those of the reached parent, the lowest internal node on the descent, unchanged and in order. Only that parent's own leaves change. |
| LeafChain.ParentDeleteLeaves | bptree.c:244-259 | At that parent the leaves are its children. An absent key changes none of them. A removal without underflow replaces the reached leaf in place by itself without the entry. An underflow hands the row to the repair, which RebalanceLeaves describes. |
| LeafChain.DeleteLeaves | bptree.c:320-323 | When deletion empties an internal root, the merged child that becomes the root has exactly the leaves of the repaired old root (also bptree.c:340-343). |
| Occupancy.InsertRecFills | bptree.c:47-123 | Below children that are at least half full, a node that absorbs the insertion only grows, and both halves of any split hold at least MID keys. |
| Occupancy.InsertKeepsFilled | bptree.c:38-132 | Insertion keeps every non-root node at least half full and an internal root non-empty. |
| Occupancy.RebalanceFills | bptree.c:261-344 | When every other leaf holds at least MID keys, the repair of a leaf with MID - 1 keys leaves every leaf with at least MID. |
| Occupancy.DeleteKeepsFilled | bptree.c:214-345 | With the leaves directly under the root, deletion keeps the tree at least half full. |
| Occupancy.DeleteOccupancyGap | bptree.c:302-323 | In a valid tree of height two (three levels) that is at least half full, deleting 5 merges two leaves. Their parent, which is not the root, is left below MID keys, so the tree is no longer at least half full. |
| Scenario.FourInserts | bptree.c:39-69 | Inserting 10, 20, 5 and 6 into an empty tree gives the single leaf [5, 6, 10, 20]. |
| Scenario.FiveInserts | bptree.c:71-131 | Inserting 12 next splits the leaf into [5, 6] and [10, 12, 20] under a new root with key 10. |
| Scenario.InsertsThenDelete | bptree.c:214-300 | Deleting 6 then borrows 10 from the right, giving [5, 10] and [12, 20] under root key 12. |
| Showroom.SellCarMovesCar | bptree.c:189-207 | A sale keeps all three trees valid. Afterwards the VIN maps to nothing in the unsold stock and to the same car in both sold-car trees, and every other VIN maps as before. An unknown VIN changes nothing. |
| PurchaseDate.PackUnpack | bptree.c:399-402 | Decoding a packed date with C's truncating division and remainder and packing the parts again gives back the original `int`, for every sign. |
| PurchaseDate.UnpackPack | bptree.c:168-170 | Packing a day, a month below 100 and a year below 10000 and decoding gives back the same three parts. |

## Left out

- The tree level is modelled on values, not on linked `BPTreeNode` objects. `BPTree.Insert`, `BPTree.Delete`, `Queries.Search` and `Queries.Scan` therefore do not capture update in place or the aliasing of nodes across the tree.
  - The node-level steps they are built from are modelled in place in `NodeRecord`.
  - The `next` chain is read as the left-to-right order of the leaves (`Queries.Leaves`). That this order changes only where `SplitLeaf` and `Absorb` relink is proved in `LeafChain`, on values, for insertion and deletion at every height. No heap-level chain of `BPTreeNode` objects is built or followed.
- Queries.Scan: walks the positions of `Queries.Leaves` rather than following `next` from node to node. `LeafChain` proves that this order changes only where bptree.c relinks `next`, but it does so on values: no linked structure of nodes is checked against it.
- The propagation loop of bptree_insert, with its `parent_stack`/`index_stack`, is the recursion of `BPTree.InsertRec` on the way back up. The fixed stack of 10 entries becomes the precondition `Height <= STACK_DEPTH`. A deeper tree would overrun the stack in C.
- InsertProofs.InsertCorrect: proved only for keys not already in the tree. bptree_insert accepts a duplicate and places it after its equals, which `LeafInsert` and `KeySeq.InsertPosKeepsNonDecreasing` model. With a duplicate, the leaf keys are no longer strictly ascending, so the tree falls outside the invariant the map properties rest on.
- Occupancy.DeleteKeepsFilled: proved only when the leaves are directly under the root. bptree_delete repairs an underflow through the leaf's parent only and never re-checks that parent (bptree.c:317, 338), so above that the invariant is lost, as `Occupancy.DeleteOccupancyGap` shows. Well-formedness and the entries are proved at every height.
- NodeRecord.BPTreeNode.constructor: does not promise the last pointer slot. create_node clears only `ptr[0..MAX]` (bptree.c:26-27).
- The `parent` field of the record is unused by the code and left out, as is `create_bptree`, which nothing calls.
- Allocation failure (`malloc` returning NULL, then `exit(1)`) is not modelled. Allocation is `new`, and `free` is a node that is no longer reachable.
- The payload `void*` is a type parameter. Search returns `Option`, so a NULL payload is not confused with an absent key.
- Keys are unbounded integers. The keys are C `int`s, but the tree only compares them, so no overflow can arise there. The date identity is proved for all integers, so it covers every 32-bit value.
- The `printf` calls (the "not found" message of bptree_delete, the display calls of bptree_traverse) and all file and console I/O are left out.
- sell_car's `strcpy` record copying and its float commission and target updates are left out. The car record is the payload, unchanged.
- main.c, the loaders, the menu and the reports are application code around the tree and are not part of this model.
