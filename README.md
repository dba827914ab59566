# eXist node sets and value index, modelled in Dafny

This project models two components of the eXist XML database:

- **`ExtArrayNodeSet`**: a set of node references (`NodeProxy`: document id,
  node gid, storage address, node type), partitioned by document. Two
  slot-aligned arrays hold the document ids (kept strictly increasing and
  searched by binary search) and one `Part` per document. A `Part` is a
  growable array of entries. Entries are appended unsorted, with only the last
  entry checked for a duplicate gid. `sort` orders every part by gid and
  collapses duplicates. `sortInDocumentOrder` does the same by document order.
  After a sort, binary-search lookups, range extraction, the child-range scan
  and the ancestor walk are exact. The set also tracks:
  - the two sort flags;
  - a `size` that is exact only after a sort;
  - a change counter that wraps from `Integer.MAX_VALUE` to 0;
  - an item-type lattice.
- **`NativeValueIndex`**: the value index.
  - `storeText` converts the text of a node to an atomic value and buffers the
    node's occurrence under that value.
  - `flush` sorts each buffered list by gid and gap-encodes it as one posting
    segment (document id, count, then per entry the gid's difference from the
    previous gid and the address). It appends the segment to the store under
    the value's key, holding the write lock, and then clears the buffer.
  - `dropIndex(document)` rewrites every record of the collection without the
    document's segments.
  - `dropIndex(collection)` deletes the collection's key range.

Files:

- `wrappers.dfy`: `Option`.
- `node_proxies.dfy` (module `NodeProxies`): the entry datatype and the
  reference sort that stands for `FastQSort`. It also holds the duplicate
  collapse `Dedup` and its properties.
- `node_set_spec.dfy` (module `NodeSetSpec`): the abstract view of a node set.
  The view is a strictly increasing sequence of document ids plus, slot for
  slot, the entries of each part. The invariant `Coherent`, the effect of
  `add`, `remove` and the sorts on the view, the range and child-range
  results, the ancestor walk, the item-type lattice, the wrapping counter and
  array growth are all here.
- `ext_array_node_set.dfy` (module `ExtArrayNodeSets`): the classes `Part` and
  `ExtArrayNodeSet` over arrays. Every method is proved against the view.
- `postings.dfy` (module `Postings`): posting segments, the gap encoding and
  decoding, and the per-record filter used when a document is dropped.
- `native_value_index.dfy` (module `ValueIndexes`): the conversion to an atomic
  value, the buffer, the store (modelled by its contract), and the classes
  `ValueStore` and `NativeValueIndex` with flush and both drops. Each is
  specified by a function over the store's records.

Environment parameters. The model takes these as parameters rather than
computing them:

- the type system (string type, subtype test, typed conversion, whether a
  value is indexable);
- the node-id codec (parent id, tree level, child range), with parents
  numbered before their children;
- the document-order rank `rank(doc, gid)`: a node's position in the tree of
  its own document, injective within each document (two documents may order
  the same pair of gids differently);
- the fault conditions of the store: read-only, lock not obtainable, keys
  whose writes are refused or fail with an I/O error, and records whose
  decoding stops early.

A decode error during `dropIndex(document)` does not leave the key untouched.
The code keeps the segments it rebuilt before the error and, when the target
document had already been met, writes that truncated record back
(NativeValueIndex.java:247-260). `ValueIndexes.DropStep` models this, and
`ValueIndexes.DecodeErrorLosesSegments` shows a record that loses another
document's segment this way. An `IOException` from `put` reaches the outer
handler and ends the whole scan rather than only the current key; the model
does the same (`StepEnd.Abort`).

## Model

| member | source | states |
|---|---|---|
| NodeProxies.SortBySorted | src/org/exist/dom/ExtArrayNodeSet.java:546-548 | the sort used for a part (and for a buffered list) yields a sequence ordered by the key that is a permutation of its input |
| NodeProxies.DocOrderKeySeparates | src/org/exist/dom/ExtArrayNodeSet.java:550-552 | within one document, the document-order key gives two entries the same key exactly when they share a gid, since the rank is injective per document |
| NodeProxies.Dedup | src/org/exist/dom/ExtArrayNodeSet.java:700-710 | collapsing runs of equal gids never lengthens a part, keeps its first entry, and keeps the gid of its last entry |
| NodeProxies.DedupStep | src/org/exist/dom/ExtArrayNodeSet.java:702-707 | one step of the collapse: the next entry is kept exactly when its gid differs from the last kept one |
| NodeProxies.DedupMembers | src/org/exist/dom/ExtArrayNodeSet.java:700-710 | the collapse only drops entries and keeps every gid that was present |
| NodeProxies.DedupStrict | src/org/exist/dom/ExtArrayNodeSet.java:376-378 | collapsing a sorted part whose entries share one document leaves it strictly increasing by the sort key |
| NodeProxies.DistinctGidsCount | src/org/exist/dom/ExtArrayNodeSet.java:374-378 | a part without repeated gids has as many entries as distinct gids, which is why `size` is exact after a sort |
| NodeProxies.CanonProperties | src/org/exist/dom/ExtArrayNodeSet.java:376-378 | sort plus collapse of a part whose entries share one document: strictly increasing by the key, no gid twice, only original entries, every original gid kept, length equals the number of distinct gids |
| NodeSetSpec.InsertionPoint | src/org/exist/dom/ExtArrayNodeSet.java:108-113 | the slot where a missing document id goes: every id before it is smaller and the id at it is larger, as the binary search's `-(insertionPoint)-1` result encodes |
| NodeSetSpec.InsertionPointSplits | src/org/exist/dom/ExtArrayNodeSet.java:108-113 | in a strictly increasing id array every id from the insertion point on is at least the searched id |
| NodeSetSpec.InsertedIncreasing | src/org/exist/dom/ExtArrayNodeSet.java:137-148 | inserting a new document id at its insertion point keeps the id array strictly increasing |
| NodeSetSpec.PairedInsert | src/org/exist/dom/ExtArrayNodeSet.java:143-146 | shifting both arrays together keeps every part paired with its document id |
| NodeSetSpec.InsertEmptyPartCoherent | src/org/exist/dom/ExtArrayNodeSet.java:124-149 | inserting a new, empty part for a new document keeps the whole set's invariant |
| NodeSetSpec.AddKeepsShape | src/org/exist/dom/ExtArrayNodeSet.java:151-158 | after an add the document ids stay strictly increasing and each part holds only its document's entries |
| NodeSetSpec.AddMembership | src/org/exist/dom/ExtArrayNodeSet.java:151-158 | after an add, a (document, gid) pair is in the set exactly when it was before or it is the added entry |
| NodeSetSpec.AddCoherent | src/org/exist/dom/ExtArrayNodeSet.java:151-158 | an add keeps the invariant with `size` one larger and both sort flags cleared |
| NodeSetSpec.AddThroughEmptyPart | src/org/exist/dom/ExtArrayNodeSet.java:112-116 | creating the part and then appending to it is the same as adding to a set without that document |
| NodeSetSpec.AppendedGids | src/org/exist/dom/ExtArrayNodeSet.java:496-512 | a part's gids after `Part.add` are its old gids plus the added one, whether or not the last-entry check skipped it |
| NodeSetSpec.AppendInOrder | src/org/exist/dom/ExtArrayNodeSet.java:501-511 | appending a gid larger than the last one really appends and keeps the part strictly increasing |
| NodeSetSpec.WithoutProperties | src/org/exist/dom/ExtArrayNodeSet.java:690-692 | removing one entry keeps the order of the others, keeps distinct gids distinct and removes exactly that entry's gid |
| NodeSetSpec.RemoveCoherent | src/org/exist/dom/ExtArrayNodeSet.java:344-350 | removing an entry keeps the invariant although `size` and the sort flags are left as they were |
| NodeSetSpec.RemovedView | src/org/exist/dom/ExtArrayNodeSet.java:344-350 | on a sorted set, removing the entry with gid g leaves every (document, gid) pair except that one |
| NodeSetSpec.RemovalView | src/org/exist/dom/ExtArrayNodeSet.java:344-350 | whether or not the part's search finds the gid, the invariant holds afterwards, and on a sorted set exactly the pair (document, g) is gone |
| NodeSetSpec.AbsentFromPart | src/org/exist/dom/ExtArrayNodeSet.java:688-689 | a gid missing from its document's part is not in the set |
| NodeSetSpec.ReplacePartMembership | src/org/exist/dom/ExtArrayNodeSet.java:344-350 | replacing one part by one without gid g changes the set's membership by exactly that pair |
| NodeSetSpec.SameGidsSameMembers | src/org/exist/dom/ExtArrayNodeSet.java:375-379 | parts with unchanged gids give an unchanged set membership |
| NodeSetSpec.DocGidsMembership | src/org/exist/dom/ExtArrayNodeSet.java:237-240 | the gids of a document's part are exactly the gids the set holds for that document |
| NodeSetSpec.CanonView | src/org/exist/dom/ExtArrayNodeSet.java:375-379 | sorting and collapsing every part keeps the pairing and the membership and leaves every part strictly ordered without repeated gids |
| NodeSetSpec.SortedCoherent | src/org/exist/dom/ExtArrayNodeSet.java:369-384 | after `sort` the invariant holds with the sorted flag set and `size` equal to the number of entries, and the membership is unchanged |
| NodeSetSpec.DocOrderCoherent | src/org/exist/dom/ExtArrayNodeSet.java:386-401 | after `sortInDocumentOrder`, each part sorted by its own document's order, the invariant holds with only the document-order flag set and `size` exact, and the membership is unchanged |
| NodeSetSpec.CanonUpToStep | src/org/exist/dom/ExtArrayNodeSet.java:375-379 | sorting the part at slot i extends the prefix of sorted parts by one |
| NodeSetSpec.InRange | src/org/exist/dom/ExtArrayNodeSet.java:644-671 | the range extraction's result never has more entries than the part |
| NodeSetSpec.InRangeMembers | src/org/exist/dom/ExtArrayNodeSet.java:644-671 | an entry is in the range result exactly when it is in the part and `lower <= gid <= upper` |
| NodeSetSpec.InRangeStrict | src/org/exist/dom/ExtArrayNodeSet.java:667-669 | the range result of a strictly increasing part is in ascending gid order |
| NodeSetSpec.WindowBounds | src/org/exist/dom/ExtArrayNodeSet.java:665-667 | on a gid-sorted part, once the scan has backed up past the first entry in range and stopped at the first entry above it, the window holds exactly the in-range positions |
| NodeSetSpec.WindowIsInRange | src/org/exist/dom/ExtArrayNodeSet.java:667-669 | a window of exactly the in-range positions is the range result |
| NodeSetSpec.RangeViewMembers | src/org/exist/dom/ExtArrayNodeSet.java:644-671 | the result set of `getRange` holds exactly the pairs (document, g) with g in range and in the part |
| NodeSetSpec.RangeBuilt | src/org/exist/dom/ExtArrayNodeSet.java:667-669 | adding the range's entries one by one to a fresh set builds exactly the part's range as one part of one document |
| NodeSetSpec.ChildrenBuilt | src/org/exist/dom/ExtArrayNodeSet.java:621-640 | the set `getChildrenInSet` builds is the children in range (descendant mode), the parent alone (ancestor mode, if any child is present) or empty (other modes) |
| NodeSetSpec.BuiltOneDoc | src/org/exist/dom/ExtArrayNodeSet.java:667-669 | adding a strictly increasing run of one document's entries to a fresh set yields a single part holding the run |
| NodeSetSpec.BuiltRepeated | src/org/exist/dom/ExtArrayNodeSet.java:631-637 | adding the same parent once per child yields a set holding the parent once |
| NodeSetSpec.FlattenIndex | src/org/exist/dom/ExtArrayNodeSet.java:299-303 | position `pos` of the set falls in the part whose cumulative length first exceeds it, at offset `pos` minus the earlier parts' lengths |
| NodeSetSpec.ItemTypeLattice | src/org/exist/dom/ExtArrayNodeSet.java:177-184 | the recorded item type is ANY_TYPE for no items, the common type when all items share one, and NODE as soon as two differ |
| NodeSetSpec.NextState | src/org/exist/dom/ExtArrayNodeSet.java:190-193 | the counter stays within 0..MAX_VALUE and always changes |
| NodeSetSpec.StateAfterWraps | src/org/exist/dom/ExtArrayNodeSet.java:190-193 | after n changes the counter is the start plus n modulo 2^31 |
| NodeSetSpec.ChangeDetection | src/org/exist/dom/ExtArrayNodeSet.java:474-476 | `hasChanged` misses a change exactly when the number of changes since is a multiple of 2^31 |
| NodeSetSpec.DoublingFromZeroHasNoSlot | src/org/exist/dom/ExtArrayNodeSet.java:504-506 | growing a full part of capacity 0 by `length << 1` yields capacity 0 again |
| NodeSetSpec.NewCapacity | src/org/exist/dom/ExtArrayNodeSet.java:504-506 | the corrected growth is always larger than the full length, and is the doubling whenever the length is positive |
| NodeSetSpec.RemovedEntryReappears | src/org/exist/dom/ExtArrayNodeSet.java:700-710 | `removeDuplicates` on a part emptied by `remove` reports the removed entry again |
| NodeSetSpec.CollapseAddsNothing | src/org/exist/dom/ExtArrayNodeSet.java:700-710 | the corrected collapse never lengthens a part and never produces an entry that was not there |
| NodeSetSpec.FirstIn | src/org/exist/dom/ExtArrayNodeSet.java:572-581 | the walk's answer is an id of the walk present in the part, and there is none only when no id of the walk is present |
| ExtArrayNodeSets.Part.constructor | src/org/exist/dom/ExtArrayNodeSet.java:492-494 | a new part has the requested capacity and no entries |
| ExtArrayNodeSets.Part.Add | src/org/exist/dom/ExtArrayNodeSet.java:496-512 | the entries become the old ones plus `p`, unless the last entry has `p`'s gid; the array is kept or replaced by a larger copy |
| ExtArrayNodeSets.Part.At | src/org/exist/dom/ExtArrayNodeSet.java:518-520 | the entry at a live position |
| ExtArrayNodeSets.Part.Get | src/org/exist/dom/ExtArrayNodeSet.java:522-538 | a returned entry is in the part with the asked gid; on a gid-sorted part an entry is returned whenever the gid is present |
| ExtArrayNodeSets.Part.Contains | src/org/exist/dom/ExtArrayNodeSet.java:514-516 | true only for a present gid, and on a gid-sorted part exactly for present gids |
| ExtArrayNodeSets.Part.SortByKey | src/org/exist/dom/ExtArrayNodeSet.java:546-552 | the live entries are replaced in place by their sorted permutation |
| ExtArrayNodeSets.Part.RemoveDuplicates | src/org/exist/dom/ExtArrayNodeSet.java:700-710 | the live entries become their collapse, in place, and the new length is returned |
| ExtArrayNodeSets.Part.Canonicalize | src/org/exist/dom/ExtArrayNodeSet.java:376-378 | sort then collapse in place; the returned count is the new number of entries |
| ExtArrayNodeSets.Part.Remove | src/org/exist/dom/ExtArrayNodeSet.java:673-693 | nothing changes when the search misses; otherwise exactly one entry with the gid is removed and the tail shifted left; on a gid-sorted part the search misses exactly when the gid is absent |
| ExtArrayNodeSets.Part.Window | src/org/exist/dom/ExtArrayNodeSet.java:646-667 | the binary search and back-up scan give a window of entries not above `upper`; on a gid-sorted part, exactly the positions with `lower <= gid <= upper` |
| ExtArrayNodeSets.Part.GetRange | src/org/exist/dom/ExtArrayNodeSet.java:644-671 | every returned entry is in the part and not above `upper`; on a gid-sorted part the result is the range extraction |
| ExtArrayNodeSets.Part.GetChildrenInSet | src/org/exist/dom/ExtArrayNodeSet.java:593-642 | descendant mode adds the part's entries in the child range, ancestor mode adds the parent once per such entry, other modes add nothing |
| ExtArrayNodeSets.Part.ParentWithChild | src/org/exist/dom/ExtArrayNodeSet.java:565-584 | a result is in the part; on a gid-sorted part it is the first present id among the node itself (if `includeSelf`) and its ancestors (only the parent if `directParent`) |
| ExtArrayNodeSets.Part.AncestorIn | src/org/exist/dom/ExtArrayNodeSet.java:570-581 | the first ancestor present, looking only at the parent when `directParent` |
| ExtArrayNodeSets.Part.Climb | src/org/exist/dom/ExtArrayNodeSet.java:572-581 | the loop up the ancestor chain returns its first id present in the part |
| ExtArrayNodeSets.SearchGid | src/org/exist/dom/ExtArrayNodeSet.java:523-537 | a found position holds the gid; on sorted entries a miss means the gid is absent |
| ExtArrayNodeSets.SearchRange | src/org/exist/dom/ExtArrayNodeSet.java:646-663 | a found position is in range; on sorted entries a miss means no entry is in range |
| ExtArrayNodeSets.RemoveAt | src/org/exist/dom/ExtArrayNodeSet.java:690-692 | the shift left removes exactly the entry at `idx` and keeps the others in order |
| ExtArrayNodeSets.DedupInPlace | src/org/exist/dom/ExtArrayNodeSet.java:701-709 | the two-index loop leaves the collapse of the live entries at the front of the array |
| ExtArrayNodeSets.KeepIfNew | src/org/exist/dom/ExtArrayNodeSet.java:703-706 | one loop step extends the collapsed prefix by entry i, leaving the unread tail alone |
| ExtArrayNodeSets.Enlarged | src/org/exist/dom/ExtArrayNodeSet.java:504-510 | a fresh array of the grown capacity starting with a copy of the old one |
| ExtArrayNodeSets.InsertAt | src/org/exist/dom/ExtArrayNodeSet.java:137-147 | the value lands at `idx`, the tail moves right by one, and nothing beyond the live length changes |
| ExtArrayNodeSets.ShiftTables | src/org/exist/dom/ExtArrayNodeSet.java:137-147 | both arrays get the new document id and part at `idx`, each tail shifted together |
| ExtArrayNodeSets.ExtArrayNodeSet.constructor | src/org/exist/dom/ExtArrayNodeSet.java:85-89 | an empty, unsorted set with 64 document slots, default part size 128, counter 0 and item type ANY_TYPE |
| ExtArrayNodeSets.ExtArrayNodeSet.WithSizes | src/org/exist/dom/ExtArrayNodeSet.java:91-96 | an empty set with the given number of document slots and part size |
| ExtArrayNodeSets.ExtArrayNodeSet.WithArraySize | src/org/exist/dom/ExtArrayNodeSet.java:98-103 | an empty set with 64 document slots and the given part size |
| ExtArrayNodeSets.ExtArrayNodeSet.FindDoc | src/org/exist/dom/ExtArrayNodeSet.java:108 | the binary search returns the document's slot, or `-(insertion point) - 1` when it is absent |
| ExtArrayNodeSets.ExtArrayNodeSet.Lookup | src/org/exist/dom/ExtArrayNodeSet.java:105-118 | the part of the document, present exactly when the document is in the set |
| ExtArrayNodeSets.ExtArrayNodeSet.ContainsDoc | src/org/exist/dom/ExtArrayNodeSet.java:120-122 | true exactly when the document has a part |
| ExtArrayNodeSets.ExtArrayNodeSet.Grow | src/org/exist/dom/ExtArrayNodeSet.java:125-135 | both arrays are replaced by larger fresh copies with the same live contents |
| ExtArrayNodeSets.ExtArrayNodeSet.InsertPart | src/org/exist/dom/ExtArrayNodeSet.java:124-149 | the document id and its empty part go in at the insertion point, tails shifted, arrays grown when full, one more part, invariant kept |
| ExtArrayNodeSets.ExtArrayNodeSet.ShiftIn | src/org/exist/dom/ExtArrayNodeSet.java:137-148 | in place: the id and part at `idx`, tails shifted, `partCount` one larger |
| ExtArrayNodeSets.ExtArrayNodeSet.SetLayout | src/org/exist/dom/ExtArrayNodeSet.java:148 | records the new part count together with the view it stands for |
| ExtArrayNodeSets.ExtArrayNodeSet.GetPart | src/org/exist/dom/ExtArrayNodeSet.java:105-118 | the document's part; a missing document first gets a new empty part at its insertion point |
| ExtArrayNodeSets.ExtArrayNodeSet.CreatePart | src/org/exist/dom/ExtArrayNodeSet.java:112-116 | a new empty part is inserted for the missing document at its insertion point |
| ExtArrayNodeSets.ExtArrayNodeSet.AddToPart | src/org/exist/dom/ExtArrayNodeSet.java:152 | the entry is appended to the part at `slot` and no other part changes |
| ExtArrayNodeSets.ExtArrayNodeSet.SetHasChanged | src/org/exist/dom/ExtArrayNodeSet.java:190-193 | the counter advances by one, wrapping from MAX_VALUE to 0; nothing else changes |
| ExtArrayNodeSets.ExtArrayNodeSet.CheckItemType | src/org/exist/dom/ExtArrayNodeSet.java:177-184 | the item type joins the new type in the lattice |
| ExtArrayNodeSets.ExtArrayNodeSet.Add | src/org/exist/dom/ExtArrayNodeSet.java:151-158 | the entry is added to its document's part (created if needed), `size` grows by one, both sort flags clear, the counter advances and the item type joins the entry's type |
| ExtArrayNodeSets.ExtArrayNodeSet.AddWithHint | src/org/exist/dom/ExtArrayNodeSet.java:167-175 | as `add`, with the size hint used only for a newly created part |
| ExtArrayNodeSets.ExtArrayNodeSet.Place | src/org/exist/dom/ExtArrayNodeSet.java:168-169 | the entry reaches its document's part and the invariant holds for `size + 1` with the flags cleared |
| ExtArrayNodeSets.ExtArrayNodeSet.NoteAddition | src/org/exist/dom/ExtArrayNodeSet.java:170-174 | the bookkeeping of an add: `size`, flags, counter, item type |
| ExtArrayNodeSets.ExtArrayNodeSet.GetItemType | src/org/exist/dom/ExtArrayNodeSet.java:186-188 | the lattice value of all types added so far |
| ExtArrayNodeSets.ExtArrayNodeSet.HasChanged | src/org/exist/dom/ExtArrayNodeSet.java:474-476 | true exactly when the counter differs from the caller's |
| ExtArrayNodeSets.ExtArrayNodeSet.GetSizeHint | src/org/exist/dom/ExtArrayNodeSet.java:195-198 | the number of entries of the document's part, or -1 when it has none |
| ExtArrayNodeSets.ExtArrayNodeSet.GetAt | src/org/exist/dom/ExtArrayNodeSet.java:296-306 | the entry at position `pos` of the parts taken in slot order, or none past the end |
| ExtArrayNodeSets.ExtArrayNodeSet.Find | src/org/exist/dom/ExtArrayNodeSet.java:313-316 | a returned entry is in the document's part with the gid; on a sorted set one is returned whenever the pair is present |
| ExtArrayNodeSets.ExtArrayNodeSet.Contains | src/org/exist/dom/ExtArrayNodeSet.java:237-240 | true only for a present pair, and on a sorted set exactly for present pairs |
| ExtArrayNodeSets.ExtArrayNodeSet.GetRange | src/org/exist/dom/ExtArrayNodeSet.java:352-355 | for a document with a part: entries of that part not above `upper`; on a sorted set the result set is exactly that part's range |
| ExtArrayNodeSets.ExtArrayNodeSet.HasChildrenInSet | src/org/exist/dom/ExtArrayNodeSet.java:357-363 | empty for a document without a part; on a sorted set the children-in-range result of the part |
| ExtArrayNodeSets.ExtArrayNodeSet.Remove | src/org/exist/dom/ExtArrayNodeSet.java:344-350 | nothing for a document without a part; otherwise at most one entry with the gid leaves its part, the counter advances, `size` and the flags stay |
| ExtArrayNodeSets.ExtArrayNodeSet.RemoveFound | src/org/exist/dom/ExtArrayNodeSet.java:348-349 | removal from an existing part followed by the counter step |
| ExtArrayNodeSets.ExtArrayNodeSet.RemoveFromPart | src/org/exist/dom/ExtArrayNodeSet.java:348 | the part at `slot` loses at most one entry with the gid; no other part changes |
| ExtArrayNodeSets.ExtArrayNodeSet.NoteRemoval | src/org/exist/dom/ExtArrayNodeSet.java:349 | the counter advances; `size` and the flags are left as they were |
| ExtArrayNodeSets.ExtArrayNodeSet.Sort | src/org/exist/dom/ExtArrayNodeSet.java:369-384 | no change when already sorted; otherwise every part sorted by gid and collapsed, `size` exact, sorted flag set and document-order flag cleared; membership unchanged |
| ExtArrayNodeSets.ExtArrayNodeSet.SortInDocumentOrder | src/org/exist/dom/ExtArrayNodeSet.java:386-401 | no change when already in document order; otherwise every part sorted by the order of its own document (`rank(doc, gid)`) and collapsed, `size` exact, flags swapped; membership unchanged |
| ExtArrayNodeSets.ExtArrayNodeSet.SetOrder | src/org/exist/dom/ExtArrayNodeSet.java:380-381 | sets `size` and the two flags, nothing else |
| ExtArrayNodeSets.ExtArrayNodeSet.CanonParts | src/org/exist/dom/ExtArrayNodeSet.java:374-379 | the loop sorts and collapses every part and sums the new part lengths |
| ExtArrayNodeSets.ExtArrayNodeSet.CanonPart | src/org/exist/dom/ExtArrayNodeSet.java:376-378 | sorts and collapses the part at `slot` only, returning its new length |
| ExtArrayNodeSets.ExtArrayNodeSet.GetLength | src/org/exist/dom/ExtArrayNodeSet.java:274-278 | sorts unless either flag is set, then returns `size`, which is never below the number of entries and is exact when the sort ran |
| ExtArrayNodeSets.ExtArrayNodeSet.Get | src/org/exist/dom/ExtArrayNodeSet.java:323-327 | sorts first, so an entry is returned exactly when the pair was in the set |
| ExtArrayNodeSets.ExtArrayNodeSet.ParentWithChild | src/org/exist/dom/ExtArrayNodeSet.java:449-455 | sorts first, then returns the first present id of the walk in the document's part (none for a document without a part) |
| ExtArrayNodeSets.ExtArrayNodeSet.ParentInPart | src/org/exist/dom/ExtArrayNodeSet.java:453-454 | on a sorted set, the walk's first present id in the document's part |
| Postings.DecodeDeltas | src/org/exist/storage/NativeValueIndex.java:120-127 | summing the gaps the encoder writes gives back every gid and address |
| Postings.DeltasOfSums | src/org/exist/storage/NativeValueIndex.java:233-239 | re-encoding the running sums of any gap sequence gives the same gaps, so copying a segment's gaps verbatim keeps its meaning |
| Postings.SegmentRoundTrip | src/org/exist/storage/NativeValueIndex.java:115-127 | a flushed segment decodes to the buffered occurrences in gid order, and its count is the list's length |
| Postings.BufferOrderIrrelevant | src/org/exist/storage/NativeValueIndex.java:116 | buffering the same occurrences in another order writes the same segment |
| Postings.EncodeSegment | src/org/exist/storage/NativeValueIndex.java:117-127 | the encoding loop writes the document id, the count and the gaps from 0, and the result decodes to the sorted list |
| Postings.KeptMembers | src/org/exist/storage/NativeValueIndex.java:231-245 | the rebuilt record holds exactly the segments of other documents |
| Postings.KeptOthers | src/org/exist/storage/NativeValueIndex.java:231-240 | every other document's segments are kept unchanged and in their order |
| Postings.KeptDropsAll | src/org/exist/storage/NativeValueIndex.java:241-245 | no segment of the dropped document is left |
| Postings.KeptIdentity | src/org/exist/storage/NativeValueIndex.java:228-245 | a record without the document rebuilds to itself |
| Postings.KeptIdempotent | src/org/exist/storage/NativeValueIndex.java:228-245 | dropping a document twice is dropping it once |
| ValueIndexes.ConvertToAtomic | src/org/exist/storage/NativeValueIndex.java:276-295 | under a string subtype the text itself, otherwise its typed conversion; nothing when the conversion fails or the value is not indexable, and only indexable values come back |
| ValueIndexes.Buffered | src/org/exist/storage/NativeValueIndex.java:79-91 | a text without a key leaves the buffer as it was; otherwise the occurrence is appended to its value's list (a new key gets a one-element list) and every other list is unchanged |
| ValueIndexes.BufferCollects | src/org/exist/storage/NativeValueIndex.java:79-91 | after a run of text nodes, each value lists exactly the occurrences whose text converts to it, in arrival order, and only such values are keys |
| ValueIndexes.Enumerate | src/org/exist/storage/NativeValueIndex.java:111 | lists every buffered value exactly once |
| ValueIndexes.ValueStore.Acquire | src/org/exist/storage/NativeValueIndex.java:130 | the write lock is taken unless it cannot be obtained |
| ValueIndexes.ValueStore.Release | src/org/exist/storage/NativeValueIndex.java:140 | the lock is given up on every path; records unchanged |
| ValueIndexes.ValueStore.Append | src/org/exist/storage/NativeValueIndex.java:131 | a written append adds the segment at the end of the key's record; a refused or failed one changes nothing |
| ValueIndexes.ValueStore.Put | src/org/exist/storage/NativeValueIndex.java:255 | a written put replaces the key's record; a refused or failed one changes nothing |
| ValueIndexes.ValueStore.Get | src/org/exist/storage/NativeValueIndex.java:222 | the record stored under the key |
| ValueIndexes.ValueStore.FindKeys | src/org/exist/storage/NativeValueIndex.java:204 | every key of the collection, once each |
| ValueIndexes.ValueStore.RemoveAll | src/org/exist/storage/NativeValueIndex.java:178 | every key of the collection is removed, the others kept |
| ValueIndexes.FlushedOverAt | src/org/exist/storage/NativeValueIndex.java:111-142 | after flushing the listed values, a key holds its old record plus the document's segment exactly when its value was flushed and its append went through |
| ValueIndexes.FlushedRecords | src/org/exist/storage/NativeValueIndex.java:111-142 | for any visiting order, each written value's key ends with one new segment that decodes to its sorted occurrences and counts them; every other key keeps its record |
| ValueIndexes.WithoutCollection | src/org/exist/storage/NativeValueIndex.java:171-188 | the records without the collection's keys, every other record unchanged |
| ValueIndexes.ScanLimit | src/org/exist/storage/NativeValueIndex.java:247-253 | a decode error leaves only a prefix of the record's segments read |
| ValueIndexes.DropPassFrame | src/org/exist/storage/NativeValueIndex.java:220-261 | the document drop never adds or removes a key and changes only keys it scans |
| ValueIndexes.DropPassClean | src/org/exist/storage/NativeValueIndex.java:220-261 | without faults every scanned record loses exactly the document's segments and no error is raised |
| ValueIndexes.DropRemovesOnlyTarget | src/org/exist/storage/NativeValueIndex.java:220-261 | without faults no scanned record mentions the document afterwards, and every other document's segments are kept in order |
| ValueIndexes.DropPassReadOnly | src/org/exist/storage/NativeValueIndex.java:254-255 | on a read-only store the drop writes nothing and raises exactly when some scanned record holds a segment of the document |
| ValueIndexes.DecodeErrorLosesSegments | src/org/exist/storage/NativeValueIndex.java:247-260 | a record whose decoding stops after the target's segment is written back empty, losing a later segment of another document |
| ValueIndexes.ScanRecord | src/org/exist/storage/NativeValueIndex.java:228-246 | the decoding loop rebuilds the read segments without the target's and reports whether the target was met |
| ValueIndexes.KeptSnoc | src/org/exist/storage/NativeValueIndex.java:228-246 | reading one more segment extends the rebuilt record by it unless it is the target's |
| ValueIndexes.NativeValueIndex.constructor | src/org/exist/storage/NativeValueIndex.java:74-77 | an empty buffer over the given store |
| ValueIndexes.NativeValueIndex.StoreText | src/org/exist/storage/NativeValueIndex.java:79-91 | the buffer becomes `Buffered` of the old one, so it keeps holding no empty list |
| ValueIndexes.NativeValueIndex.SetDocument | src/org/exist/storage/NativeValueIndex.java:93-95 | sets the current document and nothing else |
| ValueIndexes.NativeValueIndex.PendingKeys | src/org/exist/storage/NativeValueIndex.java:111 | the buffered values, each once |
| ValueIndexes.NativeValueIndex.Flush | src/org/exist/storage/NativeValueIndex.java:97-148 | an empty buffer is a no-op; a read-only store stops at the first append, leaving the store as it was and the buffer uncleared (only its first list sorted); otherwise every written value gets its segment and the buffer is cleared even if some appends failed; the lock is free afterwards |
| ValueIndexes.NativeValueIndex.FlushValues | src/org/exist/storage/NativeValueIndex.java:111-146 | the loop over the buffered values builds the records `FlushedOver` describes, or stops at the first append on a read-only store |
| ValueIndexes.NativeValueIndex.FlushValue | src/org/exist/storage/NativeValueIndex.java:113-141 | the value's list is sorted in place and its segment appended under its key when the lock is obtained and the store accepts; the lock is released on every path |
| ValueIndexes.NativeValueIndex.Sync | src/org/exist/storage/NativeValueIndex.java:150-164 | takes and releases the lock and leaves the records unchanged |
| ValueIndexes.NativeValueIndex.DropCollection | src/org/exist/storage/NativeValueIndex.java:171-188 | every key of the collection is removed unless the lock cannot be obtained; the lock is free afterwards |
| ValueIndexes.NativeValueIndex.DropDocument | src/org/exist/storage/NativeValueIndex.java:196-274 | with the lock, every key of the collection is scanned and rewritten as `DropPass` describes, raising the read-only error when met; without it nothing changes; the lock is free afterwards |
| ValueIndexes.NativeValueIndex.DropKeys | src/org/exist/storage/NativeValueIndex.java:220-261 | the loop over the found keys ends in the state `DropPass` gives, stopping at an I/O error or the read-only error |
| ValueIndexes.NativeValueIndex.DropKey | src/org/exist/storage/NativeValueIndex.java:221-260 | one key: read, rebuild from the segments that decode, and write back only when the target was met |

## Left out

- Integer widths: `size`, `length`, the doubled capacities and the gids are unbounded integers. Java `int`/`long` overflow is not modelled. The change counter's wrap-around is modelled explicitly.
- `getPart`'s `lastDoc`/`lastPart` fast path is left out: `lastDoc` stays -1 and `lastPart` stays null, so the path is never taken and `getPart` is the binary search alone.
- `FastQSort` and `DocumentOrderComparator` are modelled by a reference sort (`NodeProxies.SortBy`, insertion into a sorted sequence) over a key. Document order is a rank `rank(doc, gid)` that is injective within each document and is applied to each part with that part's own document id. The array is rewritten from that sequence, so the quicksort's own swap sequence is not modelled.
- `ArrayUtils.binarySearch` is not part of this model. `FindDoc` implements a binary search with the same `-(insertionPoint)-1` result convention.
- `Arrays.fill(documentIds, -1)` on the old id array during growth is not modelled: that array is no longer referenced afterwards.
- `getChildrenInSet` and `getRange` results are modelled by the sequence of entries they add and by the set view those adds build (`Built`). The context and match annotations (`addContextNode`, `copyContext`, `addMatches`, `setSelfAsContext`), the `rememberContext` flag and the result set's initial capacity are not modelled.
- `XMLUtil.getParentId`, `XMLUtil.getChildRange` and `doc.getTreeLevel` are parameters (`TreeCodec`). Parents are assumed to be numbered before their children (`ParentsPrecede`), which makes the ancestor walk end.
- `contains(NodeProxy)`, `get(NodeProxy)` and `get(DocumentImpl, long)` share the models `Contains`, `Find` and `Get`. `addAll`, `item`, `itemAt`, the iterators, the `select*` methods, `getDocumentSet` and `getState` are not modelled: they delegate to classes that are not part of this model or only read a field.
- ExtArrayNodeSets.Part.Get: on a part not sorted by gid, only soundness is stated (a returned entry has the gid). Which entry the binary search meets, or whether it misses, is not.
- ExtArrayNodeSets.Part.Window: on a part not sorted by gid, only the bounds and "not above `upper`" are stated.
- ExtArrayNodeSets.Part.Remove: on a part not sorted by gid, only "at most one entry with the gid is removed" is stated, not which one.
- ExtArrayNodeSets.ExtArrayNodeSet.GetRange: `requires docId in Docs` leaves out the source's call on a missing part (ExtArrayNodeSet.java:353-354), which throws a `NullPointerException`.
- ExtArrayNodeSets.ExtArrayNodeSet.Remove: the removed position is reported through a ghost out-parameter; the source returns nothing.
- `Part.removeDuplicates` and array growth follow the corrected definitions under Findings. The model therefore does not reproduce the length-1 resurrection or the capacity-0 failure in its classes; those behaviours exist only in the as-written members.
- The `NodeProxy` object identity and its `DocumentImpl` are reduced to the datatype fields (document id, gid, address, node type).
- Byte encodings are not modelled: `VariableByteOutputStream`, `VariableByteArrayInput`, `StorageAddress` and `Indexable.serialize`. A segment is a field sequence (document id, count, gap/address pairs), and a store key is (collection id, value).
- The `len*4` skip in `dropIndex(document)` is assumed to skip exactly the target's segment. A decode error is modelled as the record's segments being read only up to a whole-segment prefix (`Faults.scanFault`); an error in the middle of a segment is not distinguished from one at its start.
- The store (`BFile`) is modelled by its contract in `ValueStore`. Which keys are read-only, locked, refused or failing is fixed by `Faults`. `findKeys` and `removeAll` are modelled as not failing. The `ReadOnlyException` is assumed to be thrown by `append`/`put` on a read-only store, and is modelled as the `ReadOnly` outcome.
- The `ElementValue` collection prefix is assumed to match exactly the keys written with that collection id.
- `db.get` returning null for a found key, and `TerminatedException`, are not modelled.
- The `TreeMap` order of the buffered values is not modelled. `Flush` visits them in some listing (`Enumerate`), and `FlushedRecords` shows that the result does not depend on the listing.
- `sync`'s `db.flush()` to disk is not modelled: `Sync` only takes and releases the lock.
- Logging is not modelled.
- `AtomicValue` equality stands for the `TreeMap` comparison of values (`compareTo`).
- `ValueIndexes.NativeValueIndex.DropDocument`: the keys scanned are returned as a ghost out-parameter so that the contract can name them; the source returns nothing.
- The `doc` field of `NativeValueIndex` is required to be set before `flush` is called on a non-empty buffer; the source would throw a `NullPointerException` otherwise.

## Findings

| source | as written | input that shows it | evidently intended | confidence | as-written member | corrected member |
|---|---|---|---|---|---|---|
| src/org/exist/dom/ExtArrayNodeSet.java:504-511 | a full part grows to `length << 1` | a part created with size hint 0 (`add(proxy, 0)` or `new ExtArrayNodeSet(0)`): capacity 0 stays 0 and `array[0] = p` is out of bounds; `insertPart` (ExtArrayNodeSet.java:125-135) doubles the document arrays the same way, so after `new ExtArrayNodeSet(0, n)` the first part cannot be stored | grow to at least one slot | not executed | NodeSetSpec.DoublingFromZeroHasNoSlot | NodeSetSpec.NewCapacity |
| src/org/exist/dom/ExtArrayNodeSet.java:700-710 | `removeDuplicates` sets `length = ++j` even when the part is empty | add p, `remove(p)`, then `sort()`: the part's length becomes 1 and the removed p (still in `array[0]`) is back, counted in `size` | an empty part stays empty | not executed | NodeSetSpec.RemovedEntryReappears | NodeSetSpec.CollapseAddsNothing |
