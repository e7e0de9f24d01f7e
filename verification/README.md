# F4OS: proofs about its device tree library, allocators and kernel

A Dafny model of the parts of F4OS whose correctness is least visible from any one function, with
proofs over all inputs and all runs. `dafny verify dfyconfig.toml` checks everything.

**Flattened device trees** (`Fdt*.dfy`; Devicetree Specification v0.4, sections 5.2 to 5.6). A blob
(`FdtBlob`) is a buffer of bytes and header fields that the methods change in place. What a structure block
holds is described three times: as bytes, as a list of items with offsets (`FdtFormat`), and as a tree
(`FdtTree`); the lemmas go from one to the next and back. `FdtWalk` has the tag walks over any block, well formed or
not, and when they end; `FdtRead` and `FdtTraverse` have the readers over items,
`FdtWrite` and `FdtSerialize` the sequential writer and its round trip, `FdtEdit` the editor,
`FdtTreeEdit` and `FdtLaws` what an edit does to the tree and to later lookups, `FdtInPlace` the NOP
edits, `FdtPack` the packing, `FdtPath` the two path functions, `FdtAliases` paths that
start with an alias and when following them ends, and `FdtNames` when the path functions are inverse. A method's ghost argument `items` names
the items that the blob holds; it is never read by the code.

**Buddy allocator** (`Bits`, `BuddyHeap`, `BuddyLists`, `BuddyAllocator`). Heap memory is a map from addresses to
nodes, lists are singly linked through it, and the class changes heads, links and headers as the code does. The
abstract heap is two sets of blocks. The one fact about free blocks that everything rests on is that they are the
maximal wholly free windows, and so a function of the live blocks.

**Scheduler and mutexes** (`TaskLists`, `Placement`, `Scheduler`, `Events`, `MutexCalls`, `Crossing`). Rings of linked nodes refine
sequences of tasks. Each tick and service call is one atomic step. `Events` says on snapshots of the state what each
event does; `System.Run` takes an arbitrary list of events, keeps one invariant over lists, locks, tables of held mutexes
and recorded waits, and gives the trace of states. The kernel task's loop is a step of its own for each place of a dead
task's table, so that anything may happen in between.

**Reentrant mutex** (`Reentrant`). Every statement of the two functions is a step, every interleaving of any number of
tasks is a run, and each run refines an abstract reentrant lock.

**Bitmap allocator** (`BitWords`, `BitmapAllocator`). Words as numbers with `&`, `|`, `~` and shifts by bits, the array of
blocks changed in place, and live allocations as a map from first grain to length.

Where code and comments or expectations differ, the model follows the code:

- The comment in `kernel/sched/sched_switch.c:33-37` that the runnable list is kept sorted is false
  (`SortedListUnsorted`); `PlacementSorts` says exactly when placing a task keeps a list sorted.
- A periodic task wakes every period + 1 ticks (`WakesEvery`).
- `fdt_next_tag` does not advance in one case only, a property length field of 2^32 - 12 (`NextTagProgress`); the
  loops over tags fail to end exactly when they reach such a property (`NodeWalkForEver`, `EndWalkForEver`), as on the
  block of `StuckBlockSticks`.
- `fdt_add_subnode` is documented to return BADOFFSET for a bad parent. For the parent -1, which is what a lookup
  returns that finds nothing, it writes the node before the structure block instead (`AddSubnode`, `AddUnchecked`).
- A cycle of two waiting tasks goes undetected when the first of them was not recorded (`CrossedAcquire`), as in the
  run of `Crossing`.
- `fdt_path_offset` does not return if and only if it reaches an alias twice (`ReturnsIffNoneTwice`), as in the tree of
  `SelfForEver`.
- `_fdt_grab_space` compares with a difference that may be negative, as an unsigned number. Its test for room is right
  if and only if the strings fit behind the start of the structure block (`RightIffSound`). A buffer of 40 to 47 bytes,
  for which `fdt_create` returns 0, is one for which they do not: the writer's calls then write behind the buffer
  (`SmallBufferStrays`). `_fdt_find_add_string` has such a comparison too: a new name that is longer than all that lies
  in front of the strings is written there, over the header and in front of the buffer (`SoundPropertyCode`).
  A write outside of the buffer is the outcome `STRAY`.
- `fdt_add_reservemap_entry` takes entries of size zero, which end the map for its readers (`MapReserves`).
- `_fdt_blocks_misordered` adds offsets and sizes in 32 bits; of blocks inside the buffer it says what it should
  (`ReadyPasses`).
- `fdt_get_property` does not find a property that stands behind a node of its own node, which the format forbids
  (`LookupInTree`, `HiddenProperty`).
- `fdt_property` can fail and leave its name behind in the strings block; `fdt_setprop` too. Neither changes what the
  blob means (`AddProperty`, `SetProp`).
- `fdt_path_offset` of a node's own path leads elsewhere exactly when some name on the way is empty or finds
  an earlier sibling (`PathLeadsBackExactly`); the round trip `ThereAndBack` is proved for all other nodes, and
  `AllPathsLeadBack` says for which trees it holds throughout; `PathLeadsElsewhere` has the smallest that it fails for.
- The scan of the bitmap allocator includes block `hlen`, so a heap needs more blocks than that.

## Model

| member | source | states |
|---|---|---|
| FdtFormat.NextTagProgress | lib/libfdt/fdt.c:93-141 | On every structure block, well formed or not, an aligned offset gives FDT_END with one of three results, or one of four tags with an aligned offset not before the start; it stays where it is if and only if the tag is a property whose length field is 2^32 - 12 |
| FdtFormat.ReadItemIffSits | lib/libfdt/fdt.c:93-141 | Delimiting an item as the tag reader does and having that item's bytes in the block are the same thing, and the tag reader then returns the item's tag and the offset behind its padding |
| FdtFormat.WalkIsItems | lib/libfdt/fdt.c:93-141 | Walking a well-formed block visits its items in order, then FDT_END |
| FdtFormat.ParseIffLayout | lib/libfdt/fdt.c:93-141 | Parsing a block yields a list of items exactly when the block is laid out as that list |
| FdtFormat.SpliceLayout | lib/libfdt/fdt_rw.c:97-135 | Replacing the bytes of items i to j by the bytes of other items replaces the items and no other, whatever moved |
| FdtFormat.OffsetOkMeans | lib/libfdt/fdt.c:77-91 | The wrapping 32-bit bounds test accepts exactly the ranges that are non-negative and inside the block |
| FdtWalk.ReadTag | lib/libfdt/fdt.c:93-141 | The loop-and-switch tag reader over the buffer returns exactly the specified tag and next offset, errors and wrap-around included, from every offset of every block |
| FdtWalk.NodeCodeProgress | lib/libfdt/fdt.c:143-150 | On every block and for every offset the node check gives BADOFFSET or an aligned later offset inside the block |
| FdtRead.NodeCodeIs | lib/libfdt/fdt.c:143-150 | On an item boundary of a well-formed block it gives the offset behind the tag of a node, and BADOFFSET for any other item |
| FdtWalk.WalkNode | lib/libfdt/fdt.c:161-199 | On every block, well formed or not, and from every offset, negative ones included: whenever the walk ends, the loop returns its stopping place and leaves its depth, with NOTFOUND, TRUNCATED or BADSTRUCTURE where the tags run out |
| FdtWalk.NodeWalkProgress | lib/libfdt/fdt.c:161-199 | On every block the result is a later aligned offset inside the block, which is that of a node unless the level was left, or one of four errors |
| FdtWalk.EndedMeans | lib/libfdt/fdt.c:161-199 | On every block a walk that runs out of tags does so at a readable FDT_END, with NOTFOUND, or where no tag can be read, with the tag reader's own error |
| FdtWalk.WalkForEver | lib/libfdt/fdt.c:161-199 | A walk goes on for ever if and only if stepping from tag to tag reaches a stuck property before a tag that stops it; that is, if and only if it is still under way after every number of turns |
| FdtWalk.NodeWalkForEver | lib/libfdt/fdt.c:161-199 | So the node walk fails to return exactly when the tags behind the node, or from the start, lead to a stuck property first |
| FdtWalk.WalksEnd | lib/libfdt/fdt.c:161-199 | On a block with no stuck property at an aligned offset, the node walk and the search for a node's end return from every offset |
| FdtWalk.StuckBlockSticks | lib/libfdt/fdt.c:118-139 | The shortest block on which it fails: a single property of 12 bytes, which the tag reader returns to and the node walk never leaves |
| FdtRead.WalkIsScan | lib/libfdt/fdt.c:161-199 | On a well-formed block the walk is the search of the items: the next node with its depth, the place behind the closing tag, or NOTFOUND |
| FdtRead.FirstSubnode | lib/libfdt/fdt.c:201-210 | The first node one level down before the level is left, or NOTFOUND |
| FdtRead.NextSubnode | lib/libfdt/fdt.c:212-227 | The next node on the same level, or NOTFOUND |
| FdtRead.SubnodeOffset | lib/libfdt/fdt_ro.c:132-149 | A negative offset is returned as it is; otherwise the first child whose name matches the key (exactly, or up to the unit address when the key has none); NOTFOUND or BADOFFSET if there is none |
| FdtRead.NodenameEq | lib/libfdt/fdt_ro.c:58-76 | Equals name matching on the node's own name, although the code compares raw bytes that may run past it |
| FdtTraverse.MatchesIsStem | lib/libfdt/fdt_ro.c:58-76 | A key without a unit address matches exactly the names whose part before the first @ it is; a key with one matches that name only |
| FdtWalk.WalkProp | lib/libfdt/fdt_ro.c:108-130 | Ends on every block and from every offset, stuck properties included, and returns what the specification says |
| FdtWalk.PropWalkIs | lib/libfdt/fdt_ro.c:108-130 | On every block: only NOPs are passed, and the first other tag decides between its offset, NOTFOUND, BADSTRUCTURE and TRUNCATED |
| FdtRead.PropWalkIsNops | lib/libfdt/fdt_ro.c:108-130 | On a well-formed block: the next property behind NOPs, NOTFOUND before a node or an end tag, BADSTRUCTURE at the end of the block |
| FdtRead.GetProperty | lib/libfdt/fdt_ro.c:260-282 | Offset and value length of the node's first property of that name, or the error code that says why there is none |
| FdtStrings.FindPropIsFirst | lib/libfdt/fdt_ro.c:260-282 | What is found is preceded only by NOPs and properties of other names |
| FdtStrings.FindPropIs | lib/libfdt/fdt_ro.c:260-282 | None is found if and only if a node or an end tag comes before any property of the name; the search runs off the items if and only if they are all NOPs and properties of other names; otherwise the first of the name is found |
| FdtLaws.LookupInTree | lib/libfdt/fdt_ro.c:260-282 | In a tree: NOTFOUND if and only if no property of the name stands before the node's own nodes, and never another error; with properties first, as the format asks, if and only if none stands directly in the node |
| FdtLaws.HiddenProperty | lib/libfdt/fdt_ro.c:260-282 | A tree with a property behind a node, which the search does not find |
| FdtRead.StringEq | lib/libfdt/fdt_ro.c:83-89 | True exactly when the string at the offset of the strings block is the name |
| FdtWrite.FindString | lib/libfdt/fdt.c:229-239 | The first place where the string with its NUL stands; a negative number if and only if it stands nowhere |
| FdtRead.SupernodeAtDepth | lib/libfdt/fdt_ro.c:409-443 | Returns the one ancestor at the wanted depth and the node's own depth; NOTFOUND exactly when the depth is out of range |
| FdtRead.NodeDepth | lib/libfdt/fdt_ro.c:445-454 | The number of nodes open at the node, which is its depth in the tree |
| FdtRead.ParentOffset | lib/libfdt/fdt_ro.c:456-464 | The offset of the ancestor one level up for every node but the root, NOTFOUND for the root |
| FdtWalk.WalkToEnd | lib/libfdt/fdt_wip.c:97-105 | On every block and from every offset: whenever the repeated node walk ends, the loop returns its result, negative offsets as they are |
| FdtWalk.EndWalkIs | lib/libfdt/fdt_wip.c:97-105 | Repeating the node walk is one walk through every tag from the node's own on, until its level is left or a tag stops it; of any other offset it is BADOFFSET |
| FdtWalk.EndWalkForEver | lib/libfdt/fdt_wip.c:97-105 | It fails to return exactly when that walk reaches a stuck property first |
| FdtRead.WalkIsClose | lib/libfdt/fdt_wip.c:97-105 | On a well-formed block it ends behind the node's own end tag, or with NOTFOUND |
| FdtTraverse.LastAtIsAncestor | lib/libfdt/fdt_ro.c:409-443 | The last node seen at a depth is the ancestor there, for every node of the tree |
| FdtTraverse.AncestorUnique | lib/libfdt/fdt_ro.c:409-443 | There is only one ancestor at each depth |
| FdtTraverse.ScanTowardsClose | lib/libfdt/fdt.c:161-199 | Repeating the walk until the depth is negative finds the matching end tag |
| FdtTree.ChildrenEnumerated | lib/libfdt/fdt.c:201-227 | First-subnode and then next-subnode, again and again, give exactly the direct children of the tree, in order, and then nothing |
| FdtTree.ChildAfter | lib/libfdt/fdt.c:212-227 | From each direct child the next-subnode search finds the next direct child, and nothing behind the last |
| FdtTree.NamedIsChild | lib/libfdt/fdt_ro.c:132-149 | Search by name on the flat block is search among the direct children of the tree only |
| FdtLaws.EndInTree | lib/libfdt/fdt_wip.c:97-105 | The search for the end of a node of a tree gives the offset behind its own end tag and no error |
| FdtTree.ParentOfChild | lib/libfdt/fdt_ro.c:456-464 | The node a child hangs under in the tree is its ancestor one level up |
| FdtTree.NodeEnds | lib/libfdt/fdt_wip.c:97-105 | The search for the end of a node passes its whole subtree and stops behind its own end tag |
| FdtTree.ClosedIsForest | lib/libfdt/fdt_wip.c:97-105 | Conversely, whatever the search for the end runs over is a well-formed subtree |
| FdtWrite.Create | lib/libfdt/fdt_sw.c:88-108 | NOSPACE exactly below the header size, changing nothing; otherwise an empty unfinished blob with every byte behind the header zero, which is sound if and only if the buffer has 48 bytes |
| FdtWrite.AddReserveEntry | lib/libfdt/fdt_sw.c:110-131 | BADMAGIC, BADSTATE, NOSPACE or 0 with their exact conditions; on success the 16 bytes at the end of the map are the entry and no others change, and the blob stays a good one if and only if the entry does not reach a name that a failed property call left behind |
| FdtWrite.Put64Words | lib/libfdt/fdt_sw.c:123-126 | The 64-bit numbers of an entry are two big-endian words, the more significant first |
| FdtWrite.GrabSpace | lib/libfdt/fdt_sw.c:73-86 | Null exactly when the grown block exceeds the room left, a difference converted to an unsigned number; on a sound blob that is when structure and strings would meet; otherwise the block grows by the length at its end and the strings stay |
| FdtWrite.RightIffSound | lib/libfdt/fdt_sw.c:73-86 | The test for room is right about every length if and only if the blob is sound, that is, the strings fit behind the start of the structure block |
| FdtWrite.SmallBufferStrays | lib/libfdt/fdt_sw.c:73-108 | The shortest unsound blobs: after creation in 40 to 47 bytes every test for room passes and every tag is written behind the buffer |
| FdtWrite.Put | lib/libfdt/fdt_sw.c:73-86 | Grabbing room and writing into it, on sound blobs and others: BADMAGIC apart, NOSPACE, success or a write outside of the buffer with their exact conditions; the bytes are put at the end of the structure block and no others change; on a sound blob nothing is written outside, and map and strings stay |
| FdtWrite.AddBeginNode | lib/libfdt/fdt_sw.c:138-152 | BADMAGIC, NOSPACE, success, or a write outside of the buffer, with their exact conditions for every started blob; a sound one never strays and succeeds exactly when tag and padded name fit, and then the calls recorded in it grow by this one and the block by exactly its size; a failed call changes nothing |
| FdtWrite.AddEndNode | lib/libfdt/fdt_sw.c:154-166 | The same for the end tag |
| FdtWrite.FindAddString | lib/libfdt/fdt_sw.c:168-189 | The negative offset, counted from the buffer's end, of a string that reads back as the name; added in front of the table only when it was not there; 0 exactly when it is new, not longer than the bytes in front of the table, and there is no room; outside of the buffer exactly when it is new and longer |
| FdtWrite.AddProperty | lib/libfdt/fdt_sw.c:191-211 | The exact outcome for every started blob; on a sound one it succeeds exactly when the property and, if new, its name fit, and records the call; a failure leaves structure and recorded calls as they were |
| FdtWrite.SoundPropertyCode | lib/libfdt/fdt_sw.c:191-211 | On a sound blob the call writes outside of the buffer if and only if its name is new and longer than all the bytes in front of the strings |
| FdtWrite.RecordsGrow | lib/libfdt/fdt_sw.c:168-189 | Strings added in front leave every negative offset recorded earlier good |
| FdtWrite.CorrectOffsets | lib/libfdt/fdt_sw.c:235-250 | The tag walk rewrites the name offset of every property, and of nothing else |
| FdtWrite.MoveStrings | lib/libfdt/fdt_sw.c:229-233 | The overlapping move down brings the string table whole to the end of the structure block |
| FdtWrite.RecordsMean | lib/libfdt/fdt_sw.c:213-256 | With all negative offsets relocated, the items say what the calls said, one for one |
| FdtWrite.Finish | lib/libfdt/fdt_sw.c:213-256 | The exact outcome: BADMAGIC, NOSPACE, a write outside of the buffer on every unsound blob with room for the tag by the unsigned test; on a sound blob it succeeds exactly when the end tag fits, and the finished blob holds one item for each call made, in order, with the same names, values and looked-up property names, and no other item |
| FdtSerialize.WriteAll | lib/libfdt/fdt_sw.c:138-211 | All calls succeed exactly when there is room for all; otherwise it stops at the first for which there is no room, and exactly the calls before it are recorded; whether that call fails or strays is decided by its name |
| FdtSerialize.StraysFirst | lib/libfdt/fdt_sw.c:168-211 | A call that strays is the first for which there is no room, so at most one does |
| FdtSerialize.NamesFitNoneStrays | lib/libfdt/fdt_sw.c:168-211 | No call strays when the different names together fit in the buffer |
| FdtSerialize.LongNameStrays | lib/libfdt/fdt_sw.c:168-211 | The simplest run that strays: a first property whose name is as long as the buffer |
| FdtSerialize.Begin | lib/libfdt/fdt_sw.c:88-136 | Creation, any list of reservations, empty ones included, and the closing of the map succeed exactly when the closed map fits in the buffer, with NOSPACE otherwise, and leave exactly those entries and the empty one |
| FdtSerialize.MapReserves | lib/libfdt/fdt_sw.c:110-136 | The written map reads back as the entries before the first of size zero; it is the map asked for if and only if there is none of size zero |
| FdtSerialize.Serialize | lib/libfdt/fdt_sw.c:73-256 | Round trip: for all lists of reservations and all sequences of calls, everything returns 0 if and only if the buffer holds the computed size, strays if and only if some call does, and is NOSPACE otherwise; on success the block parses to one item for each call, reading tag after tag gives exactly the tags of the calls in order and FDT_END, names and values are those of the calls, the entries of the reservation map are those asked for and are read up to the first of size zero, so that the map is the one asked for if and only if there is none, and the editor accepts the blob |
| FdtSerialize.SpelledReads | lib/libfdt/fdt.c:93-141 | The k-th tag read from the start is that of the k-th call, and then comes FDT_END |
| FdtSerialize.UsedGrows | lib/libfdt/fdt_sw.c:138-211 | No call gives space back, so running out once is running out for good |
| FdtSerialize.SecondNameFree | lib/libfdt/fdt_sw.c:168-211 | A property whose name has been used by any earlier call adds nothing to the strings, and takes room for itself only |
| FdtSerialize.NamesStand | lib/libfdt/fdt_sw.c:168-189 | Every name used by a call stands in the strings block |
| FdtEdit.RwCheckHeader | lib/libfdt/fdt_rw.c:58-83 | BADMAGIC, BADSTATE and BADVERSION with their exact conditions on magic, versions and structure size; of blocks inside the buffer, BADLAYOUT if they are out of order and 0 if not; on success the version becomes 17 and no block changes |
| FdtEdit.ReadyPasses | lib/libfdt/fdt_rw.c:58-83 | For a finished blob in its buffer, the blocks being in order and in bounds is equivalent to the header check passing |
| FdtEdit.Splice | lib/libfdt/fdt_rw.c:97-108 | BADOFFSET, NOSPACE or 0 with their exact conditions; on success the bytes before and after the splice are kept, on failure all bytes |
| FdtEdit.SpliceStruct | lib/libfdt/fdt_rw.c:123-135 | The structure block is spliced, the strings block moves along unchanged, header fields move by the difference |
| FdtEdit.AppendString | lib/libfdt/fdt_rw.c:137-148 | The string is appended to the table exactly when it fits; the structure block is untouched |
| FdtEdit.FindAddStringRw | lib/libfdt/fdt_rw.c:150-170 | An offset at which the table reads back the name; the table grows only when the name was nowhere in it |
| FdtEdit.ResizeProperty | lib/libfdt/fdt_rw.c:205-221 | A hole of the new length in place of the found property, with the same name offset; exact error codes |
| FdtEdit.AddPropertyRw | lib/libfdt/fdt_rw.c:223-249 | A hole in front of the node's other properties, with a name offset that reads back as the name; NOSPACE exactly when property and new name do not fit together |
| FdtEdit.SetProp | lib/libfdt/fdt_rw.c:274-290 | Exact return code; on success one property item stands in the place of the old one or first in its node, all other items the same; on error items and meaning are unchanged even if a string was appended |
| FdtEdit.DelProp | lib/libfdt/fdt_rw.c:319-332 | Exactly the found property goes; exact error codes, with the blob then holding the same items |
| FdtEdit.AddSubnode | lib/libfdt/fdt_rw.c:334-373 | BADOFFSET, EXISTS, NOSPACE with their exact conditions, otherwise an empty node behind the parent's properties, inserted byte for byte; a negative parent is returned as the error it is and nothing changes, except for -1 when the node fits: then the node is written 8 bytes before the structure block and the result is TRUNCATED |
| FdtEdit.PlaceNode | lib/libfdt/fdt_rw.c:359-372 | The bytes of the node are inserted where they are put, and the strings block moves along; before the block, its start becomes the rest of the node and what stood there |
| FdtEdit.DelNode | lib/libfdt/fdt_rw.c:380-392 | The bytes and items from the node's tag to its end tag go, no others; errors leave the buffer alone |
| FdtStrings.MeaningKept | lib/libfdt/fdt_rw.c:150-170 | Appending to the strings block changes the meaning of no item |
| FdtTreeEdit.NodeUnique | lib/libfdt/fdt.c:161-199 | A blob determines the tree under each of its nodes |
| FdtTreeEdit.FlatGraft | lib/libfdt/fdt_rw.c:97-135 | Grafting a tree and replacing its flat items are the same thing |
| FdtTreeEdit.EditGrafts | lib/libfdt/fdt_rw.c:97-135 | Replacing the items of whole subtrees grafts the tree at that one place; every other node keeps its place, name and contents |
| FdtTreeEdit.InsideFits | lib/libfdt/fdt_rw.c:380-392 | The items of a subtree found by search are whole subtrees of the surrounding tree |
| FdtLaws.SetGrafts | lib/libfdt/fdt_rw.c:274-290 | Setting a property grafts exactly one leaf into the tree, in place of the old property or first in its node |
| FdtLaws.DelPropGrafts | lib/libfdt/fdt_rw.c:319-332 | Deleting a property cuts exactly one leaf out of the tree |
| FdtLaws.AddGrafts | lib/libfdt/fdt_rw.c:334-373 | Adding a subnode grafts exactly one empty child into the tree |
| FdtLaws.DelNodeGrafts | lib/libfdt/fdt_rw.c:380-392 | Deleting a node cuts exactly its subtree out of the tree |
| FdtLaws.SetThenGet | lib/libfdt/fdt_rw.c:274-290 | After setting, a lookup of that name in that node finds the new property |
| FdtLaws.SetIsLocal | lib/libfdt/fdt_rw.c:274-290 | After setting, every lookup of another name or in another node finds the same item as before, or fails for the same reason |
| FdtLaws.SetMeans | lib/libfdt/fdt_rw.c:274-290 | In the stream of names and values one property replaces the old one, or is added; everything before and after is the same |
| FdtLaws.SetInTree | lib/libfdt/fdt_rw.c:274-290 | What setting a property of a node of a tree returns: 0 or NOSPACE and nothing else; 0 exactly when the new value fits in the old one's place, or, if the name is new to the node, when the property fits, with its name unless that stands among the strings |
| FdtLaws.AddInTree | lib/libfdt/fdt_rw.c:334-374 | What adding a node to a node of a tree returns: EXISTS if and only if a child matches the name, otherwise NOSPACE if and only if it does not fit, otherwise its place behind properties and NOPs |
| FdtLaws.AddThenDelete | lib/libfdt/fdt_rw.c:334-392 | For every parent offset: adding a subnode and deleting it at the returned offset restores the structure block byte for byte, its size and the strings offset, if and only if the parent was not -1 or the node did not fit |
| FdtLaws.AddUnchecked | lib/libfdt/fdt_rw.c:334-373 | Adding below the unchecked result of a lookup: if there is no such parent and the node fits, the structure block is destroyed although the result is an error |
| FdtInPlace.NopRegion | lib/libfdt/fdt_wip.c:75-81 | Only the rounded-up region changes, to NOP tags |
| FdtInPlace.NopProperty | lib/libfdt/fdt_wip.c:83-95 | Only the found property's bytes change; the block then holds the same items with NOPs in the property's place; errors change nothing |
| FdtInPlace.NopNode | lib/libfdt/fdt_wip.c:107-118 | Only the bytes from the node's tag to its end tag change, and the items there become NOPs; errors change nothing |
| FdtInPlace.NoppedMeans | lib/libfdt/fdt_wip.c:75-118 | The stream with NOPs filtered out is the old one with exactly the overwritten items removed |
| FdtInPlace.NopNodeGrafts | lib/libfdt/fdt_wip.c:107-118 | In the tree exactly the node's subtree is gone, NOPs in its place |
| FdtPack.NumMemRsv | lib/libfdt/fdt_ro.c:99-106 | Counts the used entries before the first with size zero |
| FdtPack.MoveBlocks | lib/libfdt/fdt_rw.c:394-414 | Three overlapping moves leave reservation map, structure and strings whole in their new places, and on a packed blob every byte as it was |
| FdtPack.MoveFront | lib/libfdt/fdt_rw.c:394-414 | The first two moves: nothing that a later one still reads is overwritten |
| FdtPack.PackBlocks | lib/libfdt/fdt_rw.c:394-414 | The blocks stand without gaps and hold what they held |
| FdtPack.Pack | lib/libfdt/fdt_rw.c:480-492 | If the map does not reach the structure once it has been moved to the front: same reservations, structure and strings; total size is the sum of the blocks; packing a packed blob changes no byte and no header field |
| FdtPack.PackKeepsTree | lib/libfdt/fdt_rw.c:480-492 | A packed blob parses to the same items with the same meaning |
| FdtPack.MapRunsOn | lib/libfdt/fdt_rw.c:359-372 | A node put before the structure block takes its end from a reservation map that reaches up to it |
| FdtBlob.MemMove | lib/string.c:98-105 | The destination gets what the source held before, overlapping or not; nothing else changes |
| FdtBlob.MemCpy | lib/string.c:88-95 | The destination gets the bytes; nothing else changes |
| FdtPath.GetName | lib/libfdt/fdt_ro.c:201-219 | The name of the node's own tag |
| FdtPath.Climb | lib/libfdt/fdt_ro.c:371-376 | Leaving directories cuts the buffer back to the path of the ancestor at that depth |
| FdtPath.Visit | lib/libfdt/fdt_ro.c:368-388 | After each node the buffer holds as many of its path's components as fit |
| FdtPath.GetPath | lib/libfdt/fdt_ro.c:357-407 | Writes the path with its NUL, or NOSPACE exactly when that does not fit or the buffer has fewer than two bytes |
| FdtPath.PathOfChild | lib/libfdt/fdt_ro.c:357-407 | The path of a node is that of the node above, a slash and its name; under an unnamed root there is one slash only |
| FdtPath.PathOfRoot | lib/libfdt/fdt_ro.c:357-407 | The path of an unnamed root is a slash |
| FdtPath.FollowFrom | lib/libfdt/fdt_ro.c:177-196 | From a node, the loop leads component by component to the first matching child, or to NOTFOUND; an error is passed on |
| FdtAliases.ReturnsIffNoneTwice | lib/libfdt/fdt_ro.c:157-199 | For every block and every path: the recursion comes to an end if and only if no alias is reached twice on the chain of aliases; circles and values that start with their own alias included |
| FdtAliases.RoundForEver | lib/libfdt/fdt_ro.c:157-199 | A chain that comes to an alias a second time goes round for ever |
| FdtAliases.LeadsIffOver | lib/libfdt/fdt_ro.c:157-199 | A path leads somewhere through n aliases at most exactly when the chain is over after them |
| FdtAliases.PathOffset | lib/libfdt/fdt_ro.c:157-199 | Every path, absolute or through aliases, unless an alias is reached twice: the node it leads to, NOTFOUND, or BADPATH exactly when an alias is not there |
| FdtAliases.PathPlaceStays | lib/libfdt/fdt_ro.c:157-199 | How many aliases are allowed for makes no difference once they are enough |
| FdtAliases.AliasSubstitutes | lib/libfdt/fdt_ro.c:157-199 | An alias for an absolute path may be replaced by it in the text of a path: both lead to the same place |
| FdtAliases.AliasForItself | lib/libfdt/fdt_ro.c:157-199 | A corollary: an alias that stands for itself, or for a path that starts with it, is followed for ever |
| FdtAliases.SelfForEver | lib/libfdt/fdt_ro.c:157-199 | The smallest such tree, byte for byte: the block is well formed, and its path a leads nowhere through any number of aliases |
| FdtAliases.ValueEnds | lib/libfdt/fdt_ro.c:338-349 | A property's value is a C string inside the block even without a NUL of its own: its padding or the next tag has one |
| FdtPath.WalkSplit | lib/libfdt/fdt_ro.c:157-199 | A path is followed in parts |
| FdtPath.PathLeadsBack | lib/libfdt/fdt_ro.c:157-199 | Following the path of a node leads to that node, when each step finds its ancestor by name |
| FdtPath.ThereAndBack | lib/libfdt/fdt_ro.c:357-407 | If getting the path succeeds, the offset of that path is the node it was asked for |
| FdtPath.FoundByOwnName | lib/libfdt/fdt_ro.c:132-149 | A child is what the search for its own name finds if and only if no child before it has a name that matches |
| FdtNames.PathLeadsBackExactly | lib/libfdt/fdt_ro.c:157-199 | The path of a node leads back to it if and only if each step on the way finds its ancestor by name |
| FdtNames.StepsFound | lib/libfdt/fdt_ro.c:157-199 | No detour ends at the right place: if the path leads to the node, every step took the node's own ancestor |
| FdtNames.AllPathsLeadBack | lib/libfdt/fdt_ro.c:157-199 | In a tree with an unnamed root and no slash in a name, the paths of all nodes lead back to them if and only if every other node has a name that no earlier sibling's name matches, exactly or up to its unit address |
| FdtNames.PathLeadsElsewhere | lib/libfdt/fdt_ro.c:58-76 | For a root with the children a@1 and a, the path of the second leads to the first |
| Bits.XorFlipsBit | mm/buddy_mm_free.c:65-68 | On an aligned address the xor moves to the other half of the enclosing window, and back |
| Bits.AlignedIsDivisible | mm/buddy_mm_free.c:65-68 | Natural alignment is divisibility by the block size |
| BuddyHeap.SplitKeepsTiling | mm/buddy_mm_malloc.c:128-148 | Splitting keeps the blocks aligned, apart and covering the heap |
| BuddyHeap.MergeKeepsTiling | mm/buddy_mm_free.c:50-147 | So does merging a block with its buddy |
| BuddyHeap.FreeBlockAround | mm/buddy_mm_free.c:50-147 | Every wholly free window lies inside one free block |
| BuddyHeap.FreeBlocksAreMaximal | mm/buddy_mm_free.c:50-147 | With complete coalescing the free blocks are exactly the maximal wholly free windows |
| BuddyHeap.FreeSetDetermined | mm/buddy_mm_free.c:50-147 | The set of free blocks is a function of the set of live blocks |
| BuddyHeap.NothingLive | mm/buddy_mm_init.c:55-64 | With nothing live the one block of maximum order is free |
| BuddyHeap.FreeBlockIffFreeWindow | mm/buddy_mm_malloc.c:76-126 | A free block of at least an order exists exactly when an aligned window of that order is wholly free |
| BuddyHeap.FreeBlockIffLargeWindow | mm/buddy_mm_malloc.c:76-126 | The same for windows of at least that order |
| BuddyHeap.Conservation | mm/buddy_mm_space.c:49-61 | Free and live bytes add up to the heap |
| BuddyLists.UnlinkLists | mm/buddy_mm_free.c:113-130 | Unlinking through the head or through the saved predecessor removes exactly that node from exactly that list |
| BuddyLists.PushLists | mm/buddy_mm_malloc.c:128-148 | Linking a node in front adds exactly that block to the free blocks |
| BuddyAllocator.Buddy.constructor | mm/buddy_mm_init.c:55-64 | One free block of maximum order, nothing live, invariant established |
| BuddyAllocator.FindPair | mm/buddy_mm_free.c:72-92 | The search finds node and buddy if listed; the node's predecessor is null, because a listed node is the head |
| BuddyAllocator.Buddy.UnlinkPair | mm/buddy_mm_free.c:113-130 | Both unlinks are right even when node and buddy are neighbours |
| BuddyAllocator.Buddy.BuddyMerge | mm/buddy_mm_free.c:50-147 | From the entry state (all well but for the node, on no list or head of its own) it ends, with every header matching its list, no list cyclic, blocks tiling the heap and no two buddies free; a node without the magic number changes nothing |
| BuddyAllocator.Buddy.Free | mm/buddy_mm_free.c:34-40 | Freeing a live address keeps the invariant and takes exactly that block from the live ones |
| BuddyAllocator.MergePending | mm/buddy_mm_free.c:105-145 | Joining a pending block with its free buddy leaves the joined block pending and all else settled |
| BuddyAllocator.Buddy.BuddySplit | mm/buddy_mm_malloc.c:128-148 | The right half becomes free, the left half stays in hand with one order less |
| BuddyAllocator.Buddy.Alloc | mm/buddy_mm_malloc.c:76-126 | Returns null exactly when no aligned window of at least the wanted order is wholly free, then changing nothing; otherwise hands out a new block of exactly that order, or of the least order there is if that is greater, from the head of the least nonempty list; the panics cannot fire |
| BuddyAllocator.AllocatableIffListed | mm/buddy_mm_malloc.c:76-126 | A free window of at least an order exists exactly when the upward search comes to a nonempty list |
| BuddyAllocator.Buddy.Malloc | mm/buddy_mm_malloc.c:38-74 | Null exactly above the limit or when no wholly free window holds the size with its header; otherwise a new block with at least the asked bytes behind its header, at an address divisible by its size, and no block of half that size, unless below the least order, would do |
| BuddyAllocator.RoomIsAllocatable | mm/buddy_mm_malloc.c:38-74 | A free window holds so many bytes exactly when one of the computed order is free |
| BuddyAllocator.SizeToOrder | mm/buddy_mm_malloc.c:150-163 | The shift loop computes the least sufficient order |
| BuddyAllocator.LeastOrderFits | mm/buddy_mm_malloc.c:150-163 | That order suffices and no smaller one does |
| Bits.PowerOfTwoTest | mm/buddy_mm_malloc.c:150-163 | s & (s - 1) vanishes exactly on powers of two |
| BuddyAllocator.Buddy.CallerWrites | mm/buddy_mm_malloc.c:76-126 | Whatever a caller writes behind the header of its block, the allocator's state is intact |
| BuddyAllocator.Buddy.FreeMemory | mm/buddy_mm_space.c:49-61 | The 32-bit total is the heap size minus the sizes of the live blocks |
| BuddyAllocator.MallocThenFree | mm/buddy_mm_free.c:34-40 | Freeing what was just allocated restores the free sets |
| BuddyAllocator.FreeAll | mm/buddy_mm_free.c:34-40 | Freeing every live block, in any order, restores the initial heap |
| TaskLists.InsertBetween | include/list.h:61-67 | Linking a node between neighbours inserts the entry at that place of the sequence |
| TaskLists.AddHead | include/list.h:80-82 | The entry is put in front |
| TaskLists.AddTail | include/list.h:85-87 | The entry is put at the end |
| TaskLists.InsertBefore | include/list.h:70-72 | The entry is put before the given one |
| TaskLists.ListRemove | include/list.h:92-98 | Exactly that entry goes and the rest is still a ring |
| TaskLists.PopHead | include/list.h:108-112 | The first entry is returned and the rest is still a ring |
| TaskLists.PopTail | include/list.h:100-104 | The last entry is returned and the rest is still a ring |
| TaskLists.ListEmpty | include/list.h:52 | True exactly for no entries |
| TaskLists.RingIsSeparate | include/list.h:120-131 | No node comes twice in one turn of a ring |
| TaskLists.Contains | kernel/sched/sched_api.c:53-64 | The loop returns true exactly for tasks on the list |
| TaskLists.FindPlace | kernel/sched/sched_internals.h:89-96 | The loop ends at the last entry of lower priority, not the first; none exactly when there is no such entry |
| TaskLists.InsertTask | kernel/sched/sched_internals.h:63-104 | The ring becomes the sequence with the task in front, at the end, or just before the last; the panic for finding no place is unreachable |
| Placement.PlacedMembers | kernel/sched/sched_internals.h:63-104 | Placing adds the task and loses or repeats none |
| Placement.PlacedPriorities | kernel/sched/sched_internals.h:63-104 | Where a task is placed depends on priorities alone |
| Placement.PlacementSorts | kernel/sched/sched_internals.h:63-104 | Placing keeps a list sorted by priority if and only if at most the last task, or all tasks, are of lower priority |
| Placement.SortedListUnsorted | kernel/sched/sched_switch.c:33-37 | The comment that the list is kept sorted is false: 7 into 10, 5, 1, 0 |
| Placement.RoundRobin | kernel/sched/sched_switch.c:30-72 | Tasks of one priority with at most one below them run in turn: the one to run at turn k is number k modulo n |
| Placement.HeadIsHighest | kernel/sched/sched_internals.h:63-104 | Of tasks placed one after the other, the head of the list is the first of the highest priority |
| Placement.TurnsRotate | kernel/sched/sched_switch.c:30-72 | After k turns the whole level is rotated by k |
| Placement.WakesEvery | kernel/sched/sched_switch.c:106-125 | A countdown started at the period is zero before exactly every tick that is the period modulo period + 1 |
| Placement.PeriodCovers | kernel/sched/sched_new.c:95-127 | The rounded-up tick count covers the asked time by less than one tick, and is not zero unless that was |
| Scheduler.WokenKeeps | kernel/sched/sched_switch.c:106-125 | A tick adds exactly the due tasks to the runnable ones, each at most once |
| Scheduler.TurnKeeps | kernel/sched/sched_switch.c:30-72 | A turn loses and repeats no task |
| Scheduler.WithoutKeeps | kernel/sched/sched_end.c:51-81 | Removing a task removes it and nothing else |
| Scheduler.Kernel.SwitchTask | kernel/sched/sched_switch.c:30-72 | The chosen or the first runnable task becomes current and running; with none chosen the first is placed again |
| Scheduler.Kernel.SvcTaskSwitch | kernel/sched/sched_switch.c:74-103 | -1 and nothing changed exactly for a task that is not runnable |
| Scheduler.Kernel.SleeperRuns | kernel/sched/sched_switch.c:39-43 | There is always a runnable task, so the panic for none is unreachable |
| Scheduler.Kernel.Tick | kernel/sched/sched_switch.c:106-125 | Every periodic task counts down or is re-armed; exactly the due ones are made runnable, in list order |
| Scheduler.Kernel.TickStep | kernel/sched/sched_switch.c:106-125 | A tick keeps the invariant over all lists |
| Scheduler.Kernel.SwitchStep | kernel/sched/sched_switch.c:74-103 | A switch keeps the invariant and the tasks that are runnable |
| Scheduler.Kernel.NewTask | kernel/sched/sched_new.c:95-127 | A new task is runnable, periodic exactly with a period, holds no mutex; the invariant is kept |
| Scheduler.Kernel.SvcRegisterTask | kernel/sched/sched_new.c:129-135 | Placed on the runnable list and, with a period, on the periodic list |
| Scheduler.ConsistentEnd | kernel/sched/sched_end.c:51-81 | Ending a task keeps the accounting: on neither list, total one less |
| Scheduler.ConsistentNew | kernel/sched/sched_new.c:95-127 | So does a new one: total one more |
| Scheduler.Kernel.Leave | kernel/sched/sched_end.c:51-75 | A periodic task that was not aborted only leaves the runnable list; any other is terminated and queued for freeing |
| Scheduler.Kernel.EndTask | kernel/sched/sched_end.c:51-81 | The current task leaves and the first of the rest runs; the invariant is kept as the sleep task never ends |
| Scheduler.Kernel.Abort | kernel/sched/sched_end.c:38-44 | An aborted task is terminated, periodic or not |
| Scheduler.Kernel.TakeFreed | kernel/sched/kernel_task.c:36-38 | The kernel task takes the task that has waited longest, and it has ended |
| Scheduler.Kernel.Start | kernel/sched/sched_start.c:39-55 | After boot the invariant holds, and the tasks are the kernel task, the sleep task and the boot tasks, in that order; the first of the highest priority runs; the runnable list is that of all placed one after the other, turned once, and the periodic list that of those with a period |
| MutexCalls.HeldMutexesInsert | kernel/mutex.c:108-117 | The first empty place of the table takes the mutex, or there is none |
| MutexCalls.HeldMutexesRemove | kernel/mutex.c:119-127 | The first place with the mutex is emptied; a mutex that is not there changes nothing |
| Events.InsertKeeps | kernel/mutex.c:108-117 | Exactly that mutex is added to the table, still without duplicates |
| Events.RemoveKeeps | kernel/mutex.c:119-127 | Exactly that mutex is gone from the table |
| MutexCalls.System.DeadlockCheck | kernel/mutex.c:129-148 | Stops exactly on a second acquire by the holder or a cycle of two |
| MutexCalls.System.GetLock | kernel/mutex.c:56-90 | Taken if and only if the mutex is free and one of the caller's places is empty; stopped for too many held if and only if it is free and none is; stopped for a double acquire, a cycle of two, or refused, each with its exact condition on the fields; the panic for an unset holder is unreachable; the waiter is replaced exactly by one of higher priority; the invariant is kept |
| MutexCalls.System.SvcAcquire | kernel/mutex.c:157-182 | The same outcomes with their exact conditions; refused tasks let the holder run if it can and is not above them, otherwise the first runnable task; the invariant is kept |
| MutexCalls.System.SvcRelease | kernel/mutex.c:184-196 | By anyone: the mutex is free and out of the caller's table; a waiter of at least the same priority is taken off and run if runnable; the invariant is kept if and only if the caller held the mutex or nobody did |
| MutexCalls.System.HeldIffInTable | kernel/mutex.c:56-147 | In every valid state a mutex is in a live task's table exactly when that task is its holder, and locked exactly when it has one |
| MutexCalls.System.ValidIsSafe | kernel/mutex.c:56-147 | The invariant over rings, links and fields implies that the state is a safe one |
| MutexCalls.System.HolderIsFree | kernel/mutex.c:129-148 | Past the check, the holder waits for nothing that the current task holds: no cycle of two is recorded |
| Events.DetectedIffRecorded | kernel/mutex.c:129-148 | In every safe state an acquire stops the kernel for a cycle of two exactly when the holder is recorded as waiting for a mutex of the current task |
| Events.OutcomeIs | kernel/mutex.c:56-90 | In every safe state each outcome of an acquire is equivalent to its condition on holder, recorded waits and the caller's places |
| Events.StoppedBy | kernel/mutex.c:56-90 | A run stops only at an acquire, for too many held only in a state in which the current task has no empty place, for a double acquire only by the holder, for a cycle only when the holder is recorded as waiting for the caller |
| Events.NotStopped | kernel/mutex.c:56-90 | And it stops at every such acquire: one that is followed by another state meets none of these conditions |
| MutexCalls.System.CrossedAcquire | kernel/mutex.c:56-90 | Two tasks each acquire what the other holds: the second call detects the cycle if and only if the first recorded its caller, which it does unless a task of at least that priority waits already, or an older record of that caller names a mutex of the second; otherwise both are refused and the kernel goes on |
| Crossing.UndetectedCycle | kernel/mutex.c:56-90 | In every run of twelve events from start-up with three tasks, whatever the kernel task's period: all happen, and at the end two tasks have each been refused the mutex that the other holds |
| Crossing.CrossedRun | kernel/mutex.c:56-90 | There is such a run, and the state at its end satisfies the whole invariant |
| MutexCalls.System.ReapOne | kernel/sched/kernel_task.c:40-47 | A mutex in the ended task's table becomes free; the kernel task's own table and the invariant are kept |
| MutexCalls.System.DeadHoldNothing | kernel/sched/kernel_task.c:33-51 | Once the kernel task is through with it, an ended task holds nothing |
| MutexCalls.System.FreeDead | kernel/sched/kernel_task.c:49 | When a task is freed no mutex names it as holder |
| MutexCalls.System.Step | kernel/mutex.c:157-196 | Any tick, switch, registration, end, abort, new mutex, acquire, release or step of the kernel task takes the state to exactly the one the event stands for and keeps the whole invariant, or it is an acquire that stops the kernel, for the stated reason and never for want of a holder |
| MutexCalls.System.Run | kernel/mutex.c:157-196 | For every list of events there is a trace of states, each with the effect of its event on the one before and each safe, up to the end or to the first acquire that stops the kernel |
| MutexCalls.BootAndRun | kernel/sched/sched_start.c:39-55 | From boot on, for any boot tasks and any events: such a trace starts from the state with exactly the kernel task, the sleep task and the boot tasks, the first of the highest running, the lists as placing them leaves them and nothing held; in each of its states the current task is runnable, no task is on a list twice, ended tasks are on neither list, the total is right, tables and holders agree, and no cycle of two is recorded |
| Reentrant.NextInv | kernel/reentrant_mutex.c:28-51 | Any single statement of any task keeps the invariant: no panic, no warning, count never negative, one owner |
| Reentrant.RunInv | kernel/reentrant_mutex.c:28-51 | Hence it holds in every state of every interleaving |
| Reentrant.MutualExclusion | kernel/reentrant_mutex.c:28-51 | In every run at most one task is inside; it has the inner lock and its nesting depth is the count |
| Reentrant.ReleasedOutermost | kernel/reentrant_mutex.c:41-51 | The inner lock is released exactly by the release that matches the outermost acquire |
| Reentrant.NeverSelfBlocked | kernel/reentrant_mutex.c:28-39 | A task waiting for the inner lock is never its owner |
| Reentrant.NextRefines | kernel/reentrant_mutex.c:28-51 | Every statement is, for the callers of an abstract reentrant lock, one acquire, one release or nothing: in every interleaving the calls take effect one at a time, each at one of its own statements |
| Reentrant.ReentrantMutex.Acquire | kernel/reentrant_mutex.c:28-39 | Run without interruption, it is one acquire of the abstract lock |
| Reentrant.ReentrantMutex.Release | kernel/reentrant_mutex.c:41-51 | Run without interruption, it is one release of the abstract lock; it panics exactly when the caller is not the owner, and never warns |
| BitWords.ClearIsFree | mm/bitfield_mm_internals.h:58-61 | The mask test is zero exactly when all bits of the field are clear |
| BitWords.FieldSet | mm/bitfield_mm_malloc.c:45-47 | Setting a clear field sets exactly its bits and raises the number of set bits by its length |
| BitWords.FieldCleared | mm/bitfield_mm_free.c:40-57 | Clearing a set field clears exactly its bits and lowers the number by its length |
| BitWords.SameBits | mm/bitfield_mm_internals.h:36 | A word is determined by its bits |
| BitmapAllocator.LiveAfterAlloc | mm/bitfield_mm_malloc.c:29-101 | A claimed free run is a new live allocation apart from all others; the set bits stay exactly those of live grains |
| BitmapAllocator.LiveAfterFree | mm/bitfield_mm_free.c:30-57 | Likewise for a run given back |
| BitmapAllocator.BlocksFromLive | mm/bitfield_mm_free.c:30-57 | The live allocations determine mask and count of every block |
| BitmapAllocator.FindOffset | mm/bitfield_mm_malloc.c:43-51 | The first place in a word where the field is clear, or none exactly when there is none |
| BitmapAllocator.AllocSmall | mm/bitfield_mm_malloc.c:37-54 | Claims the first run of the wanted length inside a block, in the inclusive range; fails only when there is none |
| BitmapAllocator.TooFew | mm/bitfield_mm_malloc.c:42 | Skipping blocks with too few free grains misses nothing |
| BitmapAllocator.CountedExactly | mm/bitfield_mm_malloc.c:62-71 | The running count is enough exactly when that many whole blocks before this one are free |
| BitmapAllocator.SmallFits | mm/bitfield_mm_malloc.c:37-52 | Fewer grains than a block has fit exactly where they are free and lie in one block |
| BitmapAllocator.LargeFits | mm/bitfield_mm_malloc.c:55-89 | More fit exactly where they are free, start a block, and leave a block behind the whole ones inside the range, even when no part of it is needed |
| BitmapAllocator.AllocLarge | mm/bitfield_mm_malloc.c:55-89 | Claims the first run of whole blocks and a part of the next; fails only when there is none that ends inside the range |
| BitmapAllocator.Heap.AddressBack | mm/bitfield_mm_internals.h:53-71 | Block and offset are recovered from the address |
| BitmapAllocator.Heap.constructor | mm/bitfield_mm_init.c:35-40 | All grains free, nothing live |
| BitmapAllocator.Heap.Alloc | mm/bitfield_mm_malloc.c:29-101 | None exactly when nothing fits, changing nothing; otherwise the lowest run that fits becomes live, with its header; counts and masks agree in every block |
| BitmapAllocator.Heap.FreeMem | mm/bitfield_mm_free.c:30-57 | Exactly that allocation is given back; counts and masks agree |
| BitmapAllocator.Heap.AllocThenFree | mm/bitfield_mm_free.c:30-57 | Allocating and freeing the result restores both fields of every block |

## Left out

Device trees:

- The header is a record of fields; its ten words are not bytes of the buffer, and their big-endian storage is not modelled.
- Buffers and structure blocks of more than 2^31 - 4 bytes: the library measures them with `int`.
- Version-16 blobs, and `fdt_open_into`, which converts them.
- Readers start with `FDT_CHECK_HEADER`; they are modelled on blobs whose header passes. The check itself is modelled for the editor.
- SubnodeOffset, GetProperty, and the editor: offsets that are neither negative nor those of an item, and blocks that are not well formed; ancestor and path functions on nodes outside the tree whose root is the first item: their results there are not stated. The walks of `FdtWalk` cover every offset of every block.
- The node walk with a null depth pointer, which none of the modelled functions passes.
- PathOffset: trees without a root node. When the recursion does not return there is no result to state.
- GetPath: names with a slash in them, which the format forbids, are excluded; the code cuts names back to the last slash it finds.
- Put: what a call leaves that writes outside of the buffer, and every call after it.
- AddProperty: names of 2^31 - 4 bytes and values of 2^31 - 20 bytes or more, and AddBeginNode: names of 2^31 - 12 bytes or more, whose aligned sizes an `int` does not hold.
- SetProp: `fdt_setprop_inplace`, `fdt_appendprop` and `fdt_set_name` are not modelled; they combine the same splice and lookup.
- Pack: moves within one buffer only, as `fdt_pack` uses them. A reservation map so long that, at the front, it would reach the structure block passes the header check, which looks at one entry; packing it moves the structure upwards over what has not been moved yet, possibly past the end of the buffer, and no result is stated.
- The editor on unfinished blobs of the sequential writer.
- `fdt_strerror`, phandle and compatible lookups: loops over the modelled readers.

Buddy allocator:

- The mutex around the calls: each call is one atomic step.
- Heaps whose base is not aligned to their size of 2^maxOrder bytes, on which flipping a bit of an address does not give the buddy; orders below 3, too small for a `struct heapnode`; and orders above 31.
- Free: double frees, addresses that were never handed out, and callers that overwrite the 4-byte header are excluded, as the code's own check cannot tell them in general.
- Malloc: `malloc` and `kmalloc` differ only in the heap they use; the size limit is a parameter.
- Memory is one node per address; reinterpreting bytes of a header as caller data is covered by `CallerWrites` only as whole nodes.

Scheduler and mutexes:

- Stacks, contexts, registers, the stack overflow check of `switch_task`, the assembly that enters a service call, and the memory of tasks, whose lack makes `new_task` fail.
- NewTask: a freed task's memory is never used for another task, so that a recorded waiter that has ended stays distinguishable.
- Use of mutexes before task switching starts, `acquire_for_free`, and the release of a mutex that is not locked.
- Step: events that name no task or mutex, a release by another than the holder, a step of the kernel task while another task runs, and the end of the sleep task do nothing.
- The retry loop of `acquire`: each attempt is one event.
- WakeWaiter: cycles of three or more waiting tasks are neither found by the code nor excluded by the model.
- Preemption inside a single list operation of the kernel task.
- HELD_MUTEXES_MAX is 6, as configured.

Reentrant mutex:

- The inner mutex is atomic acquire and release; its own service calls are the subject of `MutexCalls`.
- Releases by tasks that have not acquired: the code panics on them.

Bitmap allocator:

- `malloc` and `kmalloc`, which cut the size to 16 bits and pass the block count as the inclusive bound.
- Alloc: at least one grain is asked for, as every caller does. Lengths are not bounded by 16 bits.
- FreeMem: headers that callers have overwritten, and pointers that were never handed out.
- The lock around the calls.

Sensor, GPIO, ADC, UART, timer and clock drivers, device registration, the shell, printing, and the collection and class
objects are input and output, hardware, or wrappers whose properties are visible from their bodies.
