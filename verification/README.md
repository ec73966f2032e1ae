# Verified models of the terminal multiplexer's core algorithms

This project models, in Dafny, the algorithms of the multiplexer that carry real
invariants, and proves them for all inputs and over whole runs. Each module follows
one source file; `dafny verify dfyconfig.toml` checks everything.

- **Panes** (`BinTree`, `SubtreeSets`, `LeafSwaps`, `LeafWalks`, `PaneGroup`, `PaneLayout`,
  `PaneEdits`, `GroupState`, `Docking`, `TabLayout`, `UnitMoves`, `PaneSwaps`, `PaneRestore`,
  `PaneRoundTrip`, `PaneEffects`, `TabEffects`, `PaneValidity`, `PaneRuns`, `PaneLimits`). A tab is a binary split tree of
  panes under a zipper. On top of it, panes are grouped, units (groups or single panes) are
  stacked, and one unit of a stack is on show. `validate` alone is not kept by the operations
  (`PaneLimits.ValidateNotKept`), so a stronger invariant is proved: group ids distinct and
  below the next one, disjoint groups of at least two panes each remembering one of its own,
  every group and every stack a subtree, every stacked unit canonical, no unit stacked twice,
  and exactly the active unit of a stack visible; a layout is called sound if it keeps this.
  Every layout reached by the operations modelled is sound, and so passes `validate`, provided
  that only wholly visible units are stacked and that panes trade places only within a slot;
  both provisos are exact. Groups and stacks saved with a layout come back as they were.
  What each operation does, to the tree from left to right, the units, the stacks and what is
  visible, is stated in `PaneEffects` and `TabEffects`.
- **Frequency cache** (`Lfu`). Entries shared by a hash table, a frequency order and a
  recency list; the cache as a map with evictions.
- **basE91** (`Bits`, `Base91Digits`, `Base91Groups`, `Base91`). Encoder and decoder as
  machines on bits, and what they write and read of the whole bit string at once.
- **Wire protocol** (`Leb128`, `Frames`, `PduStream`, `SerializedLines`). LEB128 as in
  section 7.6 of DWARF Version 4, frames, decoding from a non-blocking reader, and the
  hyperlink runs of serialized lines.
- **Output batching** (`OutputBatching`). Batches of parsed actions, the hold of
  synchronized sections, and when the loop waits for more and when it sends.
- **tmux client** (`TmuxClient`, `TmuxDomain`). The request/response protocol of control
  mode as a state machine over atomic steps, with the history of a run recorded, and the
  object that takes those steps in place.
- **Logical lines** (`LogicalLines`, `LogicalCoords`) and **JSON with comments** (`Jsonc`).

Code that changes things in place is modelled by classes and by methods with loops, each
proved against a function of its inputs or of the state before; the theorems are lemmas
about those functions. Reads, poll results, timeouts, command texts and lookups that may
fail are parameters, so the theorems hold for all of them.

## What was found

Seven properties one might expect do not hold of the code. Each is proved up to an exact
condition; for those about states, an instance where it fails is proved reachable.

- `stack_units` hides the unit it puts behind but never shows the one it puts in front. The
  layout passes `validate` afterwards if and only if the call was refused or no pane of the
  front unit was hidden on its own (`PaneValidity.StackUnitsValidatesIff`,
  `PaneLimits.StackedHalfHidden`).
- `swap_active_with_index` asks nothing about groups, unlike `swap_panes` and the rotations.
  The layout passes `validate` afterwards if and only if the two panes are in one unit, or are
  both lone and in one stack or in none (`PaneSwaps.SwapValidatesIff`,
  `PaneLimits.SwapTearsGroup`).
- A reply to `list-windows` that queues commands for one window and fails on a later one
  returns before it schedules a send, so a queued command may wait with no send on its way.
  Exactly that step, and a send that comes up when its domain is gone, can lose a wakeup
  (`TmuxClient.StepWakes`, `TmuxClient.WakeupLost`).
- The tmux client also waits for a response when the pane to write the command to was not
  found; exactly then nothing was written (`TmuxClient.WaitsUnwrittenIff`,
  `TmuxClient.WaitsUnwritten`).
- The comment on `SerializedLines` speaks of keeping the identity of hyperlinks. Two cells
  share a link object afterwards if and only if they are in one row and every cell between
  them carried that object (`SerializedLines.SharingKept`, `SerializedLines.SharingLost`);
  their values are always kept.
- The length of a frame does not always count the bytes that the decoder takes after it. The
  decoder takes off the shortest forms of the serial and the ident, whatever forms they came
  in, so it counts them if and only if both came in their shortest forms; otherwise the
  decoder reads that many bytes too far (`Frames.LengthCounts`).
- `stable_range` gives just the rows asked for if and only if the first and the last of them
  are on the screen; for a range that ends below it gives one row too many
  (`LogicalLines.RowsAskedFor`).

## Model

| member | source | states |
|---|---|---|
| BinTree.MovesKeepTree | bintree/src/lib.rs:402-460 | a move left, right or up leaves the whole tree as it was, and moving down and up again returns to the same place |
| BinTree.UnsplitUndoesSplit | bintree/src/lib.rs:301-394 | unsplitting the leaf that a split put in gives back the cursor before the split and that leaf |
| BinTree.ToTree | bintree/src/lib.rs:547-554 | climbing to the top gives the tree the cursor is part of |
| BinTree.PreorderNext | bintree/src/lib.rs:472-496 | steps to the next position in preorder, and fails, at the top, exactly when none is left |
| BinTree.PostorderNext | bintree/src/lib.rs:506-530 | steps to the next position in root-right-left order, and fails, at the top, exactly when none is left |
| BinTree.PreorderVisitsEachPositionOnce | bintree/src/lib.rs:462-496 | the walk from the root meets every position of the tree once |
| BinTree.RootRightLeftIsReversedPostorder | bintree/src/lib.rs:498-530 | the order of `postorder_next` is the reverse of postorder |
| BinTree.RootRightLeftVisitsSamePositions | bintree/src/lib.rs:498-530 | that order too meets exactly the positions the preorder walk meets |
| BinTree.GoToNthLeaf | bintree/src/lib.rs:533-544 | lands on the nth leaf still ahead, or fails at the top if there are not so many |
| BinTree.NthLeafIsNthFromLeft | bintree/src/lib.rs:193-200 | from the root there are as many leaves ahead as the tree has, and the nth is the nth from the left |
| SubtreeSets.SubtreeLeafSets | mux/src/tab.rs:869-886 | lists the leaf set of every subtree and nothing else |
| SubtreeSets.UnsplitRemovesLeaf | bintree/src/lib.rs:301-322 | after unsplitting leaf p the subtree leaf sets are exactly the old ones without p |
| SubtreeSets.SplitInsertsLeaf | bintree/src/lib.rs:360-400 | after splitting leaf e into e and n, on either side, every old subtree set is there with n joined to those that hold e, and the new ones are {n}, {e} and {e, n} |
| PaneEdits.RemovalKeepsInv | mux/src/pane_group.rs:107-161 | unsplitting a leaf, `remove_pane`, dropping the pane from the hidden set and showing the unit it names together keep the invariant |
| PaneEdits.SplitKeepsInv | mux/src/pane_group.rs:165-187 | splitting a leaf and `adopt` keep the invariant, on either side and for a pane that is grouped, stacked alone, or neither |
| GroupStates.GroupState.CreateGroup | mux/src/pane_group.rs:88-98 | an id that no group has, and the group with its first member as last active |
| GroupStates.GroupState.Dissolve | mux/src/pane_group.rs:100-102 | the in-place change is the step the invariant is proved for |
| GroupStates.GroupState.RemovePane | mux/src/pane_group.rs:107-161 | the in-place removal is the step of `PaneEdits.RemovalKeepsInv`, and returns the unit to show, which `PaneEffects.RemovedFromStack` names |
| GroupStates.GroupState.Adopt | mux/src/pane_group.rs:165-187 | the in-place adoption is the step of `PaneEdits.SplitKeepsInv` |
| GroupStates.GroupState.NoteActive | mux/src/pane_group.rs:190-194 | the group of the pane, if any, remembers it |
| GroupStates.GroupState.Validate | mux/src/pane_group.rs:198-252 | finds no fault exactly when groups are disjoint subtrees of two or more panes and stacks are subtrees of wholly shown or hidden, distinct units with one shown |
| PaneEffects.RemovedFromStack | mux/src/pane_group.rs:142-160 | a lone pane leaves its stack: if it was on show, the unit after it is returned and comes on show, or the one before it if it was last; otherwise nothing is returned and the same unit stays on show; a stack of one is dissolved |
| PaneEffects.RemovedFromGroup | mux/src/pane_group.rs:107-133 | a member leaves a group of three or more: the others keep their order, and the first of them is remembered if the member was |
| PaneEffects.RemovedFromPair | mux/src/pane_group.rs:107-141 | a group of two ends, and the pane that is left takes its place in the stack it was in |
| PaneEffects.AdoptedJoins | mux/src/pane_group.rs:165-187 | a pane split off a grouped or stacked one is in its group afterwards, behind the others; the group stands where the unit stood, a group just made for it remembers the new pane, and no other unit changes |
| PaneEffects.AdoptedUnstacked | mux/src/pane_group.rs:165-187 | a pane split off a lone one that is not stacked stays lone, and nothing changes |
| PaneEffects.NotedActive | mux/src/pane_group.rs:190-194 | the group of the pane remembers just that pane, and all other groups what they remembered |
| PaneEffects.DissolvedPanes | mux/src/pane_group.rs:100-102 | the members of the group are lone panes, and every other pane is in the unit it was in |
| Docking.UnsplitIsRemoveLeaf | mux/src/tab.rs:3225-3336 | unsplitting at a leaf is the same as taking that pane out of the tree by name |
| Docking.RemoveLeavesKeepsRest | mux/src/tab.rs:2035-2115 | taking several panes out keeps every subtree set that has none of them and loses only those panes |
| Docking.ReplaceDocks | mux/src/tab.rs:890-930 | a target that is a subtree is found, and the docked panes are placed beside it: target, docked panes and both together are subtrees, and so is every other subtree with the docked panes joined if it held the target |
| Docking.ChainLeaves | mux/src/tab.rs:932-957 | chaining panes gives a proper tree of exactly those panes |
| Docking.RemovedLeaves | mux/src/tab.rs:2035-2115 | the panes that are not taken out stay in their order |
| Docking.ChainOrder | mux/src/tab.rs:932-957 | the chained panes are in the order given |
| Docking.ReplacedAt | mux/src/tab.rs:890-930 | the new node stands exactly where the target stood, target and docked panes on the sides asked for, and nothing around it changes |
| TabLayout.ClosePaneKeepsSound | mux/src/tab.rs:3225-3336 | closing a pane, the only one included, keeps the layout sound |
| TabEffects.Closed | mux/src/tab.rs:3225-3336 | closing a pane takes it, and nothing else, out of the tree and the hidden panes, and makes visible just the unit that takes its place on show, if it was alone on show in a stack |
| TabLayout.SplitPaneKeepsSound | mux/src/tab.rs:3565-3705 | splitting a visible pane, or the only one, keeps the layout sound |
| TabEffects.SplitBeside | mux/src/tab.rs:3565-3705 | the new pane comes right after or right before the one split, as asked, and nothing is hidden or shown |
| TabLayout.SplitTopKeepsSound | mux/src/tab.rs:3565-3705 | splitting the whole tab keeps the layout sound |
| TabEffects.SplitTopBeside | mux/src/tab.rs:3565-3705 | the new pane comes last or first of all, as asked |
| TabLayout.ShowStackUnitKeepsSound | mux/src/tab.rs:1983-2002 | showing another unit of a stack keeps the layout sound |
| TabEffects.ShownUnit | mux/src/tab.rs:1983-2002 | the unit is the active one of its stack and its panes are visible, those of the unit that was on show are hidden, and all else is as before |
| TabLayout.FocusKeepsSound | mux/src/tab.rs:3376-3401 | focusing a pane, which may bring its unit to the front, keeps the layout sound |
| TabEffects.Focused | mux/src/tab.rs:3376-3401 | a stacked pane is visible after it gets the focus, only a hidden one has its unit shown for that, and its group, and no other, remembers it |
| TabLayout.ToggleKeepsSound | mux/src/tab.rs:2117-2171 | hiding or showing any pane, unless it is stacked or the last visible one, keeps the layout sound |
| TabEffects.Toggled | mux/src/tab.rs:2117-2171 | a hidden stacked pane comes on show and a visible one stays; another pane alone is shown or hidden, but the last visible one stays |
| TabLayout.UngroupKeepsSound | mux/src/tab.rs:1898-1910 | dissolving a group that is not stacked keeps the layout sound |
| TabEffects.Ungrouped | mux/src/tab.rs:1898-1910 | just the panes of that group are lone afterwards; a stacked group stays |
| UnitMoves.GroupUnitsKeepsSound | mux/src/tab.rs:1865-1896 | grouping two units, docking one beside the other where needed, keeps the layout sound |
| TabEffects.GroupedUnits | mux/src/tab.rs:1865-1896 | the panes of both units are one new group, the active one's first, which remembers the active pane; the tree changes only if they were not a subtree; with a stacked unit nothing changes |
| TabEffects.DockedBeside | mux/src/tab.rs:2035-2115 | the docked panes come out of the tree, all others keeping their order, and go in their order right beside the target on the side asked for |
| UnitMoves.StackUnitsSoundIff | mux/src/tab.rs:1932-1970 | stacking keeps the layout sound if and only if it was refused or no pane of the front unit is hidden |
| TabEffects.StackedUnits | mux/src/tab.rs:1932-1970 | refuses panes of one unit and a stacked unit; else the unit is the last and the active one of the neighbour's stack, or of a new one, the neighbour's panes are hidden, and nothing is shown |
| LeafSwaps.SwapActiveWithIndex | mux/src/tab.rs:3460-3508 | the two trips to the nth leaf make the tree in which the two panes have traded places, or leave it if there is no such leaf |
| LeafSwaps.SubtreeSurvivesSwapIff | mux/src/tab.rs:3460-3508 | a subtree of two or more leaves is still one if and only if it held both of the panes or neither |
| LeafWalks.SwapPanes | mux/src/tab.rs:2716-2772 | the walk over the leaves makes the two panes trade places |
| LeafWalks.RotateClockwise | mux/src/tab.rs:2237-2268 | the walk moves every pane on to the next leaf and the last to the first, in a tree of the same shape; with groups nothing changes |
| LeafWalks.RotateCounterClockwise | mux/src/tab.rs:2203-2235 | the walk from right to left moves every pane back by one leaf |
| LeafWalks.RotatedAt | mux/src/tab.rs:2203-2268 | the place every pane goes to |
| LeafWalks.RotationsCancel | mux/src/tab.rs:2203-2268 | a rotation one way and one the other way give back the tree |
| PaneSwaps.SwapValidatesIff | mux/src/tab.rs:3460-3508 | after two panes traded places `validate` accepts the layout if and only if they are in one unit, or both lone and in one stack or none |
| PaneSwaps.SwapPanesKeepsSound | mux/src/tab.rs:2716-2772 | two lone panes may trade places while nothing is hidden |
| PaneSwaps.RotationKeepsSound | mux/src/tab.rs:2203-2268 | without groups and stacks, any order of the panes in the tree is sound |
| PaneRestore.RestoreGroups | mux/src/tab.rs:1716-1796 | the loops collect groups and stacks from the leaves, and give a state exactly when every stack has one visible unit and `validate` accepts it |
| PaneRestore.RestoredInv | mux/src/tab.rs:1716-1796 | whatever was saved, a state that is restored keeps the invariant, which is more than `validate` |
| TabEffects.RestoredFocus | mux/src/tab.rs:1716-1796 | after a restore the pane with the focus is remembered by its group; one that does not fit changes nothing |
| PaneRoundTrip.SavedLeaves | mux/src/tab.rs:303-397 | the saved layout lists group, stack and position of every pane from left to right |
| PaneRoundTrip.SavedRestores | mux/src/tab.rs:1716-1796 | restoring what was saved of any sound layout succeeds and puts every pane into a unit of the same panes, stacked at the same position among units of the same panes with the same one on show, or not stacked, as it was |
| PaneValidity.InvValidates | mux/src/pane_group.rs:198-252 | the invariant implies that `validate` finds no fault |
| PaneValidity.StackUnitsValidatesIff | mux/src/tab.rs:1932-1970 | after stacking `validate` finds no fault if and only if the call was refused or no pane of the front unit is hidden |
| PaneRuns.EveryRunValidates | mux/src/tab.rs:1688-1710 | every layout of every run of the operations modelled from a new tab, stacking only wholly visible units and trading places only within a slot, passes `validate` |
| PaneLimits.ValidateNotKept | mux/src/pane_group.rs:107-161 | a state that passes `validate` and fails it after `remove_pane`, for any tree and hidden set |
| PaneLimits.StackedHalfHidden | mux/src/tab.rs:1932-1970 | a layout reached from a new tab that fails `validate` after stacking |
| PaneLimits.SwapTearsGroup | mux/src/tab.rs:3460-3508 | a layout reached from a new tab that fails `validate` after two panes traded places |
| Lfu.LfuCache.constructor | lfucache/src/lib.rs:89-116 | an empty valid cache with the bucket count of `Lfu.LeastPowerOfTwo` |
| Lfu.LfuCache.Get | lfucache/src/lib.rs:225-272 | returns the value last put for a resident key, never changes the mapping, makes a hit the most recent, the others keeping their order, and counts it, saturating; a miss changes nothing |
| Lfu.LfuCache.Put | lfucache/src/lib.rs:274-320 | binds the key and evicts one entry exactly when the key is new and the cache full; of the frequencies before the call, the decay step taken, that one's was the smallest, and every other entry keeps its own; the new entry is the most recent and the others keep their order; the buckets double exactly when they are crowded and fewer than the capacity |
| Lfu.LfuCache.EvictOne | lfucache/src/lib.rs:198-214 | after the decay step takes an entry of smallest frequency out of all three indexes; frequencies and order of recency afterwards are stated from those before |
| Lfu.LfuCache.DecayLeastRecent | lfucache/src/lib.rs:161-195 | the least recent entry alone has its frequency divided by a tenth of the ticks since its last use, cut to 16 bits, and goes to the front, if that tenth is above 1 and the frequency not 0; else nothing changes |
| Lfu.LfuCache.GrowHash | lfucache/src/lib.rs:130-144 | doubles the buckets and keeps every entry, each where its key now hashes to |
| Lfu.LfuCache.UpdateConfig | lfucache/src/lib.rs:146-154 | evicts just down to the new capacity, each time an entry of the lowest frequency then, decay step by decay step from the frequencies before |
| Lfu.LfuCache.Clear | lfucache/src/lib.rs:216-223 | an empty valid cache with the same buckets |
| Lfu.DecayedDivides | lfucache/src/lib.rs:173-188 | the frequency the other contracts speak of is the quotient, rounded down, if the divisor is above 1, and the old frequency otherwise |
| Lfu.LeastPowerOfTwo | lfucache/src/lib.rs:95-100 | the bucket count is the least power of two that is at least a tenth of the capacity |
| Base91.TablesInverse | base91/src/lib.rs:38-58 | the two tables are inverse on the alphabet, and the decoding table marks all other bytes |
| Base91.Alphabet | base91/src/lib.rs:38-58 | the alphabet is all printable characters but space, apostrophe, hyphen and backslash: upper case, lower case, figures, other marks and the double quote, each kind in order |
| Base91.RoundTrip | base91/src/lib.rs:136-144 | decoding an encoding gives the bytes back, for every byte string |
| Base91.ForeignByteIgnored | base91/src/lib.rs:176-206 | a byte outside the alphabet changes nothing wherever it is inserted |
| Base91.FewBitsPending | base91/src/lib.rs:176-206 | on any input the decoder holds back fewer than eight bits, and its accumulator only those |
| Base91.SizeOfEncoded | base91/src/lib.rs:89-131 | n bytes take between 8n/7 and 2 * ceil(8n/13) characters |
| Base91Digits.EncodeSplit | base91/src/lib.rs:89-115 | encoding does not depend on how the input is cut into writes |
| Base91Digits.DecodeSplit | base91/src/lib.rs:176-206 | decoding does not depend on how the input is cut into writes |
| Base91Digits.DecodeEncode | base91/src/lib.rs:89-131 | the round trip on base-91 digits: 13- and 14-bit groups and a tail of 1 to 13 bits |
| Base91Groups.EncodeIsGrouped | base91/src/lib.rs:89-131 | what is written byte by byte is the bit string of all the bytes cut from the front: 14 bits if the first 13 are at most 88 and else 13, two digits a group, and a rest of at most 13 bits in one digit if it is of at most 7 bits and at most 90, in two otherwise |
| Base91Groups.DecodeIsUngrouped | base91/src/lib.rs:176-216 | for any digits: the decoder writes the whole bytes of the bits that the pairs stand for, and one byte more that a single last digit fills up |
| Base91.Base91Encoder.Write | base91/src/lib.rs:89-115 | writes the characters of the digits and keeps the accumulator below 2^bits, with at most 13 bits |
| Base91.Base91Encoder.Flush | base91/src/lib.rs:117-131 | writes the tail, one character if 7 bits hold it |
| Base91.Base91Decoder.Write | base91/src/lib.rs:176-206 | takes the digits of the input, all other bytes skipped |
| Base91.Base91Decoder.Flush | base91/src/lib.rs:208-216 | writes the last byte of an odd digit |
| Base91.Encode | base91/src/lib.rs:136-144 | the byte string `Base91.RoundTrip` is about |
| Base91.Decode | base91/src/lib.rs:221-229 | the byte string `Base91.RoundTrip` is about |
| Leb128.ReadWrite | codec/src/lib.rs:152-160 | reading the encoding of a 64-bit value gives it back and consumes exactly that encoding |
| Leb128.LengthIsLeast | codec/src/lib.rs:41-54 | the encoded length is the least number n of at least 1 such that the value is below 2^(7n) |
| Leb128.WriteIsShortest | codec/src/lib.rs:82-84 | whatever bytes are read as a value, they are at least as many as the encoding writes for it, and as many only if they are the encoding |
| Leb128.ReadIs | codec/src/lib.rs:151-160 | for any bytes: a read takes them up to the first without the top bit, gives the number of their seven-bit digits, refuses it if 64 bits cannot hold it, and waits if there is no such byte |
| Leb128.ReadFromPrefix | codec/src/lib.rs:124-150 | a truncated read either decides as the whole does or asks for more, exactly when bytes it consumes are missing |
| Leb128.ReadBytewise | codec/src/lib.rs:124-150 | reading one byte more at a time gives the value, the error and the bytes consumed of a direct read |
| Frames.DecodeEncode | codec/src/lib.rs:60-90 | decoding an encoded frame, whatever follows it, returns ident, serial, payload and flag and consumes exactly the frame |
| Frames.FrameLayout | codec/src/lib.rs:92-98 | the order of the fields on the wire, by the repository's own example |
| Frames.WireFormat | codec/src/lib.rs:60-90 | every frame begins with the number of bytes that follow it, the top bit set if it is compressed, then come serial, ident and payload to the end |
| Frames.DecodeFields | codec/src/lib.rs:237-280 | what is made of any length, serial and ident: sizes that do not fit, too little payload, or the frame |
| Frames.LengthCounts | codec/src/lib.rs:237-280 | the length counts exactly the bytes consumed after it if and only if serial and ident came in their shortest forms, and fewer otherwise |
| Frames.EncodeDecode | codec/src/lib.rs:60-90 | encoding a frame decoded from any bytes gives no more bytes than were consumed, and as many only if it gives those bytes |
| Frames.DecodeCut | codec/src/lib.rs:237-280 | what the decoder decides depends only on the bytes it consumes: on a truncated input it says the same or asks for more |
| Frames.TruncatedFrame | codec/src/lib.rs:237-280 | every proper prefix of a frame is incomplete |
| Frames.DecodeAsync | codec/src/lib.rs:172-233 | the asynchronous decoder agrees with the plain one, except that a serial over its limit is refused as soon as it is read |
| PduStream.PduReader.StreamDecode | codec/src/lib.rs:525-558 | takes exactly one whole frame off the front of the buffer, and leaves the buffer alone if there is none or it is corrupt |
| PduStream.PduReader.TryReadAndDecode | codec/src/lib.rs:560-589 | the loop of decoding and reading is one step of `PduStream.Poll` |
| PduStream.PollReads | codec/src/lib.rs:560-589 | one call takes exactly the first frame off the bytes in the buffer and to come, or none of them |
| PduStream.RunIsDecodeAll | codec/src/lib.rs:525-589 | for any bytes, corrupt ones included, in any chunks with would-block results between, repeated calls decode what decoding all bytes at once decodes |
| PduStream.ClosesAt | codec/src/lib.rs:560-589 | the first empty read ends the stream as an end of file and the first failed one as a failure, and what came before them arrives |
| PduStream.DecodeAllWire | codec/src/lib.rs:60-90 | frames sent back to back decode to those frames, and what follows is left over |
| PduStream.FramesArriveInOrder | codec/src/lib.rs:525-589 | frames in any chunks come out in order, each with its serial and ident, those of unknown ident without payload, and exactly the undecoded bytes stay in the buffer |
| SerializedLines.TakeRow | codec/src/lib.rs:1016-1095 | the loop over the cells of one row strips links and images and records the runs and images of the row |
| SerializedLines.Serialize | codec/src/lib.rs:1011-1103 | all rows stripped, their runs in order, their images row by row from left to right |
| SerializedLines.ImageSent | codec/src/lib.rs:1064-1084 | each image is sent with the row and column of its cell, in its place among the images counted row by row and cell by cell, and no others |
| SerializedLines.RunsCoverLinks | codec/src/lib.rs:1011-1096 | the runs are in order and apart, each within a row and of cells that carry one link, and together cover every linked cell |
| SerializedLines.ExtractData | codec/src/lib.rs:983-1008 | puts a new link on the cells of each run, ignoring runs outside the lines |
| SerializedLines.RunAt | codec/src/lib.rs:983-1008 | a run within a row puts the link on just its cells and leaves all else, and any other run does nothing |
| SerializedLines.RoundTrip | codec/src/lib.rs:966-1103 | every cell gets a link of its original value back, and no other cell gets one |
| SerializedLines.SharingKept | codec/src/lib.rs:966-972 | two cells share a link object afterwards if and only if one streak of that object in one row holds both |
| SerializedLines.SharingLost | codec/src/lib.rs:966-972 | cells that shared a link object across a gap and across a row break do not share it afterwards |
| OutputBatching.Batcher.OnAction | mux/src/lib.rs:166-198 | the parser callback: a section starts with a flush of what came before, and its end is flushed with it |
| OutputBatching.Batcher.Settle | mux/src/lib.rs:199-238 | outside a section the turn ends with everything sent, unless there is little, time is left and more input is ready |
| OutputBatching.ParseBufferedData | mux/src/lib.rs:146-248 | for all read sizes and poll outcomes: the batches cut the parsed actions in order, leave nothing over, and before the end of input never cut into a synchronized section; after each turn that nothing readable follows all is sent unless a section is open; the cuts are exactly those of `OutputBatching.TurnCuts`, turn by turn, and one at the end of input |
| OutputBatching.TurnCuts | mux/src/lib.rs:166-238 | the cuts of a turn are those its sections make, and one at its end exactly if there is something to send, no section is open, and nothing is readable, the bytes since the last batch fill the buffer, or the deadline, set by an earlier wait, has passed |
| OutputBatching.FirstFlush | mux/src/lib.rs:199-238 | text that begins to come when all is sent is cut nowhere while each turn is followed by more in time and the bytes read do not fill the buffer, and the first turn of which that is not so sends all of it as one batch |
| OutputBatching.SentInTime | mux/src/lib.rs:199-238 | a turn that nothing readable follows leaves nothing unsent but an open section |
| OutputBatching.DeliveredConserves | mux/src/lib.rs:146-248 | such batches expand to exactly the parsed actions, and none is empty |
| OutputBatching.SectionIsOneBatch | mux/src/lib.rs:166-198 | every completed synchronized section is sent as one batch of its own |
| OutputBatching.MergedExpands | terminaler-escape-parser/src/lib.rs:64-84 | merging prints as they are appended loses no character |
| OutputBatching.MergedIsTight | terminaler-escape-parser/src/lib.rs:64-84 | no single character is left behind text it could have joined |
| OutputBatching.ParseConcat | mux/src/lib.rs:146-166 | parsing in pieces gives the actions of parsing at once |
| TmuxClient.ProtocolHolds | mux/src/tmux.rs:86-259 | in every run: waiting means a non-empty queue whose front was issued last, at most one command is outstanding, the kth response goes to the kth command, and every command is retired once, in order |
| TmuxClient.NothingAfterExit | mux/src/tmux.rs:119-142 | after an exit nothing is issued or answered any more |
| TmuxClient.SettledByNewPane | mux/src/tmux.rs:198-213 | in every run, the pane that a split got showed up, in the batch that settled it, in a known window that it was not known to be in |
| TmuxClient.EventSettles | mux/src/tmux.rs:198-213 | such an event gives its pane to the oldest pending split, and no other event settles any |
| TmuxClient.EventAsks | mux/src/tmux.rs:143-226 | the command each event queues, the session it notes and the windows it forgets |
| TmuxClient.SyncedCommands | mux/src/tmux_commands.rs:358-547 | a reply to `list-windows` that does not fail queues exactly the commands that the windows of the session call for, and just those windows become known |
| TmuxClient.FirstWithText | mux/src/tmux.rs:239-259 | a send passes over the commands without a text, in order, and issues the first one with a text, which stays at the front |
| TmuxClient.StepWakes | mux/src/tmux.rs:230-272 | a step keeps a send scheduled for an idle client with a queue if and only if it is not one of two kinds |
| TmuxClient.WakeupsKept | mux/src/tmux.rs:230-272 | in a run without such steps no wakeup is ever lost |
| TmuxClient.WakeupLost | mux/src/tmux_commands.rs:358-547 | a reachable client, every command sent and answered in turn, that is idle with a command queued and no send scheduled |
| TmuxClient.SendNextSettles | mux/src/tmux.rs:239-259 | a send leaves the client waiting on a command with a text, or with an empty queue |
| TmuxClient.WaitsUnwrittenIff | mux/src/tmux.rs:239-259 | the client waits on a command that was not written if and only if there was one with a text and the pane was not found |
| TmuxClient.WaitsUnwritten | mux/src/tmux.rs:239-259 | a reachable client that waits on a command that was not written |
| TmuxDomain.TmuxDomainState.Advance | mux/src/tmux.rs:86-235 | handles a batch of events in place up to an exit, as the step of the state machine |
| TmuxDomain.TmuxDomainState.HandleEvent | mux/src/tmux.rs:86-228 | handles one event in place |
| TmuxDomain.TmuxDomainState.SendNextCommand | mux/src/tmux.rs:239-259 | drops commands without a text, then issues the front one |
| TmuxDomain.TmuxDomainState.RunScheduled | mux/src/tmux.rs:262-272 | a scheduled send does nothing if the domain is gone |
| TmuxDomain.TmuxDomainState.CreateTmuxWindow | mux/src/tmux.rs:301-305 | queues the command and schedules a send |
| TmuxDomain.TmuxDomainState.SplitTmuxPane | mux/src/tmux.rs:308-332 | queues the split of a remote pane shown locally, and fails, unchanged, exactly when there is none |
| TmuxDomain.TmuxDomainState.SplitPaneOf | mux/src/tmux.rs:379-402 | keeps the promise of the split only if the command was queued |
| TmuxDomain.TmuxDomainState.PtyWrite | mux/src/tmux_pty.rs:25-65 | queues the keys, schedules a send and reports no bytes written |
| TmuxDomain.TmuxDomainState.PtyResize | mux/src/tmux_pty.rs:131-141 | queues the resize and schedules a send |
| LogicalLines.PhysicalRange | term/src/screen.rs:493-512 | the rows for a range of stable indices always lie on the screen |
| LogicalLines.RowsAskedFor | term/src/screen.rs:493-512 | just the rows asked for come if and only if the first and the last of them are on the screen; else the top rows, or at the bottom one row more than asked for |
| LogicalLines.RowBefore | mux/src/renderable.rs:111-122 | asking for the row above gives it, or at the top a row with the same index |
| LogicalLines.GroupRows | mux/src/pane.rs:484-518 | the grouping loop joins the rows in place as the grouping function does |
| LogicalLines.GroupPartitions | mux/src/pane.rs:484-518 | the lines cut the rows one after the other, each with its own first row |
| LogicalLines.CutsConcat | mux/src/pane.rs:484-518 | the physical lines of the result concatenate to the fetched rows |
| LogicalLines.PartAt | mux/src/pane.rs:484-518 | first rows are contiguous |
| LogicalLines.GroupLines | mux/src/pane.rs:500-516 | in each line all rows but the last wrap, and the logical line is their join |
| LogicalLines.GroupEnded | terminaler-surface/src/line/line.rs:1088-1094 | every line of the whole buffer but the last ends at a row that does not wrap |
| LogicalLines.GroupLimited | mux/src/pane.rs:500-516 | without its last row a line is at most 1024 cells long, and a line that goes on in the next one is longer |
| LogicalLines.LookBack | mux/src/pane.rs:453-471 | ends, and goes up over wrapped rows just as far as they are at most 1024 cells together, to the start of the line if no run is over the limit |
| LogicalLines.LookAhead | mux/src/pane.rs:473-488 | ends, and goes down over wrapped rows up to the first of more than 1024 cells, to the end of the line if no run is over the limit |
| LogicalLines.GetLogicalLines | mux/src/pane.rs:439-520 | with no run of wrapped rows over 1024 cells, a range on the screen gives exactly the lines of the whole buffer that meet it; without that, the rows that the two searches reach, grouped |
| LogicalCoords.XyToLogicalX | mux/src/pane.rs:130-147 | the position of a coordinate, 0 above the line and past the end below it |
| LogicalCoords.LogicalXToPhysicalCoord | mux/src/pane.rs:149-162 | the place of a position: in the row whose cells reach it, or past the end in the last row |
| LogicalCoords.PlaceIsUnique | mux/src/pane.rs:149-162 | every position has one place, rows without cells included |
| LogicalCoords.ThereAndBack | mux/src/pane.rs:130-162 | a position mapped to a place and back is itself, past the end too |
| LogicalCoords.BackAndThere | mux/src/pane.rs:130-162 | a coordinate mapped to a position and back is itself if and only if it is on a cell or in the last row |
| LogicalCoords.CellAt | mux/src/pane.rs:130-162 | the cell shown at a coordinate is the cell of the logical line at its position |
| LogicalCoords.OutsideLine | mux/src/pane.rs:130-147 | rows above the line count as its start, rows below it as beyond its last cell |
| Jsonc.StripComments | config/src/jsonc.rs:2-64 | the nested loops compute the text without comment tokens |
| Jsonc.StripKeepsTokens | config/src/jsonc.rs:2-64 | every string literal and every other character outside comments is kept verbatim and in order, and none of the result reads as a comment |
| Jsonc.IdentityIff | config/src/jsonc.rs:2-64 | a text stays as it is if and only if it has no comment |
| Jsonc.StripTwice | config/src/jsonc.rs:2-64 | stripping is idempotent |
| Jsonc.NoCommentLeft | config/src/jsonc.rs:2-64 | where a character-by-character reading of the result is outside a string, no comment mark stands |
| Jsonc.UnclosedBlock | config/src/jsonc.rs:33-50 | a block comment that is never closed swallows all but the last character of the text |
| Jsonc.BlockEnd | config/src/jsonc.rs:36-45 | a block comment ends right after the first closing mark, or before the last character |
| Jsonc.LineEnd | config/src/jsonc.rs:29-34 | a line comment ends before the next line break |

## Left out

- Sizes, pixels, zoom and the data of tree nodes: the pane layout is the tree, the group state and the hidden set.
- `dock_unit` called on its own: the tab calls it only to group and to stack units, and so it is modelled there (`Docking.ReplaceDocks` for any source and target). Which pane a group remembers after a docking is left out, and so are `stack_cycle` and `stack_join`, which come down to the operations modelled.
- Tree surgery for resizing, `focus_layout`, and zoom, which swapping and rotating also ask about.
- PaneRoundTrip.SavedRestores: for the panes that were saved; a restart gives the panes new ids in the same tree, and the model does not rename them. The saved numbers are 32 bits wide in the source. Which pane a group remembers is not saved.
- Removing several panes in one pass: `remove_pane_if` with a condition that matches more than one pane is modelled pane by pane.
- TabLayout.SplitPaneKeepsSound: for a visible pane or the only one, which is all that `compute_split_size` finds a size for; `PaneEdits.SplitKeepsInv` also covers a new pane hidden with a hidden one. A new pane has an id that is neither in the tab nor among its hidden ids.
- PaneRuns.EveryRunValidates: runs take `stack_units` only on wholly visible units and `swap_active_with_index` only within a slot, because of what `PaneValidity.StackUnitsValidatesIff` and `PaneSwaps.SwapValidatesIff` show, and do not wrap around the 32-bit group ids.
- Lfu.LfuCache.Put: a capacity of at least 1, because the source loops forever on 0, and a tick below its 32-bit limit. The tree crate behind the frequency index is modelled as a sequence sorted by frequency that takes new entries after equal ones; which of several entries of the smallest frequency goes is up to that crate and is not stated. No claim is made that the recency list is ordered by tick, because decay moves an entry without touching its tick.
- The counters and hit/miss metrics of the cache.
- The leb128 crate is not part of this model beyond section 7.6 of DWARF Version 4 and its 64-bit overflow rule.
- Payloads of frames (serde, varbincode, zstd): decoding a payload is taken to succeed, and frames carry its bytes.
- Frames of 2^63 bytes or more, which no buffer holds, and the allocation for a length that a corrupt frame claims.
- Images of serialized cells are opaque; cells are one column wide.
- The escape parser is a machine from bytes to actions; the end of the pane (`dead`) and clocks are not modelled beyond what `poll` and the deadline answer.
- tmux: steps are atomic, so races between the state lock and the queue lock are not covered; pane output and its backlog, window titles and pane attachment beyond the tab map are left out; replies to other commands change nothing modelled.
- LogicalLines.GetLogicalLines: the exact equality is for runs of wrapped rows up to 1024 cells, which is what the limit in the source is about; wide cells count as one.
- Signed and unsigned overflow of stable row indices.
- Jsonc: text of one byte a character, because the source pushes bytes as characters.
