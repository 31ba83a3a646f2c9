# The editing engine of tofu, in Dafny

tofu is a modal hex editor with many cursors. This project models its editing engine and
proves what the engine keeps: an undo history made of inverted and chained deltas, a
selection of directed regions that stays sorted and disjoint, the edits that connect the
two, and the modes that turn key presses into edits.

## How the model is laid out

- `Subset`, `Delta` and `DeltaLaws` define deltas and subsets of text by their meaning on
  sequences of bytes. The rope library that the editor takes them from is not part of this
  model. A subset is one flag for each byte. A delta is a list of copies and inserts.
- `Action` inverts and chains deltas. `History` keeps the undo and redo stacks and the
  pending partial action. `Timeline` is the simple account of the same thing: a list of
  snapshots. The history of deltas refines it.
- `Region`, `Moves`, `Selections`, `SelectionLaws`, `Transport` and `Selection` model the
  selection.
  The value modules are the specification; the class `Selection` updates its fields in place
  and is proved against them. The closure given to `map_selections` is replaced by the list
  of regions that it returns for each region.
- `Builder` and `Operations` are the delta builder and the eight loops that feed it.
  `OperationLaws`, `ChangeLaws`, `DeletePaste`, `OverflowCursor`, `HexTyping` and
  `OverwriteTyping` say what the edits do to every byte. `ClashLaws` and `OverwriteClash` say
  when edits at the carets bring together regions that point in opposite directions, and
  `Absorption` when a produced region makes no difference.
- `CurrentBuffer` is the class that owns the bytes, the selection, the history and the
  registers. `Modes` and `Transitions` are normal and insert mode. `Bits` and `Characters` are
  what typed characters stand for. `KeyLaws` and `TextEntry` say what the user sees after a
  key. `ModeLaws`, `EditingLaws`, `PanicLaws` and `PanicRun` are about runs of key presses, and
  `Session` drives the objects with such a run. A command that takes several presses, such as
  a count, a width or a search pattern, is one key of the model.
- `Search`, `Split`, `WidthSplit` and `SplitMode` are the literal matcher, the two modes that
  use it, and splitting by a width.
- `HexView` is the sweep that styles the visible bytes. `ByteRope` is the leaf level of the
  byte rope.

A panic of the original is the value `Panic` of type `Outcome`, so that "never panics" and
"panics exactly when" are statements about results. Offsets and lengths are mathematical
integers. A caret or tail may stand one past the last byte, the overflow position.

## Where the code differs from its promises

- `Selection::remove` keeps one main flag only if the removed region is not before the main
  one, or the main one is last (`Selection.RemovedForm`; `Selection.RemoveBeforeMain` is an
  instance with two flags). Jumping and extending to an offset do not clamp it. A run keeps
  the selection well formed and in bounds if its keys stay within these bounds, and a key that
  does not stay there breaks the selection (`ModeLaws.InReachIff`).
- `map_selections` panics exactly when regions that would be merged point in opposite
  directions, or when nothing has been produced by the time the main region is done
  (`SelectionLaws.MapCanonical`). `PanicLaws.PressPanicsIff` says, for every mode, modelled key
  and state that keeps the invariant of the runs, which regions make a key press panic. Moving,
  extending step by step, deleting, pasting, undoing, inserting and appending never do. Erasing, overwriting with text
  and completing a half-typed byte do when a run of touching regions turns inwards
  (`ClashLaws.BackspaceClashes`, `ClashLaws.DeleteCursorClashes`, `ClashLaws.ChangeClashes`).
  A first digit in overwrite mode does more often: also when a cursor and a strictly forward
  region touch, in either order (`OverwriteClash.OverwriteClashes`). Extending to an offset
  does when it lies between two tails (`PanicLaws.ExtendToPanics`). `PanicRun.PanicReached`
  is a run of ten key presses that ends in such a panic on every document of eight bytes, and
  `PanicRun.OverwritePanicReached` one of four on every document of three.
- Two hex digits in overwrite mode are one change to the byte they name, but for the lower
  half of a byte under a caret with another caret right after it: the two carets meet after
  the first digit. The bytes agree if and only if each such byte already had the second digit
  as its lower half; the selection always agrees (`OverwriteTyping.OverwritingTwoDigits`).
  `PanicRun.OverwriteDiffers` is a run that leaves such a byte half typed, and
  `PanicRun.OneChangeWrites` what one change would have written.
- Selecting everything reports the bytes of the document as changed, which misses a deselected
  overflow position (`CurrentBuffer.AllSelectedReport`). Moving away from a half-typed byte
  reports the move only, which misses the byte that completing it deselected
  (`Transitions.MoveFromHalf`, with the family `Transitions.HalfMoveMisses`). The other keys
  that change the selection alone report every position that has to be drawn differently.
- Splitting refuses to run when everything selected is matched, because the result would be
  empty. It still panics when only the regions up to the main one are fully matched
  (`Split.SplitOutcome`, with the instance `Split.SplitPanicExample`). Collapsing has the
  same gap (`Split.CollapseOutcome`). A region that is cut in the middle loses its direction:
  all its pieces point backward (`Split.SplitDirections`).
- A line of the view ends in the default style, unless lines have one byte only
  (`HexView.LineEnds`).
- Deleting and pasting back does not restore the document if regions touch: they share a
  cursor, so the texts after them are pasted one region late and the last one is lost. The
  document still comes back if what is lost is the empty text of a cursor at the overflow
  position and every late text can be swapped with the bytes it is pasted after. That is the
  exact condition (`OverflowCursor.DeletePasteRestoresIff`).
- The comments on `SelRegion` call the tail exclusive. The code treats both ends as
  inclusive, and so does the model.

## Model

| member | source | states |
|---|---|---|
| `DeltaLaws.FactorMeaning` | src/history.rs:15-22 | Factoring a delta gives insertions and deletions on a common text: without the insertions that text is the base, without the deletions it is the result |
| `DeltaLaws.SynthesizeMeaning` | src/history.rs:20-28 | A delta made from the tombstones and two deletion sets over one text leads from the text without the first set to the text without the second |
| `Action.InvertUndoes` | src/history.rs:15-29 | For every valid delta and base, the inverse is valid on the result and gives back the base |
| `Action.InverseDeletesInserted` | src/history.rs:15-29 | What the inverse deletes is exactly what the delta inserted |
| `Action.InvertTwice` | src/history.rs:15-29 | The inverse of the inverse does what the original does, on every document the original fits |
| `Action.UnionWithoutInserts` | src/history.rs:31-59 | Without the chain's inserted subset, the union string is the base |
| `Action.UnionWithoutDeletes` | src/history.rs:31-59 | Without the chain's deleted subset, the union string is the result of both edits |
| `Action.UnionInserts` | src/history.rs:53-66 | The tombstones that `chain` reads off the prefinal text are the inserted bytes of the union string, in the same order |
| `Action.ChainTombstones` | src/history.rs:53-66 | There are as many tombstones as the union string has inserted bytes, which is what synthesizing demands |
| `Action.ChainComposes` | src/history.rs:31-71 | The chained delta does in one step what the two deltas do one after the other |
| `Action.ChainComposesEverywhere` | src/history.rs:31-71 | It does so on every document the first delta fits, not only on the one it was computed from |
| `History.History.constructor` | src/history.rs:83-85 | A new history is empty |
| `History.History.Final` | src/history.rs:87-91 | A final edit pushes its inverse with the selection and drops the redo stack |
| `History.History.Partial` | src/history.rs:93-111 | A partial edit starts the pending action, or grows it by chaining its inverse in front; the selection stays the first one |
| `History.History.Commit` | src/history.rs:113-118 | Committing moves the pending action, if there is one, to the undo stack |
| `History.History.Undo` | src/history.rs:120-133 | Undoing pops an entry, pushes its inverse for redo, and hands out the popped entry |
| `History.History.Redo` | src/history.rs:135-148 | Redoing pops an entry, pushes its inverse for undo, and hands out the popped entry |
| `Timeline.PartialGrows` | src/history.rs:99-110 | Growing the pending action keeps its meaning: it leads from the new document to where the old one led |
| `Timeline.StepAgrees` | src/history.rs:87-148 | Every step of the buffer that snapshots allow is possible, panics exactly when theirs does, and leaves buffer and snapshots in agreement |
| `Timeline.RunAgrees` | src/current_buffer.rs:187-272 | Over every run of edits, partial edits, commits, undos, redos and selection changes, the delta history shows what a list of snapshots shows |
| `Timeline.UndoMany` | src/history.rs:120-133 | k undos lead to the snapshot from k actions ago |
| `Timeline.UndoRedoMany` | src/history.rs:120-148 | k undos and then k redos lead back to where they started, with the same past and future |
| `Timeline.UndoRestores` | src/history.rs:87-148 | k undos and then j redos show exactly the bytes and the selection from k - j actions ago |
| `Timeline.CommitThenUndo` | src/history.rs:113-133 | Committing a pending action and undoing it leads back to where it began |
| `Timeline.SessionIsOneAction` | src/history.rs:93-118 | Any number of partial edits, committed, is one action: one undo restores the bytes and the selection from before the first of them |
| `Region.MergePanics` | src/selection.rs:392-411 | Merging overlapping regions panics exactly if they point in opposite directions |
| `Region.MergeMeaning` | src/selection.rs:392-417 | A merged region covers exactly what the two cover, points where both can be read, and is main if either is |
| `Moves.MovedCaretReaches` | src/selection.rs:267-314 | Left and right change the offset by exactly the count, up and down the line by exactly the count in the same column, and a move that would pass an end stops there; no other offset fits |
| `SelectionLaws.MapCanonical` | src/selection.rs:151-169 | If the outputs start in order, mapping panics exactly on a clash of directions or when the main region comes before any output; otherwise the result is sorted, disjoint, covers exactly the outputs, and its main region holds the main region's last output |
| `SelectionLaws.PushPanics` | src/selection.rs:155-161 | Adding an output panics exactly when it joins regions that point the other way |
| `SelectionLaws.SameWayNoClash` | src/selection.rs:392-411 | Regions that all point one way never clash |
| `SelectionLaws.MapSinglesSameWay` | src/selection.rs:151-169 | One output for each region, all pointing one way and in order: no panic, and the result is well formed, in bounds and covers the outputs |
| `SelectionLaws.MapApart` | src/selection.rs:151-169 | Outputs that do not overlap are taken over unchanged but for the main flag |
| `Absorption.SwallowedLeftOut` | src/selection.rs:151-169 | A produced region with the same caret as the next one, which reaches as far, may be left out: the result is the same, panics included |
| `Absorption.WayStays` | src/selection.rs:392-411 | Regions that all point one way are merged into regions that do |
| `Transport.TransformSurvivor` | src/selection.rs:95-108 | A byte that a delta keeps is found at its transformed offset, and offsets after it stay after it |
| `Transport.CarriedRegions` | src/selection.rs:95-110 | Before merging: carried regions start in order, stay in bounds, keep their direction, and each end on a surviving byte goes to that byte |
| `Transport.CarryKeepsForm` | src/selection.rs:88-111 | Carrying a one-way selection through any valid delta never panics and leaves it sorted, disjoint, flagged and in bounds |
| `Transport.CarryOutcome` | src/selection.rs:88-111 | For any well-formed selection, the carry panics exactly if the document is not empty afterwards and the carried regions clash |
| `Selection.Selection.constructor` | src/selection.rs:15-29 | A new selection is one main cursor at the start |
| `Selection.Selection.Clear` | src/selection.rs:31-35 | Clearing leaves one main cursor at the start |
| `Selection.Selection.Retain` | src/selection.rs:41-46 | Retaining keeps the one region and makes it main |
| `Selection.Selection.Remove` | src/selection.rs:48-55 | Removing does nothing to a single region, else takes the region out, clamps the main index and flags the region there |
| `Selection.RemovedForm` | src/selection.rs:48-55 | The result is always sorted, and it has exactly one main flag if and only if the removed region is not before the main one, or the main one is last |
| `Selection.RemoveBeforeMain` | src/selection.rs:48-55 | There is a well-formed selection on which removing leaves two main flags |
| `Selection.RemovedInBounds` | src/selection.rs:48-55 | Removing a region keeps the others in bounds |
| `Selection.RetainedForm` | src/selection.rs:41-46 | Retaining leaves one main region, in bounds and with the caret and tail of the retained one |
| `Selection.AllSelectedForm` | src/selection.rs:57-64 | Selecting everything gives one forward main region that covers exactly the bytes |
| `Selection.Selection.SelectAll` | src/selection.rs:57-64 | Everything is selected by one forward main region |
| `Selection.Selection.SelectNext` | src/selection.rs:183-187 | The main flag moves on by the count, around the end |
| `Selection.Selection.SelectPrev` | src/selection.rs:189-195 | The main flag moves back by the count, around the start, for every count |
| `Selection.MainMovedForm` | src/selection.rs:183-195 | Moving the main flag keeps all carets and tails, form and bounds, and moving it back restores the selection |
| `Selection.PrevUndoesNext` | src/selection.rs:183-195 | Selecting the previous region undoes selecting the next one, for every count |
| `Selection.AroundIs` | src/current_buffer.rs:289-294 | An index counted around differs from the given one by whole rounds |
| `Selection.Selection.MapSelections` | src/selection.rs:151-169 | The loop computes the map of the specification, or panics when that does |
| `Selection.Selection.ApplyDelta` | src/selection.rs:88-111 | The selection is carried through the delta, or cleared if the document becomes empty |
| `Selection.Selection.ApplyDeltaOffsetCarets` | src/selection.rs:113-149 | The same with carets and tails shifted |
| `Selection.Selection.BinarySearch` | src/selection.rs:74-76 | The binary search finds a region that ends at the offset, or the place where it would be |
| `Selection.Selection.Search` | src/selection.rs:70-77 | The index of the first region that does not end before the offset |
| `Selection.Selection.RegionsInRange` | src/selection.rs:79-86 | The query returns exactly the regions that a linear scan finds to intersect the closed range, in order |
| `Builder.DeltaBuilder.constructor` | src/operations.rs:6-6 | A new builder holds no edits |
| `Builder.DeltaBuilder.Delete` | src/operations.rs:9-11 | Deleting adds an edit with no text; intervals have to come in order |
| `Builder.DeltaBuilder.Replace` | src/operations.rs:47-48 | Replacing adds an edit with its text |
| `Builder.DeltaBuilder.Finish` | src/operations.rs:14-14 | The finished delta is the one that the edits stand for |
| `Builder.BuildApplies` | src/operations.rs:5-15 | A delta built from ordered edits is valid, and applying it splices the texts into the document |
| `Builder.BuildTransform` | src/selection.rs:95-108 | Where the transformer takes an offset, computed from the edits alone |
| `Operations.Deletion` | src/operations.rs:5-15 | The loop feeds the builder in order and builds the deletion of every region |
| `Operations.Backspace` | src/operations.rs:17-28 | The loop builds the deletion of the byte before every caret that has one |
| `Operations.DeleteCursor` | src/operations.rs:30-41 | The loop builds the deletion of the byte under every caret that has one |
| `Operations.InsertText` | src/operations.rs:43-52 | The loop builds the insertion of a text at every caret |
| `Operations.Paste` | src/operations.rs:54-87 | The loop pairs regions with register entries, repeats the last entry, and builds the insertions |
| `Operations.Change` | src/operations.rs:89-98 | The loop builds the replacement of the byte under every caret |
| `Operations.OverwriteHalf` | src/operations.rs:100-115 | The loop builds the replacement of the upper half of the byte under every caret |
| `Operations.Replace` | src/operations.rs:117-128 | The loop builds the replacement of every region by copies of a byte |
| `Operations.DeletionOrdered` | src/operations.rs:7-12 | Deletion adds its intervals in the order the builder needs, for every sorted in-bounds selection |
| `Operations.BackspaceOrdered` | src/operations.rs:19-25 | So does backspace |
| `Operations.DeleteCursorOrdered` | src/operations.rs:33-38 | So does deleting under the cursor |
| `Operations.InsertOrdered` | src/operations.rs:46-49 | So does insertion |
| `Operations.PasteOrdered` | src/operations.rs:66-84 | So does pasting, before or after the regions |
| `Operations.ChangeOrdered` | src/operations.rs:92-95 | So does changing, also at the overflow position |
| `Operations.OverwriteHalfOrdered` | src/operations.rs:102-112 | So does overwriting a half byte |
| `Operations.ReplaceOrdered` | src/operations.rs:119-125 | So does replacing |
| `OperationLaws.DeletionKeepsUnselected` | src/operations.rs:5-15 | Deletion keeps exactly the bytes that are not selected, in order |
| `OperationLaws.ReplaceMeaning` | src/operations.rs:117-128 | Replacing writes the byte at every selected position and nowhere else; the length grows by one exactly if a region reaches the overflow position |
| `OperationLaws.PasteMeaning` | src/operations.rs:54-87 | Pasting keeps every byte, and region k receives register entry min(k, last) repeated count times, at its place |
| `OperationLaws.InsertMeaning` | src/operations.rs:43-52 | Inserting keeps every byte and puts the text before every caret |
| `ChangeLaws.ChangeMeaning` | src/operations.rs:89-98 | For every text: the text of caret k stands at the caret plus k times the growth, every byte under no caret stands as far on as the carets before it make it, and the length follows; a caret at the overflow position adds a byte |
| `ChangeLaws.OverwriteHalfMeaning` | src/operations.rs:100-115 | Overwriting with a first digit changes the bytes under the carets and nothing else |
| `ChangeLaws.HalfByteMeaning` | src/operations.rs:105-111 | Such a byte has the new digit above and the old lower digit below, or zero past the end |
| `ChangeLaws.DeleteCursorMeaning` | src/operations.rs:30-41 | Exactly the bytes under the carets are removed |
| `ChangeLaws.BackspaceMeaning` | src/operations.rs:17-28 | Exactly the bytes right before the carets are removed |
| `DeletePaste.DeletionLeavesCursors` | src/selection.rs:88-111 | After deleting regions that do not touch there is one cursor for each, where the region collapsed to |
| `DeletePaste.DeletePasteRestores` | src/modes/normal.rs:218-260 | Deleting the selections and pasting them once before the cursors restores the document, if no two regions touch |
| `DeletePaste.TouchingMerge` | src/selection.rs:151-161 | Touching regions end up in fewer cursors than there were regions |
| `DeletePaste.TouchingTwice` | src/selection.rs:151-161 | Two touching pairs cost at least two cursors |
| `DeletePaste.TouchingBytesLose` | src/modes/normal.rs:218-260 | If every region holds a byte and two touch, delete and paste never restores the document |
| `OverflowCursor.OnePairPasted` | src/operations.rs:54-87 | With one touching pair and a cursor at the overflow position, the bytes of every region from the second of the pair on are pasted after the gap that followed them |
| `OverflowCursor.OnePairRestoresIff` | src/modes/normal.rs:218-260 | Then the document comes back if and only if each of these regions can be swapped with the gap after it |
| `OverflowCursor.DeletePasteRestoresIff` | src/modes/normal.rs:218-260 | For every well-formed selection in bounds: delete and paste restores the document if and only if no two regions touch, or only one pair does, the last region is a cursor at the overflow position, and from the second of the pair on every region can be swapped with the gap after it |
| `OverflowCursor.OverflowRestoresIff` | src/modes/normal.rs:218-260 | If a cursor at the overflow position touches the region before it, delete and paste restores the document if and only if no other two regions touch |
| `OverflowCursor.TwoTouchesLose` | src/modes/normal.rs:218-260 | With two touching pairs the document never comes back, a cursor at the overflow position included |
| `ClashLaws.ClashChain` | src/selection.rs:151-169 | Regions whose ends ascend clash exactly if two opposed ones are joined by a chain of neighbours that overlap |
| `ClashLaws.BackspaceClashes` | src/modes/insert.rs:192-198 | Backspace makes regions clash exactly if a forward region of three or more positions is followed, touch by touch, by regions whose caret is their start, the last of them no cursor |
| `ClashLaws.DeleteCursorClashes` | src/modes/insert.rs:199-205 | Delete makes regions clash exactly if a forward region that is no cursor leads, touch by touch over regions whose caret is their end, to a backward one of three or more positions |
| `ClashLaws.ChangeClashes` | src/operations.rs:89-98 | Changing the bytes under the carets clashes on the same condition, whatever the text |
| `OverwriteClash.OverwriteClashes` | src/modes/insert.rs:107-117 | A first digit in overwrite mode makes regions clash exactly if a strictly forward region touches one that is not, or a cursor touches a strictly forward region |
| `HexTyping.HalfView` | src/modes/insert.rs:94-106 | After the first digit the document is one byte longer per caret, the carets stand on the half-typed bytes, and the selection is well placed |
| `HexTyping.TwoDigitsAreOneByte` | src/modes/insert.rs:80-130 | Typing the two halves of a byte leaves the same bytes and the same selection as inserting it whole at every caret, overflow position included |
| `HexTyping.ErasingFirstDigitRestores` | src/modes/insert.rs:182-191 | Typing a first digit and erasing it restores the bytes and the selection, also at the end of a document and in an empty one |
| `OverwriteTyping.FirstDigitView` | src/modes/insert.rs:107-117 | After the first digit in overwrite mode the upper halves under the carets are new, and the regions are those whose caret has no caret right after it |
| `OverwriteTyping.TwoDigitsOverwrite` | src/modes/insert.rs:80-130 | In overwrite mode the first digit panics exactly on its condition; otherwise the second never does, the selection is that of one change to the whole byte, and the bytes are its bytes if and only if every byte under a caret with a caret right after it had the second digit as its lower half |
| `Characters.HexDigitIs` | src/modes/insert.rs:86-90 | A character is the digit d exactly if it stands at place d of the hex alphabet, in either case |
| `Characters.NoOtherDigits` | src/modes/insert.rs:86-88 | A character is a digit at all exactly if it stands in one of the alphabets |
| `Characters.DecodesIff` | src/modes/insert.rs:65-66 | The encoding of a character is the one byte string that a UTF-8 decoder reads as it; longer forms, surrogates and numbers past the last code point are not read |
| `Characters.EncodeForm` | src/modes/insert.rs:65-66 | A character below 128 is its own single byte, and all later bytes of an encoding are continuation bytes |
| `Bits.DigitsMakeByte` | src/modes/insert.rs:90-91 | Two digits joined by shift and or are the byte 16 times the first plus the second |
| `CurrentBuffer.SortByStartForm` | src/current_buffer.rs:169-169 | Sorting by start keeps the intervals and puts their starts in order |
| `CurrentBuffer.InvalidatedRanges` | src/current_buffer.rs:160-168 | The intervals collected are exactly the old regions and the produced ones |
| `CurrentBuffer.Coalesce` | src/current_buffer.rs:171-184 | The coalesced intervals are in order, pairwise disjoint, and cover exactly what was collected |
| `CurrentBuffer.CurrentBuffer.constructor` | src/current_buffer.rs:83-93 | A new buffer has its bytes, a cursor at the start and an empty history |
| `CurrentBuffer.CurrentBuffer.MapSelections` | src/current_buffer.rs:159-185 | The selection is mapped; the reported intervals are disjoint, cover exactly the old regions and the produced ones, and hold every position that is selected or deselected or enters or leaves the main region |
| `CurrentBuffer.AllSelectedReport` | src/modes/normal.rs:295-301 | The report of selecting everything is complete if and only if the document is empty or no region reached the overflow position |
| `CurrentBuffer.CurrentBuffer.ApplyDeltaToCurrentBuffer` | src/current_buffer.rs:187-198 | The history records the edit against the old bytes, which are then replaced |
| `CurrentBuffer.CurrentBuffer.ApplyDelta` | src/current_buffer.rs:200-206 | A final edit changes bytes, history and selection together |
| `CurrentBuffer.CurrentBuffer.ApplyDeltaOffsetCarets` | src/current_buffer.rs:208-220 | The same with shifted carets |
| `CurrentBuffer.CurrentBuffer.ApplyIncompleteDelta` | src/current_buffer.rs:222-228 | A partial edit grows the pending action |
| `CurrentBuffer.CurrentBuffer.ApplyIncompleteDeltaOffsetCarets` | src/current_buffer.rs:230-241 | The same with shifted carets |
| `CurrentBuffer.CurrentBuffer.CommitDelta` | src/current_buffer.rs:244-246 | The pending action becomes an undo entry |
| `CurrentBuffer.CurrentBuffer.PerformUndo` | src/current_buffer.rs:248-259 | An undo restores bytes and selection and reports whether there was one |
| `CurrentBuffer.CurrentBuffer.PerformRedo` | src/current_buffer.rs:261-272 | A redo restores bytes and selection and reports whether there was one |
| `CurrentBuffer.CurrentBuffer.RemoveSelection` | src/current_buffer.rs:281-291 | The region that the index means, counted around the end, is removed, and all the old regions are reported |
| `CurrentBuffer.CurrentBuffer.RetainSelection` | src/current_buffer.rs:281-294 | That region alone is retained, and all the old regions are reported |
| `CurrentBuffer.CurrentBuffer.SelectNext` | src/current_buffer.rs:274-297 | The main flag moves on; the old and the new main region are reported |
| `CurrentBuffer.CurrentBuffer.SelectPrev` | src/current_buffer.rs:274-300 | The main flag moves back; the old and the new main region are reported |
| `CurrentBuffer.CurrentBuffer.YankSelections` | src/current_buffer.rs:302-315 | The register receives the bytes of each region, in order, and nothing else changes |
| `Transitions.TransitionAsciiInsertion` | src/modes/insert.rs:60-78 | A typed character is a partial insertion, or a change in overwrite mode |
| `Transitions.TransitionHexInsertion` | src/modes/insert.rs:80-130 | A hex digit starts a byte or completes the half-typed one |
| `Transitions.InsertTransition` | src/modes/insert.rs:148-251 | Each key of insert mode does to the buffer what the run model says, and leads to the mode it says |
| `Transitions.MoveFromHalf` | src/modes/insert.rs:206-232 | Moving away from a half-typed byte completes it with a zero first; the report is complete if and only if every position selected before is selected after completing or after moving |
| `Transitions.HalfMoveMisses` | src/modes/insert.rs:206-232 | Moving right from one half-typed byte with more bytes after it leaves it deselected and unreported |
| `Transitions.CaretTransition` | src/modes/insert.rs:206-232 | Moving the carets with no byte half typed does what the run model says, and the report is complete |
| `Transitions.TypeTransition` | src/modes/insert.rs:233-250 | A typed character is entered as text or as a hex digit, or ignored |
| `Transitions.EraseTransition` | src/modes/insert.rs:182-205 | Backspace and Delete, which both take back a half-typed byte, do nothing to an empty document |
| `Transitions.NormalTransition` | src/modes/normal.rs:113-335 | Each modelled key of normal mode does to buffer and registers what the run model says, and leads to the mode it says |
| `Transitions.SelectionTransition` | src/modes/normal.rs:125-217 | A key that leaves the document alone is always possible and does to the selection what the run model says; its report is complete exactly if it does not select everything while a region reaches the overflow position |
| `Transitions.ReshapeTransition` | src/modes/normal.rs:125-217 | Moving, extending, jumping and extending to an offset, swapping, collapsing and starting to insert or append map every region to one region, and the report is complete |
| `Transitions.ReselectTransition` | src/modes/normal.rs:261-301 | Selecting the next, the previous or all regions, and removing or retaining one, change the selection without mapping it; the report is complete but for selecting everything while a region reaches the overflow position |
| `Transitions.CountTransition` | src/modes/normal.rs:261-284 | The region to remove or retain is counted from one, around the end, and is the main one without a count; the report is complete |
| `Transitions.MainTransition` | src/modes/normal.rs:286-294 | The main flag moves on or back, and reporting the two main regions is complete |
| `Transitions.RegionTransition` | src/modes/split.rs:118-129 | The keys that change which regions there are, splitting by width among them |
| `Transitions.SplitTransition` | src/modes/split.rs:49-96 | Splitting at a pattern takes the greedy matches and refuses when everything is matched; the report is complete |
| `Transitions.CollapseTransition` | src/modes/collapse.rs:17-46 | Collapsing to a pattern takes the greedy matches and refuses when nothing is matched; the report is complete |
| `Transitions.EditTransition` | src/modes/normal.rs:218-331 | The keys that delete, change, paste, undo and redo |
| `Transitions.PasteFrom` | src/modes/normal.rs:251-260 | Pasting is one final edit with the register's entries, or with an empty text if the register was never filled |
| `Transitions.YankAndDelete` | src/modes/normal.rs:218-226 | The selections are yanked first, and deleted unless the document is empty |
| `ModeLaws.MoveInOrder` | src/selection.rs:267-290 | Every simple move of a well-formed selection produces regions in order and in bounds |
| `ModeLaws.ExtendInOrder` | src/selection.rs:292-314 | Every simple extension produces regions that start in order and are in bounds |
| `ModeLaws.KeysInOrder` | src/modes/normal.rs:149-217 | So do swapping, collapsing, and starting to insert or append |
| `ModeLaws.SelectSound` | src/current_buffer.rs:159-168 | Such regions lead to a well-placed selection, or panic exactly on a clash |
| `ModeLaws.ShiftedCarry` | src/selection.rs:113-149 | An edit, with carets shifted back or not, panics exactly if the carried regions clash, and else leaves the view well placed |
| `ModeLaws.InReachIff` | src/selection.rs:316-322 | Jumping or extending to an offset, unless it panics, leaves the selection well placed if and only if the offset lies in the document; removing a region does if and only if that keeps one main flag |
| `ModeLaws.HexSound` | src/modes/insert.rs:94-129 | Typing a digit in any insertion mode fits the document and leaves the view well placed unless it panics |
| `ModeLaws.PressKeeps` | src/modes/normal.rs:113-335 | One key press, splitting and collapsing included, keeps the selection well formed and in bounds, keeps buffer and snapshots in agreement, and leaves an action pending only in insert mode |
| `ModeLaws.KeysKeep` | src/modes/insert.rs:148-251 | The same over every run of key presses, up to a panic if there is one, as long as offsets jumped to lie in the document and removing keeps one main flag |
| `KeyLaws.MoveKeys` | src/modes/normal.rs:181-195 | In every mode, the keys that move leave cursors exactly where the carets lead, the main one where the main caret leads, and never panic |
| `KeyLaws.ExtendKey` | src/modes/normal.rs:196-210 | Extending selects exactly from every tail to where its caret leads; regions that are not merged keep their tails |
| `KeyLaws.EmptyStays` | src/selection.rs:267-314 | In an empty document the keys that move or extend change nothing |
| `KeyLaws.ExtendToKey` | src/modes/normal.rs:137-147 | Extending to an offset panics exactly if it lies between two tails, and otherwise selects exactly from every tail to it |
| `KeyLaws.JumpKey` | src/modes/normal.rs:126-136 | Jumping leaves one main cursor at the offset |
| `KeyLaws.TurnKeys` | src/modes/normal.rs:149-217 | Swapping exchanges caret and tail, collapsing puts the tail at the caret, and starting to insert puts the caret at the first position; each region stays in its place |
| `KeyLaws.AppendKey` | src/modes/normal.rs:157-176 | Starting to append makes every region point forward and one position longer, as long as there is one, and joins those that meet |
| `KeyLaws.HalfMoveKey` | src/modes/insert.rs:206-232 | Moving away from a half-typed byte makes one change of the bytes under the carets, panics exactly as that does, and leaves cursors one byte left of where the carets lead |
| `KeyLaws.TextKey` | src/modes/insert.rs:60-78 | A character typed as text is inserted before every caret, or in overwrite mode written over the byte under it, in bytes that decode to it; it panics exactly on the condition for changes |
| `KeyLaws.NullKey` | src/modes/insert.rs:169-176 | The key for a null byte inserts one before every caret in any insertion mode |
| `KeyLaws.RegistersTold` | src/modes/normal.rs:218-250 | Deleting, changing and yanking fill the register they name with the bytes that each region selects; no other register or key changes |
| `KeyLaws.YankKey` | src/modes/normal.rs:247-250 | Yanking changes nothing but its register |
| `KeyLaws.PasteKey` | src/modes/normal.rs:251-260 | Pasting inserts count copies of entry k, or of the last one, right before the first position of region k or right after its last one, and never panics |
| `KeyLaws.MainKeys` | src/modes/normal.rs:286-294 | The keys for the next and previous region move the main flag by the count around the circle of regions and keep all regions |
| `KeyLaws.SelectAllKey` | src/modes/normal.rs:295-301 | Selecting everything leaves one forward region over exactly the bytes |
| `KeyLaws.RetainKey` | src/modes/normal.rs:274-284 | Retaining keeps the region that the count means, counted from one around the circle, or the main one |
| `KeyLaws.RemoveKey` | src/modes/normal.rs:261-273 | Removing takes that region away and keeps the others |
| `KeyLaws.SearchKeys` | src/modes/split.rs:49-96 | Splitting and collapsing by a pattern do with its greedy matches what the specification of the two says, refusals and panics included |
| `KeyLaws.WidthKey` | src/modes/split.rs:118-129 | Splitting by a width does what its specification says |
| `KeyLaws.ModesTold` | src/modes/insert.rs:148-251 | Which mode every key of every mode leads to, with its way of inserting, kind of input and half-typed byte |
| `TextEntry.InsertThenText` | src/modes/normal.rs:149-156 | Starting to insert and typing a character puts its encoding right before every region |
| `TextEntry.ChangeKey` | src/modes/normal.rs:227-246 | Changing yanks and deletes the selection and leads to insert mode |
| `TextEntry.ChangeThenText` | src/modes/normal.rs:227-246 | Changing and typing a character puts its encoding in the place of every region if and only if no two regions touch |
| `EditingLaws.UndoKeysRestore` | src/modes/normal.rs:314-331 | In every state of normal mode that keeps the invariant, k presses of undo and j of redo show the bytes and selection from k - j actions ago |
| `EditingLaws.UndoAfterAnyKeys` | src/modes/normal.rs:314-331 | Whatever was typed since a document was opened, with however many regions, k presses of undo and j of redo show the bytes and selection from k - j actions ago |
| `EditingLaws.TypingTwoDigits` | src/modes/insert.rs:80-130 | In every state of insert or append mode that keeps the invariant, for all h and l below 16: typing characters that stand at h and l of the hex alphabet inserts the byte 16 h + l at every caret |
| `EditingLaws.TakingBackADigit` | src/modes/insert.rs:182-191 | In every such state, a first digit followed by Backspace or Delete restores bytes, selection and mode |
| `OverwriteTyping.OverwritingTwoDigits` | src/modes/insert.rs:80-130 | In every state of overwrite mode that keeps the invariant, typing the digits h and l panics exactly on the condition for the first; otherwise it leaves the selection of one change to the byte 16 h + l, and its bytes exactly on the condition on lower halves |
| `EditingLaws.DeleteThenPasteKeys` | src/modes/normal.rs:218-260 | In every state of normal mode that keeps the invariant, the keys for deleting and pasting back never panic and restore the document if and only if the condition of delete and paste holds |
| `EditingLaws.InsertKeysInSession` | src/modes/insert.rs:164-232 | In insert mode every key but Escape only adds to the pending action or moves the selection |
| `EditingLaws.SessionUndone` | src/modes/insert.rs:164-168 | However much is typed in insert mode, Escape and one undo restore bytes and selection from before the first edit |
| `PanicLaws.ExtendCalm` | src/selection.rs:292-314 | Extending any well-formed selection never panics: regions that meet can always be read the same way |
| `PanicLaws.ExtendToPanics` | src/selection.rs:320-322 | Extending to an offset panics exactly if some tail lies before the offset and another after it |
| `PanicLaws.PressPanicsIff` | src/selection.rs:392-411 | In every state that keeps the invariant of the runs, overwrite mode and half-typed bytes included, a key press panics exactly if the regions before it meet the condition given for that key |
| `PanicRun.ManyRegions` | src/modes/split.rs:118-129 | Selecting everything in an opened document and splitting by a width leads to exactly as many regions as the document has pieces of that width |
| `PanicRun.EraseWitness` | src/modes/insert.rs:192-198 | In append mode, with a forward region of three positions right before a backward one of two, Backspace panics |
| `PanicRun.PanicReached` | src/modes/insert.rs:192-198 | Ten key presses lead from any opened document of eight bytes to such a panic |
| `PanicRun.OverwritePanicReached` | src/modes/insert.rs:107-117 | Four key presses, the last a first digit in overwrite mode, lead from any opened document of three bytes to a panic |
| `PanicRun.OverwriteDiffers` | src/modes/insert.rs:80-130 | Selecting a document of two bytes, splitting it into bytes and typing any two digits over both leaves the lower half of the first byte as it was |
| `PanicRun.OneChangeWrites` | src/operations.rs:89-98 | One change at the same two cursors writes the whole byte twice |
| `Session.PressKey` | src/modes/normal.rs:113-335 | One key press on a buffer object whose state keeps the invariant: the object, its registers and the mode become those of the run model, or both panic |
| `Session.PressKeys` | src/modes/insert.rs:148-251 | The same for a loop over any run of key presses |
| `Session.OpenAndPress` | src/current_buffer.rs:83-93 | A new buffer object, driven by a run of key presses, shows what the run model says of an opened document |
| `Search.MatchesInRegion` | src/modes/search.rs:69-85 | The loop ends and returns the greedy leftmost matches of a nonempty literal pattern in a region |
| `Search.GreedyLaid` | src/modes/search.rs:75-84 | Such matches lie in the region, ascend and do not overlap |
| `Search.NothingMissed` | src/modes/search.rs:75-84 | Every occurrence inside the region overlaps a match, so none lies in a gap |
| `Search.GreedyUnique` | src/modes/search.rs:75-84 | There is only one list of greedy matches |
| `Search.MapSelectionsToMatches` | src/modes/search.rs:64-86 | Each region gets its own greedy matches |
| `Search.MatchesUnique` | src/modes/search.rs:64-86 | The matches are those of a function of document, pattern and regions, and no others |
| `Split.SplitRegion` | src/modes/split.rs:70-92 | The loop cuts a region at its matches, as the recursive specification does |
| `Split.SplitCovers` | src/modes/split.rs:70-92 | The pieces of a region cover exactly its positions outside the matches |
| `Split.SplitInside` | src/selection.rs:427-452 | The pieces lie inside the region, in order and apart |
| `Split.SplitApart` | src/modes/split.rs:70-92 | Between two pieces of a region there is always a match |
| `Split.SplitDirections` | src/selection.rs:427-452 | If some match has an unmatched position before it and does not end the region, all pieces point backward; otherwise there is at most one piece, which points as the region does |
| `Split.SplitLength` | src/modes/split.rs:55-64 | The lengths of pieces and matches add up to that of the region |
| `Split.MapPieces` | src/selection.rs:151-169 | Pieces inside their regions are not merged by the map, which panics exactly if the regions up to the main one left none |
| `Split.SplitOutcome` | src/modes/split.rs:49-96 | Splitting is refused exactly if every region is fully matched, panics exactly if those up to the main one are, and otherwise selects exactly the selected positions outside all matches; each result points as the pieces of its region do |
| `Split.CollapseOutcome` | src/modes/collapse.rs:17-46 | Collapsing is refused exactly if nothing matched, panics exactly if nothing did up to the main region, and otherwise selects exactly the matched positions; each match points forward if its region does and backward otherwise |
| `Split.SplitAndCollapsePartition` | src/modes/split.rs:49-96 | The results of splitting and collapsing partition the original selection |
| `Split.SplitPanicExample` | src/modes/split.rs:60-64 | A selection, document and pattern on which splitting passes its guard and panics |
| `SplitMode.TotalMatched` | src/modes/split.rs:55-59 | The number of matched bytes |
| `SplitMode.TotalSelected` | src/selection.rs:37-39 | The number of selected positions |
| `SplitMode.SplitBySearch` | src/modes/split.rs:49-96 | Searching, the guard and the map together do what the specification of splitting says |
| `SplitMode.CollapseBySearch` | src/modes/collapse.rs:17-46 | The same for collapsing |
| `WidthSplit.WidthTiles` | src/modes/split.rs:118-129 | The pieces of a region are in order, cover it exactly, keep its direction, and all but the last have the full width |
| `WidthSplit.WidthSplitMeaning` | src/modes/split.rs:118-129 | Splitting by width panics exactly if width times count is zero; otherwise no pieces are merged, the covered positions are unchanged, and the main region is the last piece of the old one |
| `HexView.StackTellsSelection` | src/hex_view/view.rs:971-1044 | The style stack holds a selection style exactly when the byte lies in a region |
| `HexView.MarkByte` | src/hex_view/view.rs:984-1034 | One round of the sweep marks a byte as the selection alone determines, and never reads below the default style |
| `HexView.MarkCommands` | src/hex_view/view.rs:964-1048 | The sweep marks every visible byte as a pointwise specification says, regions that begin before the visible range included |
| `HexView.ByteShown` | src/hex_view/mod.rs:177-202 | Drawn with its marks in the style left by the byte before, or at the start of a line in any style, a byte has the caret style on its digits if the caret of its region is there (on the lower one only with a half cursor), the selection style if it is selected otherwise, and the default style elsewhere |
| `HexView.CharacterShown` | src/hex_view/mod.rs:204-222 | The same for the character of the byte, which with a half cursor never shows the caret |
| `HexView.LineEnds` | src/hex_view/view.rs:1028-1039 | A line ends in the default style if and only if it has more than one byte, or its byte is not strictly inside a region |
| `HexView.DrawHexRow` | src/hex_view/view.rs:729-738 | The loop applies the marks of a line in order |
| `HexView.RowShown` | src/hex_view/view.rs:729-738 | Whatever style is in force before a line, every digit of it has the style that the selection calls for |
| `HexView.DrawVisible` | src/hex_view/view.rs:1317-1376 | Marking the visible bytes and drawing them line by line gives every digit the style that the selection calls for |
| `HexView.CursorBecomesVisible` | src/hex_view/view.rs:896-902 | After following the main cursor it is visible, if and only if there is a row besides the status line |
| `HexView.FollowsByLines` | src/hex_view/view.rs:1654-1664 | The view stays at the start of a line, and does not move while the cursor is visible |
| `HexView.ScrollsToCursor` | src/hex_view/view.rs:1654-1664 | It moves just so far that the line of the cursor becomes the first or, unless that would be before the start, the last one |
| `HexView.Screen.FollowMainCursor` | src/hex_view/view.rs:1654-1664 | The start offset is moved only if the main cursor is not visible |
| `ByteRope.PushMaybeSplit` | src/byte_rope.rs:29-40 | A grown leaf and what is split off hold all bytes in order, both within the leaf limit |
| `ByteRope.FromBytes` | src/byte_rope.rs:148-167 | The leaves hold the bytes in order, fit the limit, and all but the last are full |
| `ByteRope.ChunkIter.constructor` | src/byte_rope.rs:108-114 | A new iterator still has the whole range to yield |
| `ByteRope.ChunkIter.Next` | src/byte_rope.rs:188-203 | Each chunk is the next part of the range; none is left exactly when the range is used up |
| `ByteRope.SliceToBytes` | src/byte_rope.rs:116-133 | Collecting the chunks gives the bytes of the range |

## Left out

- Chunk loading and trimming, and the key that loads the next chunk and scrolls down: file input and output.
- Terminal output, colours, status line, prompts, byte properties and the blank that marks an overflow cursor: user interface.
- The wildcard branch of pattern search: it is handed to a regular expression library.
- The editing of a search pattern before it is accepted: it would only add easy members.
- The balanced tree of the rope library and its run-length subsets: modelled by their meaning on sequences, one flag and one element per byte.
- Key maps, commands, program start-up, count entry, jumping to the ends of lines and files, the dispatch of replace mode and the list of buffers: plumbing or easy members.
- Machine integers: counts and offsets do not overflow. Only the cast after a caret has been shifted below zero wraps around, as a 64-bit word does.
- ModeLaws.KeysKeep: asks of the run that offsets jumped or extended to lie in the document and that removing a region keeps one main flag. Beyond that the original leaves an invalid selection (ModeLaws.InReachIff), and what later keys do to one is not modelled.
- ModeLaws.PressKeeps: asks the same of its key.
- EditingLaws.UndoAfterAnyKeys: asks the same of the run.
- PanicLaws.PressPanicsIff: asks the same of its key.
- Session.PressKeys: asks the same of the run, and Session.PressKey and Session.OpenAndPress do too.
- KeyLaws.RemoveKey: asks the same of its key.
- KeyLaws.MoveKeys: leaves out lines of no bytes; so do KeyLaws.ExtendKey and KeyLaws.HalfMoveKey. The empty document is in KeyLaws.EmptyStays.
- Transitions.NormalTransition: leaves out the keys that only enter replace, command or line-jump mode, and measuring, which change neither bytes nor selection.
