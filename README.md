# dance: editing commands for the zed editor, modelled in Dafny

The `dance` crate adds a modal layer and a few editing commands to the
editor. This project models the command layer over a small model of the
host editor. The host editor state is the kind of editor, the buffer as
lines of characters, the selection set, the read-only flag and the cursor
shape. Each host action a command delegates to is recorded in an ordered
call trace.

- `buffer.dfy` (module `Buffer`) defines the host vocabulary:
  - points in lexicographic order;
  - selections;
  - line length and indentation;
  - the clipping edit primitive.
- `host.dfy` (module `Host`) holds the editor class, the editor kinds and events, and the host actions.
- `row_ranges.dfy` (module `RowRanges`) covers the first half of `join_lines`:
  - how the row ranges are built from the selections;
  - the single merging pass over them;
  - its normal form.
- `join.dfy` (module `JoinEngine`) covers the second half of `join_lines`:
  - rows are visited bottom-up;
  - each edit is measured on one frozen snapshot and applied to the live buffer;
  - the recorded cursor ranges become the new selections.
- `select_line.dfy` (module `LineSelection`) models `select_line`.
- `paste.dfy` (module `Clipboard`) models `clipboard_ends_in_newline`, `paste_above` and `paste_below`.
- `mode.dfy` (module `ModeController`) models the mode controller:
  - the initial mode;
  - `switch_mode`, `sync` and the focus-event handler;
  - the invariant that the cursor shape shows the mode.
- `line_motions.dfy` (module `LineMotions`) models `all_selections_are_empty`, `move_to_beginning_of_line` and `move_to_end_of_line`.

Central results:

- **Safe joining.** The host keeps its selections sorted and inside the buffer. Under that condition, `join_lines` visits each requested row once, in strictly descending order. Every edit it makes finds the live buffer still agreeing with the snapshot on the rows that edit was measured on (`JoinEngine.JoinLinesSafe`).
- **Exact edits.** Each edit replaces exactly the line break and the next row's indentation (`JoinEngine.JoinAtEffect`).
- **Ascending selections.** The resulting selections ascend strictly by row (`JoinEngine.JoinedSelectionsAscending`).
- **Idempotent line selection.** Selecting lines twice is the same as selecting them once (`LineSelection.SnapIdempotent`).
- **Cursor follows mode.** The cursor shape tracks the mode (`ModeController.Dance`).

Notes on how the model reads the code:

- **Merging row ranges.** The merging pass of `join_lines` overwrites the end of the last range when a new range touches it. The textbook normaliser takes the larger end instead.
  - The model follows the code (`RowRanges.Merge`).
  - The two are proved equal on the host's sorted selections (`RowRanges.MergeIsMergeMax`).
  - They part ways only on unsorted input (`RowRanges.OverwriteNeedsSortedInput`).
- **Sorted selections.** "Sorted" means that consecutive selections have non-decreasing starts and non-decreasing ends, and each starts before it ends. This is the order the host keeps.
- **Columns and past-the-end rows.**
  - Columns count characters. Indentation is spaces and tabs, one column each.
  - A row past the end of the buffer measures 0.
  - Edit points are clipped into the buffer, so joining the last row changes nothing.

## Model

| member | source | states |
|---|---|---|
| RowRanges.SelectionRows | crates/dance/dance.rs:221-226 | a well-formed selection asks to join exactly its own row when it spans one row, else every row from its start row up to (not including) its end row |
| RowRanges.BuildRowRanges | crates/dance/dance.rs:218-235 | the loop yields the merging pass over the selections' row ranges: no more ranges than selections, pairwise separated (each starts after the previous ends) |
| RowRanges.MergeShape | crates/dance/dance.rs:228-234 | for any input the pass never grows the list, leaves it separated, and the last range ends where the last input range ends |
| RowRanges.MergeAscending | crates/dance/dance.rs:228-234 | on ascending input every merged range is non-empty and the last merged range starts no later than the last input range |
| RowRanges.MergeIsMergeMax | crates/dance/dance.rs:228-234 | on ascending input overwriting the last end equals taking the larger end |
| RowRanges.MergeCovers | crates/dance/dance.rs:228-234 | on ascending input the merged ranges cover exactly the rows the input ranges cover |
| RowRanges.SortedSelectionsGiveAscendingRanges | crates/dance/dance.rs:220-226 | sorted selections yield non-empty row ranges with non-decreasing starts and ends |
| RowRanges.NormalizedRowRanges | crates/dance/dance.rs:218-235 | for sorted selections the built ranges are separated, non-empty, no more than the selections, equal to the max-taking normaliser, and cover a row iff some selection asks to join it |
| RowRanges.OverwriteNeedsSortedInput | crates/dance/dance.rs:229-231 | on the unsorted input [0,5),[1,2) overwriting gives [0,2) while taking the maximum gives [0,5) |
| JoinEngine.JoinEdit | crates/dance/dance.rs:257-266 | the edit for a row spans from the end of the row to the end of the next row's indentation, is non-empty, and inserts one space iff the next row holds more than indentation, else nothing |
| JoinEngine.CursorRangeSpan | crates/dance/dance.rs:252-254 | the cursor range recorded for a row lies in the snapshot and runs from the end of the row to the start of the next row, a non-empty span over the line break; on the last row (or past it) both ends are clipped to the end of the buffer and the range is an empty caret |
| JoinEngine.CursorRanges | crates/dance/dance.rs:249-254 | the traversal records one entry per visited row, the i-th entry for the i-th visited row |
| JoinEngine.Reversed | crates/dance/dance.rs:275 | the reversed list has the same length and holds entry `n - 1 - i` of the original at position i |
| JoinEngine.LastRowGivesCaret | crates/dance/dance.rs:252-254 | joining the only row of the one-line buffer `ab` installs the empty caret at (0, 2), the end of the buffer |
| JoinEngine.JoinAtEffect | crates/dance/dance.rs:257-270 | while the live buffer agrees with the snapshot, the edit removes exactly the line break after the row and the (snapshot-measured, all-blank) indentation of the next live row, inserts the replacement, and leaves every other row alone; on the last row it changes nothing |
| JoinEngine.AgreesAfterJoin | crates/dance/dance.rs:249-270 | an edit at a row keeps the live buffer agreeing with the snapshot for every lower row |
| JoinEngine.JoinTraversalSafe | crates/dance/dance.rs:237-272 | when rows are visited in strictly descending order, each edit finds the live buffer agreeing with the snapshot on the rows it measured |
| JoinEngine.VisitOrder | crates/dance/dance.rs:249-250 | for separated non-empty ranges the traversal (ranges last to first, rows highest first) is strictly descending and visits exactly the rows covered |
| JoinEngine.JoinLinesSafe | crates/dance/dance.rs:218-272 | for sorted in-buffer selections the traversal visits exactly the requested rows, in strictly descending order, all inside the snapshot, and every edit finds the live buffer agreeing with the snapshot |
| JoinEngine.JoinedSelectionsAscending | crates/dance/dance.rs:274-281 | for rows inside the snapshot, reversing the descending cursor list gives one forward selection per visited row, in strictly ascending row order; each is a non-empty span exactly when its row is not the last row of the snapshot, and an empty caret otherwise |
| Buffer.IndentOf | crates/dance/dance.rs:259 | the indentation of a line is its longest leading run of spaces and tabs: every character before it is one of them and the character after it, if any, is not |
| Buffer.ReplaceSplices | crates/dance/dance.rs:268-270 | replacing the text between two in-buffer points keeps the rows before the first point, joins the cut first row with the inserted text and the rest of the last row, and keeps the rows after the last point |
| Buffer.ApplyEdit | crates/dance/dance.rs:268-270 | an edit with clipped points leaves a non-empty buffer with at most as many rows as before |
| JoinEngine.RowsDown | crates/dance/dance.rs:250 | the rows of a range, highest first, each exactly once |
| JoinEngine.FoldDownExtends | crates/dance/dance.rs:249-271 | applying one range's edits highest row first continues the traversal by exactly that range's rows, in the order the inner loop visits them |
| JoinEngine.CursorsDownAt | crates/dance/dance.rs:250-255 | the inner loop records one cursor range per row of the range, the i-th one for the i-th highest row |
| JoinEngine.CursorsDownExtendVisit | crates/dance/dance.rs:249-255 | recording one range's cursor ranges highest row first continues the traversal's cursor list by exactly that range's rows |
| JoinEngine.JoinRow | crates/dance/dance.rs:251-270 | one row of the inner loop records that row's cursor range and applies that row's snapshot-measured edit to the live buffer, leaving the work for the rows below unchanged |
| JoinEngine.EditRange | crates/dance/dance.rs:250-271 | the inner loop applies the edits for the rows of one range, highest first, and records their cursor ranges in that order |
| JoinEngine.EditRows | crates/dance/dance.rs:249-272 | the outer loop applies the edits and records the cursor ranges for every visited row, ranges last to first |
| JoinEngine.JoinedSelectionsWellFormed | crates/dance/dance.rs:274-281 | every selection installed by `join_lines` starts no later than it ends, whatever rows were visited |
| JoinEngine.JoinLinesAscending | crates/dance/dance.rs:218-281 | for sorted selections inside the buffer, the selections installed by `join_lines` ascend strictly by row |
| JoinEngine.JoinedBuffer | crates/dance/dance.rs:218-281 | the buffer becomes the result of the visited edits and the selections become the reversed cursor ranges, all well formed, and strictly ascending by row for sorted in-buffer selections |
| JoinEngine.JoinLines | crates/dance/dance.rs:208-284 | a read-only editor is unchanged; otherwise the buffer is the result of the visited edits, the selections are the reversed cursor ranges, other state is untouched, and for sorted in-buffer selections the new selections ascend strictly by row |
| LineSelection.LastRow | crates/dance/dance.rs:130-135 | the last row taken in lies between the start and end rows, and is before the end row iff the selection spans rows, ends at a row start and has its caret at its start |
| LineSelection.SnapToLines | crates/dance/dance.rs:128-142 | the snapped selection starts at column 0 of the first row, is reversed, keeps its goal, and ends at the start of the row after the last one or at the end of the buffer, whichever comes first |
| LineSelection.SnapCoversWholeLines | crates/dance/dance.rs:109-142 | the snapped selection is well formed, in the buffer, contains the original selection and every point of its rows, and includes the line break after the last row unless it is the buffer's last |
| LineSelection.SnapIdempotent | crates/dance/dance.rs:109-114 | snapping an already snapped selection changes nothing |
| LineSelection.CaretSideDecidesExtension | crates/dance/dance.rs:111-114 | a one-line selection ending at the next row start stays as it is with the caret at its start, and takes in the next line with the caret at its end |
| LineSelection.SnapSelections | crates/dance/dance.rs:125-143 | the loop snaps every selection, keeping their number and order |
| LineSelection.SelectLine | crates/dance/dance.rs:115-150 | the selections are replaced by their snapped forms, still well formed and inside the buffer; nothing else changes |
| Clipboard.AllEndInNewline | crates/dance/dance.rs:155-161 | true iff every entry is text whose last character is a line break |
| Clipboard.ClipboardEndsInNewline | crates/dance/dance.rs:152-165 | true iff there is a clipboard item with at least one entry and every entry is text ending in a line break; an absent clipboard gives false |
| Clipboard.NonTextEntryPastesInPlace | crates/dance/dance.rs:156 | one image or path entry makes the whole clipboard not end in a line break |
| Clipboard.PasteCalls | crates/dance/dance.rs:177-184 | the paste is always issued; without a trailing line break it is issued alone, otherwise a new line on the chosen side comes first and a backspace last |
| Clipboard.NewlineIffBackspace | crates/dance/dance.rs:177-204 | a new line is opened iff a backspace follows iff the clipboard ends in a line break, and the new line is on the command's side |
| Clipboard.PasteAbove | crates/dance/dance.rs:167-185 | appends the paste calls for the new line above to the host trace; buffer, selections and shape untouched by the command itself |
| Clipboard.PasteBelow | crates/dance/dance.rs:187-205 | appends the paste calls for the new line below to the host trace; buffer, selections and shape untouched by the command itself |
| ModeController.InitialMode | crates/dance/dance.rs:71-74 | a full editor starts in "action", every other kind in "default" |
| ModeController.ShapeFor | crates/dance/dance.rs:297-303 | the bar exactly for "default", the wide bar for any other mode |
| ModeController.InitialShape | crates/dance/dance.rs:71-93 | a full editor opens with the wide bar, every other kind with the bar |
| ModeController.Sync | crates/dance/dance.rs:297-303 | sets the cursor shape for the mode and changes nothing else |
| ModeController.Dance.constructor | crates/dance/dance.rs:71-93 | the controller holds the initial mode for the editor's kind and the editor shows it |
| ModeController.Dance.SwitchMode | crates/dance/dance.rs:286-295 | the mode becomes the requested one and the cursor shape shows it; nothing else changes |
| ModeController.Dance.HandleEditorEvent | crates/dance/dance.rs:396-412 | a focus event makes the cursor shape show the mode again; any other event leaves the editor unchanged; the shape-shows-mode invariant is preserved |
| ModeController.Attach | crates/dance/dance.rs:64-107 | without a window nothing is attached and the editor is unchanged; with one a fresh controller in the initial mode is attached and shown |
| LineMotions.AllSelectionsAreEmpty | crates/dance/dance.rs:305-311 | true iff every selection is empty |
| LineMotions.CollapseTo | crates/dance/dance.rs:337 | the collapsed selection is an empty, forward caret at the given point with the given goal |
| LineMotions.CollapseAll | crates/dance/dance.rs:336-338 | the pass collapses every selection to the chosen end without a goal, keeping number and order |
| LineMotions.Collapsed | crates/dance/dance.rs:366-368 | the collapsed selection set, one caret per selection at the chosen end |
| LineMotions.CollapseLeavesOnlyCarets | crates/dance/dance.rs:321-341 | after a collapse every selection is empty, so the next press runs the host's line motion |
| LineMotions.CollapseKeepsOrderAndBounds | crates/dance/dance.rs:336-338 | collapsing sorted selections keeps them sorted and keeps in-buffer selections in the buffer |
| LineMotions.CollapseFixesPlainCarets | crates/dance/dance.rs:337 | collapsing forward carets without a goal changes nothing |
| LineMotions.MoveToBeginningOfLine | crates/dance/dance.rs:313-342 | with only empty selections the host's beginning-of-line motion (stopping at soft wraps and indentation) is issued; otherwise each selection collapses to its start; nothing else changes |
| LineMotions.MoveToEndOfLine | crates/dance/dance.rs:344-372 | with only empty selections the host's end-of-line motion (stopping at soft wraps) is issued; otherwise each selection collapses to its end; nothing else changes |

## Left out

- Window, entity and subscription plumbing, the action registration of `init` and `register_editor_action` are left out, because they are UI framework wiring. Commands are methods on the editor; the controller holds its editor directly.
- `extend_key_context` is left out. It only exposes the mode name to the key binding layer.
- Soft wrap and folds are left out. Display line boundaries are buffer row boundaries.
- Anchors are left out. In `join_lines` the recorded cursor ranges stay as snapshot points, not anchors that follow the edits, so the new selections are stated in snapshot coordinates. Their points are clipped into the snapshot, as the conversion of a point to an anchor clips it.
- Rows and columns are unbounded naturals. The host counts rows as 32-bit unsigned integers; the additions of one to a row in `select_line` and `join_lines` could only wrap at 2^32 rows, which a buffer does not reach.
- Transactions, undo grouping and autoscroll are left out, because they do not change what a command computes.
- The host's own effects are left out, because their code is not part of this model. The commands' delegated actions (new line above or below, paste, backspace, native line motions) are recorded in `Editor.calls` in the order issued.
- The host's clean-up of a new selection set is left out, because it is host code. This covers the sorting and merging of overlapping selections done by `select`, `select_anchor_ranges` and `move_with`.
- The commented-out cursor loop of `join_lines` is left out, because it is not compiled.
- The clipboard is a parameter of the paste commands, because reading it is I/O. Image data and path lists are not inspected.
- Byte columns are left out. Columns count characters; the indentation characters are one byte each, so the two agree on indentation.
- Selection goals are integers here, where the host uses floating-point positions.
- LineSelection.SelectLine: requires every selection to lie in the buffer, which the host guarantees for its selections. The model's `Editor.Valid` does not carry that condition, because `join_lines` leaves snapshot points as selections.
- JoinEngine.JoinLines: the strict ascending order of the new selections is stated only for sorted in-buffer selections, the order the host keeps.
