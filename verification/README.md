# A verified model of emil's editing and display core

emil is a small terminal text editor.  A buffer is an array of rows that stands for one
byte string, `row[0] "\n" row[1] "\n" ... row[n-1]`.  This project models the parts of it
where several representations of the same thing have to agree, and proves that they do.

**Editing and undo.** Every edit goes through one function, which records what it
deletes and inserts, may fold the record into an open run of typing, splices the row
array, moves every tracked point (mark, mark ring, window cursors and tops, point
registers), refuses to delete a file's final newline and nothing else, and puts that
newline back when it went along with other text. `Text`, `Points`, `Utf8` and `Records`
hold the facts about flat text, coordinates, encodings and single records. `History` and
`Undoing` say what an edit, an undo and a redo do to a flat document (`Doc`); `Landing`
adds character boundaries and `Clamping` the clamp of cursor and mark behind every
command; `Runs` quantifies over every sequence of commands from a load; `SingleUndo`
relates one undo to one command, `TakingBack` what undos make of the tracked points.
`Lines`, `RowStore`, `RowSplice` and `EditBuffer` are the imperative side: a class over
growing arrays of NUL-terminated rows with cached widths, whose methods are proved to be
the operations on `Doc`. `Following` says in offsets where an edit takes each tracked point.
`Loading`, `Files`, `Typing`, `Erasing` and `Editing` are the commands around it.

**Word wrap and the viewport.**  `Wrap` is the greedy breaker, `Sublines` the functions
that re-run it within a row, `ScreenLines` the numbering of all screen lines of a buffer
and the forward walker, `Viewport` and `Painting` a window: its stored top, scrolling,
keeping the cursor in sight, and what a frame paints.  Every position is the number of a
screen line, so that agreement of the walkers is equality of numbers.

**Transformations.**  `Substitution` and `Replacing` (regex replacement), `Sexp` (balanced-expression
motion), `Rectangles` and `RectangleEdits` (rectangle kill and yank), `Paths` and
`Rebasing` (cleaning and rebasing file names).

`wcwidth` and the regex engine are parameters: any function with results from -1 to 2, and
any function whose matches lie within the text it was given; `Replacing` says what more is
asked of an engine where characters or the completeness of a search are the point.

## Where the code and its comments part

The model follows the code.

- mutate.c:85-86 says the row appended to restore the final newline moves no tracked
  point.  A point exactly at the end of the text moves
  (`Points.AppendedNewlineMovesTheEnd`): the mark after typing or deleting at the end of a
  file, for one (`History.RepairCarriesTheMark`).
- fileio.c:1728-1732 returns names that begin with a tilde segment unchanged because they do
  not depend on the working directory, but can itself make such a name of one that did
  (`Rebasing.RebasedIsAnchored`).
- fileio.c:547-548 says a carriage return that is not before a newline is kept.  One at the
  end of an unterminated last line is lost (`Loading.LoadingKeepsTheBytes`).
- display.c:266-269 says the scroll allowance may be negative.  For a downward request it
  is clamped at zero (`Viewport.Window.ScrollAllowance`).
- display.c:209-211: with a stale sub-line stored in the top, the distance to the line the
  window does show at its top is -1 (`Viewport.Window.LinesFromTop`).  Scrolling up from
  such a top counts the missing sub-lines before it moves (`Viewport.Window.ScrollViewport`).
- display.c:406: without wrap the end flag is not set when the last row is exactly the
  window's bottom line (`Painting.UpdateEndFlag`).
- wrap.c:225-234: on a screen narrower than a tab the breaker can report a following line
  that does not exist (`Wrap.SoundIffFirstFits`, `Wrap.TabOnANarrowScreen`).
- fileio.c:1631-1635 says a path of more than 256 segments is returned unmodified.  Its
  first name has by then been cut off from the rest (`Paths.OverflowCutsThePath`).

## Model

| member | source | states |
|---|---|---|
| Text.PosAtOrder | buffer.c:852-888 | Offsets and (column, row) places are in the same order: a smaller offset is the earlier place. |
| Text.OffsetOfPosAt | buffer.h:91-99 | Turning an offset into coordinates and back is the identity, for every text and every offset up to its end. |
| Text.OrderIsOffsetOrder | adjust.c:5-56 | Comparing two places row first, column second is comparing their offsets. |
| Points.InsertMovesPoint | adjust.c:5-56 | The coordinate arithmetic for an insertion is exactly the flat shift: the point at offset q goes to the place of q before the insertion and of q + length from it on. |
| Points.DeleteMovesPoint | adjust.c:5-56 | The same for a deletion: points before stay, points inside go to its start, points after shift down; and the flag says exactly which were inside. |
| Points.InsertKeepsOrder | adjust.c:100-160 | Points in bounds stay in bounds and keep their order, both ways, across an insertion. |
| Points.DeleteKeepsOrder | adjust.c:100-160 | Across a deletion points in bounds stay in bounds and never swap. |
| Points.UndoingInsertRestoresPoint | undo.c:226-258 | Undoing an insertion puts every tracked point back exactly. |
| Points.UndoingDeleteRestoresPoint | undo.c:226-258 | Undoing a deletion restores a point if and only if it was outside the deleted stretch; the others land at the end of the text that came back. |
| Points.InsertKeepsTop | adjust.c:69-98 | A viewport's top row still names a row of the text after an insertion: the row its text moved to, sub-line kept. |
| Points.DeleteKeepsTop | adjust.c:69-98 | A viewport's top row still names a row after a deletion; a top inside the span falls back to its first row and first sub-line. |
| Points.AppendedNewlineMovesTheEnd | mutate.c:80-86 | Appending the final newline moves exactly the points at the very end of the text, where the source's comment says none. |
| Points.AllLandAfterInsert | adjust.c:100-160 | Mark, mark ring, window cursors and tops, and point registers all land on places of the new text, and on character boundaries if they and the splice were on them. |
| Points.AllLandAfterDelete | adjust.c:100-160 | The same for a deletion. |
| Following.EditMovesAll | adjust.c:100-160 | Where an edit, repair included, takes everything tracked, in offsets: the mark, each set ring entry, the cursor of each other window on the buffer and each point register keep their place in the text, those in the stretch replaced fall back to its start, and what then stands at the very end of a file that lost its newline goes on with the new one; nothing else tracked changes. |
| Following.ExtensionMovesAll | mutate.c:248-306 | Rows appended at the end carry along exactly what stood at the very end of the text. |
| Following.EditMovesTops | adjust.c:69-98 | The top of each window on the buffer after an edit, counted in newlines: the same row of text with its sub-line, or the first row and sub-line of the stretch replaced if it began inside. |
| Utf8.Validate | unicode.c:201-249 | The validator loop decides membership in the set of valid texts. |
| Utf8.ValidIffEncoded | unicode.c:193-249 | A text is accepted if and only if it is the concatenated encodings of Unicode scalar values other than NUL (RFC 3629 sections 3 and 4). |
| Utf8.DecodeInvertsEncode | unicode.c:15-50 | Decoding at the front of an encoded character gives the code point back, whatever follows. |
| Utf8.ConcatValid | unicode.c:201-249 | Split at a byte that is no continuation byte, a text is valid if and only if both parts are. |
| Utf8.ValidHasNoNul | fileio.c:409-439 | A valid text holds no NUL, so it can stand as a C string. |
| Utf8.InsertKeepsValid | undo.c:151-162 | Splicing a valid payload in at a character boundary keeps the text valid. |
| Utf8.DeleteKeepsValid | undo.c:167-222 | Cutting between two character boundaries keeps the text valid. |
| Utf8.NextBoundary | unicode.c:91-103 | In a valid text the length read off the lead byte leads from one character boundary to the very next. |
| Utf8.SnapToBoundary | unicode.c:291-305 | The result is the nearest boundary in the direction asked for, clamped to the row; a boundary stays. |
| Records.RedoUndoesUndo | undo.c:286-306 | Replaying a record after reverting it gives the text back. |
| Records.UndoUndoesRedo | undo.c:260-284 | Reverting a record after replaying it gives the text back. |
| Records.RecordSpan | undo.c:18-31 | A record's end is where its data, laid down from its start, ends, and the text between the two is the data. |
| Records.InsertIsRecorded | mutate.c:176-207 | The record pushed for an insertion reverts to the text before it. |
| Records.DeleteIsRecorded | mutate.c:154-175 | The record pushed for a deletion reverts to the text before it. |
| Records.MergeUndoesBoth | undo.c:408-453 | Reverting a coalesced record equals reverting the two records one after the other, for typing, forward delete and backspace alike. |
| Records.MergeRedoesBoth | undo.c:408-453 | Replaying a coalesced record equals replaying the two in sequence. |
| Records.TypingMeets | undo.c:408-453 | Two typing records that are allowed to merge meet in one offset. |
| Records.PushCountsEveryEdit | undo.c:455-479 | Pushing a record, merged or not, adds exactly one operation to the count the list stands for, and onto a list without records of more than 21 operations it puts none. |
| History.PastIsBounded | undo.c:337-345 | Every record of an undo list that leads back to the loaded text stands for at most 21 operations and ends exactly where its data does. |
| History.FutureIsBounded | undo.c:337-345 | So does every record of a redo list that can be replayed. |
| History.EditKeepsInv | mutate.c:118-213 | Every edit — refused, merged, chained or repaired — keeps the undo and redo lists replayable to the loaded text, the buffer at rest, the final newline in place and the clean flag honest. |
| History.ExtendedKeepsInv | mutate.c:248-306 | Appending rows keeps the same. |
| History.RefusalIsExact | mutate.c:35-78 | A pure deletion is refused if and only if carrying it out and restoring the final newline would give the very same text. |
| History.EditMovesTheMark | mutate.c:118-213 | After any accepted edit the mark keeps its place in the text, whatever was replaced; only a mark that ends up at the very end of a file that lost its newline goes on with the newline put back. |
| History.RepairCarriesTheMark | mutate.c:80-112 | When an edit makes a file lose its final newline, the repair carries the mark to the blank last row if and only if it stood at the end of the text or in a stretch replaced up to the end; any other mark is moved by the edit alone. |
| History.RepairCarriesAMark | mutate.c:80-112 | Two concrete edits: "b" and the final newline deleted from a file "ab", and "b" typed at the end of a file "a"; each leaves the mark on the row below, where the comment says no tracked point moves. |
| History.EditedText | mutate.c:118-213 | An edit that is carried out leaves the text before, the replacement and the text after, plus a newline exactly when a file would not end in one; it marks the buffer dirty and drops the redo list. |
| History.EditGives | mutate.c:118-213 | Whatever edit is requested of a buffer at rest, taken or refused: a read-only buffer is left as it is; otherwise the text is the one asked for, with the final newline of a file.  Cursor, selection and session are left to the caller. |
| History.OpenAfterEdit | mutate.c:118-213 | After an edit the newest record may still be joined if and only if the edit offered to coalesce, is not chained, is a deletion or an insertion alone, and needed no newline restored. |
| History.RestIsTerminated | buffer.h:52-70 | A file buffer at rest is empty or ends in a newline. |
| Undoing.UndoneChain | undo.c:260-284 | One undo of a chain shortens the undo list, ends with no paired record at the head of redo, and keeps every invariant. |
| Undoing.RedoneChain | undo.c:286-306 | One redo of a chain does the mirror image. |
| Undoing.Undo | undo.c:260-284 | A whole undo command keeps the invariant of buffers at rest, whatever its count. |
| Undoing.Redo | undo.c:286-306 | A whole redo command keeps it too. |
| Undoing.UndoRestoresLoadedText | undo.c:226-306 | Undoing until nothing is left restores the loaded text byte for byte. |
| Undoing.HistoryDeterminesText | undo.c:226-306 | Two states with the same undo list and the same loaded text have the same text, however each was reached. |
| Undoing.UndoLeaves | undo.c:226-284 | After an undo the selection is gone and the cursor is where the last record undone was: past the text put back, or where text was taken out.  When the buffer is dirty afterwards: exactly while more chains were there than were asked for, the last one included, or once something was saved. |
| Undoing.RedoLeaves | undo.c:226-306 | The same for a redo: past the text put in again, or where text was taken out; the buffer is dirty if it was or if anything was redone. |
| Undoing.UndoInSteps | undo.c:260-284 | Undoing a + b times is undoing a times and then b times; a count below one is one. |
| Undoing.RedoInSteps | undo.c:286-306 | The same for redo. |
| Undoing.RedoInvertsUndo | undo.c:260-306 | For every count: undoing and redoing equally often restores text and both record lists exactly, but for the newest record being closed, if and only if there were that many chains to undo or nothing to redo before; otherwise the redo goes beyond where it began. |
| Undoing.UndoInvertsRedo | undo.c:260-306 | For every count: redoing and undoing equally often does too, if and only if there were that many chains to redo or nothing to undo before. |
| Undoing.RedoneChainAfterUndoneChain | undo.c:260-306 | A paired chain is undone and redone as one piece. |
| Undoing.UndoneChainAfterRedoneChain | undo.c:260-306 | And redone and undone as one piece. |
| SingleUndo.UndoTakesBackAnEdit | mutate.c:154-213 | One undo takes back one edit — its deletion, its insertion and the newline repair together — restoring text and records. |
| SingleUndo.UndoTakesBackAnExtendedEdit | mutate.c:264-303 | One undo takes back an edit chained to rows appended before it, rows included. |
| TakingBack.UndoTakesBackAReplacement | undo.c:226-284 | One undo takes back any edit that is a step of its own, repair included: text and records are those before, the newest record closed; the cursor is behind the text that was replaced; and the tracked points are as if the text replaced had been cut out and put back; after an insertion every mark, ring entry, saved cursor, window top and register is exactly where it was. |
| TakingBack.UndoPutsTheMarkBack | undo.c:226-284 | After an edit and its undo the mark is back if and only if it was not inside the text replaced, its start included; otherwise it is behind that text. |
| TakingBack.RedoBringsBackAnEdit | undo.c:286-306 | Undoing any edit, merged, chained or repaired, and redoing it gives its text and records again, and the cursor ends behind the newline that was restored, or else behind the text put in, or where text was deleted. |
| TakingBack.UndoTakesBackInsertions | undo.c:408-479 | Any insertions at any places, merged into records in any way and repaired where needed: undoing as many chains as they added restores text, records and every tracked point, and leaves the cursor where the first went in. |
| TakingBack.UndoTakesBackTyping | undo.c:337-345 | ceil(n / 21) undos take n keystrokes back: text, records and every tracked point, with the cursor where the typing began. |
| TakingBack.UndoTakesBackTypingAtTheEnd | mutate.c:80-112 | The same for typing at the end of a file, with the undos that Typing.TypingAtTheEnd counts. |
| Landing.EditSound | mutate.c:118-213 | A boundary-aligned edit with a valid payload keeps the text, every text the two lists lead to, and every tracked point valid and on character boundaries. |
| Landing.ReplaySound | undo.c:226-306 | Undo and redo keep that, with any count and wherever the cursor was; the cursor ends on a character if anything was replayed, or if it stood on one. |
| Clamping.SettledLands | buffer.c:814-834 | Wherever a command left them, the clamp puts cursor and mark on places of the text, and on characters of it if it is valid UTF-8. |
| Clamping.SettledIffLanded | buffer.c:72-79 | In a valid text the clamp changes nothing if and only if the cursor, and the mark if there is one, start characters already. |
| Clamping.SettledIsNearest | buffer.c:799-834 | Where the clamp takes cursor and mark, row by row: the row itself or the nearest there is, and in it the first start of a character not before the column, or the row's end; a mark below the last row goes to the end of the text and one that is not set stays unset. |
| Clamping.SplitOfJoin | buffer.h:36-50 | The rows found by splitting a text are the rows it was joined from. |
| Runs.AnyRunUndoesToTheLoadedText | tests/fuzz_undo.c:359-380 | After any sequence of edits, chained edits, row extensions, undos, redos, saves and moves from a load, each with the clamp behind it, undoing often enough gives the loaded bytes back. |
| Runs.AnyRunIsAtRest | undo.c:268-275 | In every state such a run reaches: clean means equal to what was last loaded or saved; a file ends in a newline or is empty; no paired record is at the head of redo or the bottom of undo; and no record of either list stands for more than 21 operations. |
| Runs.ExecKeepsInv | buffer.c:40-69 | Every single command keeps the invariant and never changes what was loaded. |
| Runs.ReadOnlyRunChangesNothing | mutate.c:118-135 | No run of commands changes the text or the history of a read-only buffer until it is made writable. |
| Runs.AnyRunIsSound | tests/fuzz_undo.c:201-319 | Every text such a run rests in is valid UTF-8 with the cursor and all tracked points on character boundaries, given boundary-aligned edits with valid payloads; without that assumption, all of them are at least in bounds.  Nothing is assumed of where a command leaves the cursor or the mark. |
| Lines.JoinInjective | buffer.h:36-50 | Newline-free rows and flat texts correspond one to one. |
| Lines.GridIsPosAt | buffer.c:852-865 | A place of the row grid is the place its offset names in the flat text. |
| Lines.GridCovers | buffer.c:867-888 | Every offset up to the end of the text is some place of the grid. |
| Lines.InsertRows | undo.c:38-133 | Splitting a row and putting rows in between is inserting the joined payload into the flat text. |
| Lines.DeleteRows | undo.c:167-222 | Joining two rows and dropping those between is deleting a slice of the flat text. |
| Lines.RowsValidIffTextValid | fileio.c:409-420 | A text is valid UTF-8 if and only if each of its rows is. |
| Lines.TerminatedInRows | mutate.c:48-58 | The text ends in a newline, or is empty, exactly when the last row is empty. |
| Lines.FinalNewlineInRows | mutate.c:60-78 | The row test for "only the final newline" is the flat one. |
| Geometry.WalkToColumn | wrap.c:55-67 | The walk computes the display column of any byte offset. |
| Geometry.ColumnOfCodePoints | unicode.c:64-79 | The display column of a place in a valid row is that of the code points in front of it, and its width that of all of them: a tab to the next stop, two columns for another control, one for printable ASCII, and what `wcwidth` says of any other code point, or one if it says -1. |
| Geometry.WidthOfCharacter | unicode.c:64-79 | The width of a character is that of its code point wherever it is in a row and whatever follows. |
| RowStore.Rows.constructor | buffer.c:178-226 | A new row store holds no row and keeps the shape of the array. |
| RowStore.Rows.EnsureRowCap | buffer.c:74-104 | Growing the row array keeps every row. |
| RowStore.Rows.InsertRow | buffer.c:106-127 | The rows become the old ones with the new one at its index; an index past the end does nothing; each stored row is NUL-terminated within its capacity. |
| RowStore.Rows.DelRow | buffer.c:150-163 | The rows become the old ones without the one deleted; an index outside does nothing. |
| RowStore.Rows.Reset | buffer.c:231-238 | No row is left. |
| RowStore.Rows.InsertBytes | undo.c:38-75 | A row becomes its front, the bytes and its back; the cached width is dropped. |
| RowStore.Rows.DeleteBytes | undo.c:167-200 | A row loses exactly the slice. |
| RowStore.Rows.CalculateLineWidth | wrap.c:14-44 | The width is that of the row's bytes whether or not it was cached, and the cache never lies. |
| RowStore.Rows.CharsToDisplayColumn | wrap.c:46-67 | The display column of a byte offset, the cached width serving every offset past the end. |
| RowStore.Rows.BufTextLen | buffer.c:840-850 | The length is that of the flat text. |
| RowStore.Rows.BufOffset | buffer.c:852-865 | The offset of a place, out-of-range coordinates being clamped. |
| RowStore.Rows.BufPos | buffer.c:867-888 | The place with the offset, the last one for offsets past the end. |
| RowStore.Rows.CollectRegionText | mutate.c:13-33 | The bytes collected are the slice of the flat text between two places. |
| RowStore.Rows.RowsToString | fileio.c:376-407 | The buffer filled is the flat text and a NUL, and its length is the flat length. |
| RowSplice.InsertText | undo.c:38-133 | Inserting bytes that may hold newlines into the row array inserts them into the flat text, at the offset of the place; rows stay newline-free. |
| RowSplice.DeleteText | undo.c:167-222 | Deleting between two places of the row array deletes the slice of the flat text. |
| EditBuffer.Buffer.constructor | buffer.c:178-226 | A new buffer is one empty row: the empty text, nothing to undo, clean. |
| EditBuffer.Buffer.ComputeInsertEnd | undo.c:18-31 | The end of an insertion is where its bytes advance its start to. |
| EditBuffer.Buffer.AdjustAllPoints | adjust.c:100-160 | The loops over mark ring, windows and registers move every tracked point as the specification says and nothing else. |
| EditBuffer.Buffer.BulkInsert | undo.c:151-162 | Rows, tracked points and nothing else change, as an insertion into the flat text. |
| EditBuffer.Buffer.BulkDelete | undo.c:164-222 | The same for a deletion, of the part of the range that the rows hold; a range below the last row does nothing. |
| EditBuffer.RangeIsWhatIsThere | undo.c:167-185 | A range cut down to the rows holds exactly those places of the grid that it held before, an end below the last row counting as one in it. |
| EditBuffer.Buffer.UndoMerge | undo.c:408-453 | The head record absorbs the new one exactly when it may, and becomes the merged record. |
| EditBuffer.Buffer.PushUndo | undo.c:469-479 | The undo list becomes the specified one: merged into the head, or closed and extended. |
| EditBuffer.Buffer.MutateReplaceEx | mutate.c:118-213 | On the array-based buffer: text, both lists, every tracked point, dirty flag and end position are those of the flat specification; a refusal changes none of them and says so. |
| EditBuffer.Buffer.MutateReplace | mutate.c:215-221 | The same without an offer to coalesce. |
| EditBuffer.Buffer.MutateInsertChar | mutate.c:223-228 | One keystroke, offered to the open run. |
| EditBuffer.Buffer.MutateDeleteChar | mutate.c:230-234 | One character deletion, offered to the open run. |
| EditBuffer.Buffer.MutateExtendRows | mutate.c:248-306 | Empty rows appended as one unpaired insertion at the end of the text; a count of zero or less does nothing. |
| EditBuffer.Buffer.RestoreFinalNewline | mutate.c:80-111 | The buffer becomes the specified repaired one. |
| EditBuffer.Buffer.UndoStep | undo.c:226-258 | Reverting the head record moves it to the redo list and everything else as specified. |
| EditBuffer.Buffer.DoUndo | undo.c:260-284 | The loop over counts and chains computes the specified undo, and marks the buffer clean at the bottom only if nothing was saved since the load. |
| EditBuffer.Buffer.DoRedo | undo.c:286-306 | The loop computes the specified redo. |
| Loading.StripEnd | fileio.c:555-557 | A line loses all newlines and carriage returns at its end and no other byte. |
| Loading.NormalisedIsTerminated | fileio.c:559-575 | What is loaded is empty exactly for an empty file, and otherwise ends in a newline. |
| Loading.LoadingKeepsTheBytes | fileio.c:536-558 | Loading keeps every byte, but for adding a final newline, if and only if no line ends in a carriage return; an unterminated last line counts. |
| Loading.FileLoads | fileio.c:530-575 | A file of lines with any run of carriage returns, a newline or nothing behind each loads as the texts of those lines, each ended by one newline: a CR LF file as the same file with LF ends. |
| Loading.FileIsLines | fileio.c:530-575 | Every file is made of such lines. |
| Loading.LoadingKeepsSolid | fileio.c:536-558 | Whatever the file, loading keeps every byte that is no carriage return or newline, in order, and adds none. |
| Files.LoadRows | fileio.c:530-575 | The row array built line by line is the normalised file. |
| Files.Open | fileio.c:454-675 | A loaded buffer is clean, has nothing to undo and holds the normalised bytes; bytes that are no valid UTF-8 are rejected; a file that cannot be written or is locked elsewhere is read-only. |
| Files.OpenedIsSound | fileio.c:409-439 | A freshly opened buffer satisfies all that the run theorems start from, its cursor at the origin included. |
| Files.SaveBuffer | fileio.c:1042-1224 | Text that is not UTF-8 is refused and nothing changes; otherwise the bytes written are the flat text, and the buffer becomes clean and remembers that it was saved. |
| Files.OpenThenSaveIsIdentity | fileio.c:376-384 | Opening and saving writes the same bytes back if and only if the file was terminated and no line ended in a carriage return. |
| Typing.TypingIsOneRun | edit.c:53-68 | Any number n of keystrokes that need no newline restored inserts exactly what was typed and takes ceil(n / 21) undos. |
| Typing.TypingAtTheEnd | mutate.c:80-112 | Typing at the end of a file, an empty one included: after m rows ended, the first piece that ends none closes the run with the newline put back, so m + 1 + n keystrokes take ceil((m + 1) / 21) + ceil(n / 21) undos; the file gets its final newline once. |
| Typing.BackspaceUndoesTyping | edit.c:214-260 | As recorded edits, refusal and repair included: backspace after a typed character gives the text back if and only if the buffer is no file, the character went in front of its end, or it was a newline; otherwise the newline of the last row stays behind. |
| Typing.DeletionKeepsFront | edit.c:186-260 | A character deletion, refused or not, leaves the text before it and its validity untouched. |
| Typing.PrevBoundary | edit.c:238-250 | The position found by stepping back over continuation bytes is the nearest character start before the cursor. |
| Erasing.FirstCharsCount | unicode.c:91-103 | The first n characters of a valid text, taken by their lead bytes: n bytes that continue no character, up to a boundary, or all there are. |
| Erasing.LastCharsCount | edit.c:238-250 | The last n characters, taken by stepping back over continuation bytes, in the same way. |
| Erasing.ForwardDeletes | edit.c:186-212 | Deleting forward n times takes out exactly the next n characters, or all there are, refusals and repairs included; a file keeps its final newline. |
| Erasing.BackwardDeletes | edit.c:214-260 | Deleting backward n times takes out exactly the n characters in front of the cursor, or all there are, and leaves the cursor where they were. |
| Erasing.BackwardFromTheEnd | mutate.c:35-112 | Backward from the very end of a file: blank rows at the end go, the newline of the last row with text on it stays, and further characters are taken from in front of it. |
| Erasing.UndoTakesBackForward | undo.c:337-345 | ceil(n / 21) undos take n forward deletions on end back, text and records, in a file as long as they do not reach its end. |
| Erasing.UndoTakesBackBackward | undo.c:337-345 | The same for n backward deletions, from in front of the end of a file. |
| Erasing.DeletionRunGrows | undo.c:408-479 | A deletion that starts or ends where the last one happened, in any mixture of forward and backward, joins the run: records of 21, the newest open. |
| Editing.InsertRepeat | edit.c:53-68 | The text is inserted the given number of times in one edit, coalescing only when it is once, and the cursor ends after it. |
| Editing.RepeatedInParts | edit.c:53-68 | The text inserted is one copy for a count of one, and for a sum of counts the copies of each in turn. |
| Editing.DelChar | edit.c:186-212 | Deletes whole characters or newlines at the cursor, as many as asked for or as there are; the cursor stays on a character. |
| RectangleEdits.BackSpace | edit.c:214-260 | Read-only buffers are left alone; an active region is deleted as one edit, or killed as a rectangle when that is what is marked, which ends rectangle mode; otherwise characters before the cursor go one by one, whole. |
| Editing.DeleteRange | region.c:311-349 | Deletes between two places given in either order, the later one clamped to the end of the buffer, and leaves the cursor at the first. |
| Editing.ClampToBuffer | buffer.c:799-812 | A place without a row is left alone; any other is put on the grid and forward to the nearest character, from past the last row at the end of the text. |
| Editing.ClampPositions | buffer.c:814-834 | The buffer becomes the settled document of `Clamping.SettledLands` and nothing else changes. |
| Wrap.WordWrapBreak | wrap.c:155-237 | The one-pass loop finds the break of the declarative breaker, for every width. |
| Wrap.BreakAdvances | wrap.c:145-154 | If the first character fits: the line takes whole characters and at least one, spans at most the screen, more follows exactly when the rest does not fit, and the column is that of the byte. |
| Wrap.SoundIffFirstFits | wrap.c:225-234 | Those promises hold if and only if the first character fits, which eight columns guarantee. |
| Wrap.TabOnANarrowScreen | wrap.c:225-234 | The concrete failure: a tab on four columns is charged two and reported as followed by a line that does not exist. |
| Wrap.BreakIsGreedy | wrap.c:70-121 | The break is the last word opportunity that fits with any width before it; failing that the last place that parts no preposed vowel from its consonant; failing that the last place that fits. |
| Wrap.ReachesBoundary | wrap.c:155-237 | In a valid row every break is on a character boundary. |
| Sublines.CountScreenLines | wrap.c:240-261 | The count is the length of the chain of breaks. |
| Sublines.SublineBounds | wrap.c:353-383 | It finds a sub-line exactly when the chain has it, and its bounds are the chain's. |
| Sublines.CursorScreenLine | wrap.c:315-347 | The line found is the one whose columns hold the cursor's, or the last; the column is the distance from its start. |
| Sublines.DisplayColumnToByteOffset | wrap.c:388-441 | The byte found is the first whose character would pass the column on that sub-line, or its end; past the last sub-line it is the row's end. |
| Sublines.SublinesAreSound | wrap.c:145-154 | Every sub-line starts on a character, in the column the unwrapped row shows it, ends in the column of its last byte's end, is not empty unless the row is, and is no wider than the screen. |
| Sublines.RowIsItsSublines | wrap.c:349-383 | The sub-lines laid end to end are the row. |
| Sublines.SublineIsBreak | wrap.c:240-310 | Consecutive sub-lines are the breaker's answers, and there is a next one exactly when it says so. |
| Sublines.LocatingRoundTrips | wrap.c:312-347 | From a character to its screen line and column and back to a byte: the same display column always, and the same byte, within that sub-line, when all widths are positive. |
| ScreenLines.LineAtIndex | display.c:154-163 | Screen lines and their numbers from the start of the buffer correspond one to one. |
| ScreenLines.IndexOrder | display.c:206-237 | Lines of later rows have larger numbers, and no number is shared. |
| ScreenLines.ScreenWalk.constructor | wrap.c:263-286 | The walk starts on the line asked for, or the nearest that exists. |
| ScreenLines.ScreenWalk.Next | wrap.c:288-310 | A step goes to the line numbered one more, and fails exactly on the last. |
| Viewport.Window.TopSet | display.c:196-207 | The stored top is the one asked for, or the first line of the nearest row. |
| Viewport.Window.LinesFromTop | display.c:209-237 | The answer is the difference of line numbers when that is within reach, and -1 otherwise; the one exception is a stale top asked for the very line it shows. |
| Viewport.Window.LinesToEnd | display.c:239-258 | The number of lines from the top to the end, capped. |
| Viewport.Window.ScrollAllowance | display.c:260-286 | How far the window may scroll down, in closed form; never negative for a downward request. |
| Viewport.LinesBack | display.c:288-316 | The line reached is numbered n less, or is the first. |
| Viewport.Window.TopAdvance | display.c:318-347 | The top moves one line in the direction asked for unless it is at that end. |
| Viewport.Window.ScrollViewport | display.c:349-404 | Where a scroll request takes the top, in both directions, with and without wrap, from any stored top. |
| Viewport.ScrolledTop | display.c:260-404 | That place is the furthest line down, at most as far as asked, that leaves no more than two blank lines below the text; or as far up as asked, or the first line. |
| Viewport.Window.Scroll | display.c:635-703 | From any stored top: a cursor above becomes the first line, one below the last, and the top does not move if the cursor was in sight; without wrap the same for columns. |
| Viewport.RowsAreLines | display.c:164-207 | Without wrap a row's line number is its row. |
| Painting.DrawRows | display.c:705-843 | The y-th line painted is the screen line numbered top + y — its row, first byte and column span — and blank below the last. |
| Painting.PaintRow | display.c:750-832 | One wrapped row is painted from its sub-line nearest to the stored skip, as far as there is room. |
| Painting.ScreenCursorPos | display.c:595-633 | Column and line of the terminal cursor: the distance of line numbers when in sight, else the nearer edge. |
| Painting.UpdateEndFlag | display.c:406-416 | When the end-of-buffer flag is set: with wrap exactly when the last line is in the window, without wrap not when it is the window's bottom line. |
| Painting.DrawFrame | display.c:1273-1347 | From any stored top the terminal cursor ends on the painted line that shows the buffer's cursor; its column is within the window, but for one past its edge exactly when the cursor is behind a row whose last wrapped line fills the window. |
| Viewport.BackThenForward | display.c:288-316 | Walking back n screen lines and n forward again ends on the line it started from if and only if the start of the buffer did not cut the way back, or the line is the last. |
| Substitution.ReplacementTemplateError | region.c:551-583 | The check reports the first fault of a template, and none exactly for the accepted ones. |
| Substitution.ParseReadsWritten | region.c:551-583 | Every run of literals, doubled backslashes and references within range is accepted and read as those parts. |
| Substitution.ParsedIsWritten | region.c:551-583 | Every accepted template is such a run. |
| Substitution.EscapesMean | region.c:551-607 | After any accepted front: a plain byte is itself, a backslash before backslash, ampersand or digit is a backslash, the whole match or a group, and each other use is the fault reported for it. |
| Substitution.ExpansionInParts | region.c:585-607 | A template of two halves is filled in half by half. |
| Substitution.ExpansionOfOne | region.c:585-607 | A literal gives its byte, a group its bytes of the subject or nothing when it took no part. |
| Substitution.ExpandTemplate | region.c:585-607 | The text appended is the parts in order with groups filled in, absent groups contributing nothing. |
| Substitution.RegexSubstituteAll | region.c:609-688 | For any engine whose matches lie within what it searched: it terminates, counts the occurrences, and the subject with the reported stretch replaced by the output is the subject with every occurrence replaced and every other byte kept once, in order. |
| Substitution.HitsInOrder | region.c:653-668 | Counted occurrences are disjoint and in order, and none is empty and adjacent to the one before. |
| Substitution.IdentityTemplate | region.c:585-607 | With the template that stands for the whole match the text is unchanged. |
| Replacing.StepIsOneCharacter | region.c:668-675 | On valid text the search goes on one whole character after an empty match: at the next boundary, none between. |
| Replacing.SubstitutionKeepsValid | region.c:609-688 | With an engine that finds whole characters, every occurrence replaced begins and ends on characters, and a valid subject and template give valid text. |
| Replacing.HitsAreMatches | region.c:628-668 | Each occurrence replaced is a match the engine reports, with the template filled in for it. |
| Replacing.HitsAreOccurrences | region.c:628-643 | Each begins where the pattern matches in the whole subject, lines starting where they do there: searching on from the middle makes no occurrence up. |
| Replacing.NoOccurrenceMissed | region.c:628-680 | Every character of a valid subject where the pattern matches lies in an occurrence that is replaced, or at its edge. |
| Substitution.OffsetToCoords | region.c:690-706 | An offset into a region's text becomes the buffer place with the summed offset. |
| Sexp.StepForward | motion.c:372-386 | A step is one byte or row end further, and fails exactly at the end of the text. |
| Sexp.StepBackward | motion.c:388-400 | A step is one back, and fails exactly at the start. |
| Sexp.BufferForwardSexpEnd | motion.c:413-511 | Past blanks: from an opener it lands just past the first place where that bracket pair balances and fails only if there is none; likewise quotes; a closer is stepped over; a word is handed on. |
| Sexp.BackwardSexp | motion.c:530-607 | The mirror image, failing only if no opener balances. |
| Sexp.ForwardThenBackward | motion.c:413-607 | First balance read forwards and first balance read backwards are the same relation. |
| Sexp.SexpRoundTrip | motion.c:513-607 | From an opening delimiter, forward and backward again comes back to it. |
| Sexp.SexpRoundTripBack | motion.c:513-607 | From just past a closing delimiter, backward and forward again comes back if and only if no NUL lies between. |
| Rectangles.RectSnapFwd | region.c:251-262 | The smallest character boundary at or after the column; a column past the row stays. |
| Rectangles.RectSnapBack | region.c:264-275 | The largest character boundary at or before the column, within the row. |
| Rectangles.RowReassembles | region.c:240-249 | What is taken from a row and what stays make up the row again, the cell is the taken part padded to the width, and both stay valid UTF-8. |
| Rectangles.CutIsExact | region.c:917-1023 | What is cut from a row, however short: the stretch between its first and last character boundary within the columns, row end included, and nothing if there is none; the cell is that stretch and blanks up to the width. |
| Rectangles.YankKeepsValid | region.c:1091-1129 | Putting a valid slice into a row never splits a character. |
| Rectangles.YankIsExact | region.c:1091-1129 | A slice goes in at the first boundary at or after the column, behind blanks where the row ends before it. |
| Rectangles.RowRestored | region.c:962-1146 | A row killed and yanked back is restored if and only if both columns are boundaries of it and it reaches the right one. |
| Rectangles.KillThenYankRestores | region.c:962-1146 | The same for all rows of a rectangle at once, at the column where the kill left the cursor. |
| Rectangles.ExtractRectColumns | region.c:917-939 | The cells extracted, each exactly as wide as the rectangle. |
| Rectangles.KillText | region.c:993-1023 | The text built is the rows without the columns. |
| Rectangles.YankText | region.c:1091-1130 | The text built is the rows with the slices put in. |
| RectangleEdits.KillRectangle | region.c:962-1045 | On a buffer: refused when read-only or without a valid mark; otherwise the rectangle between cursor and mark in whatever corners they are, the rows left, the cells taken, where cursor and mark go, and that it is one recorded edit of the whole rows. |
| RectangleEdits.YankRectangle | region.c:1047-1146 | On a buffer: rows appended when the rectangle overruns it, the rows left, the cursor, and that all of it is one chained edit; a read-only buffer or a kill that is no rectangle changes nothing. |
| RectangleEdits.KillThenYank | region.c:962-1146 | In a whole buffer, newline repair included, a kill and a yank at the cursor restore every row if and only if on each row of the rectangle both columns are character boundaries and the row reaches the right one. |
| RectangleEdits.RectanglesKeepValid | region.c:240-249 | Kept rows, cells and yanked rows are valid UTF-8 when what went in was. |
| RectangleEdits.UndoTakesBackAYank | region.c:1071-1082 | One undo takes a whole yank back, appended rows and repaired newline included. |
| RectangleEdits.SpanEdited | region.c:976-1028 | Replacing the text of whole rows replaces those rows, and a file that no longer ends in a newline gets one more row. |
| Paths.CleanPath | fileio.c:1626-1690 | Cleaning in place leaves the string for the resolved segments, or, past 256 of them, the path cut off after its first name. |
| Paths.Scan | fileio.c:1637-1676 | The first pass keeps the stack of segments that following the path leaves, and gives up exactly when it would hold more than 256. |
| Paths.Reassemble | fileio.c:1678-1690 | Moving the segments down in place, overlapping or not, writes each of them after one slash. |
| Paths.CleanedIsClean | fileio.c:1626-1628 | A cleaned path is absolute, made of proper names only, and cleaning it again changes nothing. |
| Paths.CleanedSegments | fileio.c:1626-1628 | A cleaned path is the root, or what stands between any two slashes of it or after the last is neither empty nor one or two dots. |
| Paths.SegmentsMean | fileio.c:1637-1676 | One more segment: an empty one or a dot changes nothing, two dots leave the directory unless it is the root, any other enters it. |
| Paths.OverflowCutsThePath | fileio.c:1631-1635 | A path of too many segments never comes back unmodified, as the comment has it, but cut short. |
| Paths.ResolveJoin | fileio.c:1695-1723 | Following a path joined from two is following one and then the other. |
| Rebasing.RelativePath | fileio.c:1568-1624 | The byte-wise comparison finds the directories shared: the result is one step up for each other one of the first and then down the second. |
| Rebasing.RelativeLeadsThere | fileio.c:1568-1570 | Following the relative path from the first directory leads to the second. |
| Rebasing.PartingIs | fileio.c:1577-1593 | The split found byte by byte, with its three adjustments, is where the two lists of directories part. |
| Rebasing.RebaseFilename | fileio.c:1725-1759 | A relative name rebased from one clean working directory to another cleans to the same absolute path; absolute and tilde names are returned as they are.  The result is again a relative name unless the file lies below the new directory by way of a first name that is just a tilde. |
| Rebasing.RebasedIsAnchored | fileio.c:1741-1755 | The exact condition for a rebased name that no longer depends on the working directory: no step up, and the first name below is just a tilde. |
| Rebasing.RebasedIntoTheHomeDirectory | fileio.c:1725-1759 | The concrete case: "./~/a" carried from "/x" to "/x" becomes "~/a", a name in the home directory. |

## Left out

- Terminal input and output, signals, status bar, highlighting, key bindings, macros, prompts, the kill ring and registers as data structures, completion, ctags, palette, subprocesses, file locking and backups.
- Allocation failure, `INT_MAX` limits and 32-bit overflow: lengths are unbounded.
- Files.SaveBuffer: a save of valid text succeeds; the refusal during a macro, the file name, the write strategies, confirmations and failures of fileio.c:818-1190 are not modelled, nor the shrinking of row capacities after a save.
- Files.Open: the file is its bytes, and whether it can be written or is locked are inputs; errors from the file system, who holds a lock and the messages about changed line endings are not modelled.
- EditBuffer.Buffer.MutateExtendRows: does not model the branch for a buffer without rows (mutate.c:274-284), which cannot occur while every buffer has a row.
- EditBuffer.Buffer.DoUndo: the refusal in a read-only buffer is modelled as having no effect; its message is not.
- Editing.InsertRepeat: the characters typed are given as UTF-8; decoding keys is not modelled.
- Sexp.BufferForwardSexpEnd: the word motions behind its last branch (motion.c:130-255) are not modelled; the place they start from is.
- RectangleEdits.KillRectangle: the killed text is kept as one cell per row rather than one flat buffer cut every `width` bytes.
- RectangleEdits.YankRectangle: a cell is copied whole; the source copies it up to a NUL, which no cell of a valid buffer holds.
- Substitution.RegexSubstituteAll: prompts, the choice of the range and the single edit made of the result (region.c:708-829) are not modelled.
- Painting.DrawRows: which line and columns each screen line shows, not the bytes sent to draw them.
- Viewport.Window.Scroll: the window's cursor fields are kept in the window; `clampCursorToViewport`, `recenter` and paging commands are not modelled.
- Sublines.CountScreenLines: models screens of at least eight columns, as do all walkers; `Wrap.SoundIffFirstFits` says what fails below.
- Sublines.DisplayColumnToByteOffset: for a row with a NUL nothing is promised, because this one walk gives a NUL one column; rows at rest are valid UTF-8 and have none.
- Paths.CleanPath: symbolic links and path length limits are not modelled.
- Rebasing.RebaseFilename: states nothing for working directories that are not clean, or when the absolute name has more than 256 segments.
- string-rectangle (region.c:851-915) and copy-rectangle repeat the row arithmetic of kill and yank; transformations of a region, sentences, paragraphs and transposition add no new kind of claim.
