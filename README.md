# BinEditor document engine and editor logic, in Dafny

BinEditor is a wxPython hex editor. This project models its core in Dafny
and proves what that core promises:

- `HexGridTable` is the grid table that owns the document. It holds a byte
  buffer with an explicit length, a display overlay (per-address cell tags
  and the most recently inserted range), and undo and redo logs of
  self-inverting actions.
- The non-widget logic of `HexEditor`:
  - the address and cell arithmetic;
  - the blocks a linear selection is drawn with, and reading a selection back;
  - the value fields (hex, decimal, binary) and what Enter in them commits;
  - normalising pasted hex text;
  - the find session;
  - what the editor redraws after Undo and Redo.
- `NumberValidator`, the key filter of the number fields.

Layout, one module per file:

| file | module | what it holds |
|---|---|---|
| `outcomes.dfy` | `Outcomes` | `Option` and `Result` |
| `bytes.dfy` | `Bytes` | `byte` |
| `py_text.dfy` | `PyText` | Python whitespace, `strip()`, `re.sub(r'\s+', '', s)` |
| `number_text.dfy` | `NumberText` | `int(text, base)`, `hex()`/`bin()`/`str()` with `.upper().zfill(w)`, `"%02X"` |
| `base16.dfy` | `Base16` | `binascii.a2b_hex` and `b2a_hex(...).upper()` (section 8 of RFC 4648) |
| `cell_map.dfy` | `CellMap` | address and (row, column) |
| `byte_search.dfy` | `ByteSearch` | how `FindIter` compiles a query, and literal `re.finditer` |
| `table_spec.dfy` | `TableSpec` | the table as a value: each operation is a function on a `TableState` |
| `table_laws.dfy` | `TableLaws` | the lemmas about those functions |
| `grid_table.dfy` | `GridTable` | `class HexGridTable` over an `array<byte>`; each method is proved equal to its `TableSpec` function |
| `editor_helpers.dfy` | `EditorHelpers` | the `HexEditor` helpers, `class FindSession`, the paste and undo dispatch |
| `validator.dfy` | `Validator` | `NumberValidator` |

The editor's data flow shapes the model:

- The editor changes the document in place. So `HexGridTable` is a class:
  - its buffer is an array, of which the first `length` bytes are the document;
  - insertion copies into a new array;
  - deletion shifts the tail down inside the same array.
- Each method ensures `State() == F(old(State()), ...)` for a function `F`
  of `TableSpec`.
- What the table promises is proved once, about those functions, in
  `TableLaws`.
- The find bar's state persists across button presses, so it is the class
  `FindSession`. The class is proved to follow the function `FindStep`.

Python 3 semantics are followed where the code depends on them:

- Integer division is floor division.
- `int(text, base)` accepts surrounding whitespace, a sign, a `0x`/`0b`/`0o`
  prefix and single underscores between digits.
- A negative number keeps its sign in front of `zfill`'s padding.

## Model

| member | source | states |
|---|---|---|
| PyText.TrimLeft | hex_editor.py:704 | the result is a suffix of the text; everything dropped is whitespace; the result does not start with whitespace |
| PyText.TrimRight | hex_editor.py:704 | the result is a prefix of the text; everything dropped is whitespace; the result does not end with whitespace |
| PyText.Strip | hex_editor.py:704 | the result is no longer than the text and neither starts nor ends with whitespace |
| PyText.StripIsSlice | hex_editor.py:704 | `strip()` gives the slice of the text that starts where `lstrip()` stops |
| PyText.RemoveSpaces | hex_editor.py:784 | the result has no whitespace and is a subsequence of the input: characters are left out, the rest keep their order |
| PyText.RemoveSpacesKeepsClean | hex_editor.py:784 | text without whitespace comes through the substitution unchanged |
| PyText.RemoveSpacesChar | hex_editor.py:784 | one whitespace character is removed; any other character stays |
| PyText.RemoveSpacesAppend | hex_editor.py:784 | the substitution on joined texts is the join of the substitutions; with `RemoveSpacesChar` this fixes the result on every text |
| NumberText.DigitsOf | hex_editor.py:706-712 | text has digit values exactly when every character is a digit of the base, and the values are those of its characters |
| NumberText.ParseInt | hex_editor.py:706-712 | `int(text, base)` refuses the empty text, and a negative result needs a minus sign in the text |
| NumberText.ParseDigits | hex_editor.py:706-712 | `int(text, base)` on digits, with or without a minus sign, is the number the digits spell, negated after the sign |
| NumberText.DigitsValueOfDigits | hex_editor.py:230-232 | the digits written for a number spell that number |
| NumberText.ShownValue | hex_editor.py:230-232 | a zero-filled number is non-empty, has no whitespace, and its digits spell the number |
| NumberText.ParseShownNumber | hex_editor.py:230-232 | `int(s.zfill(w), base)` gives back the number `s` was written for |
| NumberText.ParseShownNegative | hex_editor.py:230-232 | a minus sign before a zero-filled number reads back as the negated number |
| NumberText.ParseShownInt | hex_editor.py:230-232 | what `hex`/`str`/`bin` with `zfill` show for any integer reads back as that integer in the same base |
| NumberText.ParseHexLiteral | hex_editor.py:394 | `int(hex(v), 16) == v` for every integer, sign and `0x` prefix included |
| NumberText.DigitsBound | hex_editor.py:230-232 | a number below base^k has at most k digits |
| NumberText.ShowInt | hex_editor.py:230-232 | the shown text is at least `w` characters long and starts with a minus sign exactly for a negative number |
| NumberText.HexByteText | hex_grid_table.py:156 | `"%02X"` shows at least two digits, and exactly two for a byte |
| NumberText.HexLiteral | hex_editor.py:718 | `hex(v)` starts with `0x`, after a minus sign for a negative number |
| Base16.Encode | hex_grid_table.py:196 | two hex digits per byte, none of them whitespace |
| Base16.Decode | hex_grid_table.py:199 | a non-ASCII character gives `NonAscii` before anything else; then odd length gives `OddLength`; otherwise decoding succeeds exactly when every character is a hex digit, with one byte per two characters |
| Base16.DecodeEncode | hex_grid_table.py:195-200 | decoding the hex text of any bytes gives the bytes back |
| Base16.EncodeDecode | hex_grid_table.py:195-200 | encoding what decoded gives the text back in upper case |
| CellMap.AddrToRowCol | hex_grid_table.py:82-83 | the column is inside the row, and row * cols + col is the address |
| CellMap.RowColToAddr | hex_grid_table.py:85-86 | for a column inside the row, the address divides back into that row and column |
| CellMap.DivUnique | hex_grid_table.py:82-86 | a (row, column) pair with the column inside the row has exactly that row and column as its address's quotient and remainder |
| CellMap.RowColRoundTrip | hex_grid_table.py:82-86 | encoding a cell and decoding the address gives the cell back |
| CellMap.AddrOrder | hex_grid_table.py:82-86 | address order is row-major cell order |
| ByteSearch.TextBytes | hex_grid_table.py:335-336 | a query has bytes exactly when every character is below 256, and then one byte per character with its code |
| ByteSearch.CompileQuery | hex_grid_table.py:328-340 | an unknown search type is refused, a regular expression is carried as it is, hex and plain text compile to literal bytes; a hex query with a non-ASCII character is refused as `NonAscii`; the hex bytes encode back to the upper-cased query, and plain text gives one byte per character |
| ByteSearch.FindFrom | hex_grid_table.py:342-343 | a result is an occurrence at or after the position, and no occurrence lies between the position and the result (none at all when there is no result) |
| ByteSearch.Next | hex_grid_table.py:342-343 | a match starts at or after the position and spans the pattern; the advanced iterator keeps the snapshot and the pattern, moves strictly forward, and resumes at the end of a non-empty match |
| ByteSearch.NextIsLeftmost | hex_grid_table.py:342-343 | a match is the leftmost occurrence not before the iterator's position, spanning the pattern's length |
| ByteSearch.ExhaustedMeansNoMore | hex_grid_table.py:342-343 | an exhausted iterator has no occurrence left at or after its position |
| ByteSearch.ConsecutiveMatches | hex_grid_table.py:342-343 | consecutive matches come left to right without overlapping, and nothing between them matches |
| ByteSearch.HexQueryOfBytes | hex_grid_table.py:332-334 | a hex query made from some bytes compiles to exactly those bytes |
| ByteSearch.NonAsciiHexQuery | hex_grid_table.py:332-334 | the one-character hex query "é" is refused as non-ASCII, not as odd length |
| ByteSearch.HexSearchExample | hex_grid_table.py:328-343 | hex "AB" in 11 AB 22 AB: matches at 1 and at 3, then the end |
| TableSpec.Initial | hex_grid_table.py:21-26 | the document is the given bytes, cut to the given length, and a negative length gives an empty document; logs and overlay start empty |
| TableSpec.GetBinary | hex_grid_table.py:188-193 | the bytes from `start`, `length` of them or all the rest, cut at the end of the document (the intended clipping, see Findings) |
| TableLaws.InsertShifts | hex_grid_table.py:230-256 | insertion clamps the start to the length, keeps the bytes before it, puts the new bytes there, moves every later byte up by their number, clears the tags and sets the changed range |
| TableLaws.DeleteShifts | hex_grid_table.py:202-223 | deleting inside the buffer returns exactly that range, keeps the bytes before it and moves the later ones down; it clears the tags and the changed range |
| TableLaws.DeleteClips | hex_grid_table.py:203-204 | at or past the end nothing changes and nothing is returned; a range running past the end is cut there (intended behaviour, see Findings) |
| TableLaws.InsertThenDelete | hex_grid_table.py:202-256 | inserting, then deleting as many bytes at the clamped start, restores the buffer and returns the inserted bytes |
| TableLaws.DeleteThenInsert | hex_grid_table.py:202-256 | deleting, then inserting the removed bytes at the same place, restores the buffer |
| TableLaws.EditCellInverse | hex_grid_table.py:300-308 | `Do(EditCell)` returns an `EditCell` holding the overwritten byte and its previous tag; doing that restores the bytes and gives back the original action |
| TableLaws.InsertCellsInverse | hex_grid_table.py:318-322 | `Do(InsertCells)` deletes the inserted bytes and returns the matching `RemoveCells`; doing that restores the bytes |
| TableLaws.RemoveCellsInverse | hex_grid_table.py:310-314 | `Do(RemoveCells)` reinserts the data and returns the matching `InsertCells`; doing that restores the bytes |
| TableLaws.DoInverse | hex_grid_table.py:299-326 | every action that fits the buffer is inverted by what `Do` returns, and neither step touches the logs |
| TableLaws.UndoEmpty | hex_grid_table.py:275-285 | Undo on an empty log returns None and changes nothing, however often repeated |
| TableLaws.RedoEmpty | hex_grid_table.py:287-297 | Redo on an empty log returns None and changes nothing |
| TableLaws.UndoReportsStructural | hex_grid_table.py:263-285 | Undo reports True for an insert or delete and False for a cell edit, whether or not `Do` succeeded; when `Do` raises there is no answer |
| TableLaws.UndoFailedIsNoop | hex_grid_table.py:279-281 | an edit whose address is past the end goes back on the undo log, and nothing changes |
| TableLaws.RedoFailedIsNoop | hex_grid_table.py:291-293 | an edit whose address is past the end goes back on the redo log, and nothing changes |
| TableLaws.UndoRaisedLosesAction | hex_grid_table.py:275-285 | an edit inside the buffer whose value is not one byte raises on write; Undo has popped it, so it is lost, nothing else changes and no answer comes back |
| TableLaws.RedoRaisedLosesAction | hex_grid_table.py:287-297 | the same for Redo |
| TableLaws.UndoThenRedo | hex_grid_table.py:275-297 | Undo then Redo restores the bytes and both logs, and both report the same kind |
| TableLaws.RedoThenUndo | hex_grid_table.py:275-297 | Redo then Undo restores the bytes and both logs |
| TableLaws.InsertThenUndo | hex_grid_table.py:258-261 | InsertRange records `InsertCells` at the clamped start; Undo removes exactly the inserted bytes and puts the inverse on the redo log |
| TableLaws.DeleteThenUndo | hex_grid_table.py:225-228 | DeleteRange records `RemoveCells` with the removed bytes; Undo puts them back |
| TableLaws.StoreByteInside | hex_grid_table.py:158-175 | a new byte inside the buffer overwrites only that byte, tags the cell changed and records `EditCell` with the old byte and tag; the same byte changes nothing |
| TableLaws.StoreByteAppends | hex_grid_table.py:72-80 | a byte at the append position is appended and recorded as `InsertCells`, not `EditCell` |
| TableLaws.StoreByteBytes | hex_grid_table.py:166-175 | storing a byte overwrites it inside the buffer, appends it at the append position, and changes nothing past it |
| TableLaws.SetValueParses | hex_grid_table.py:158-175 | hex text for a byte on a data cell goes through `StoreByte`: the byte is overwritten inside the buffer, appended at the append position, and refused past it |
| TableLaws.SetValueRefuses | hex_grid_table.py:158-171 | a cell past the append position, text that is not hex, or a value outside 0..0xFF changes nothing |
| TableLaws.UndoEditCell | hex_grid_table.py:300-307 | undoing an edit inside the buffer writes the saved byte back and reports False |
| TableLaws.StoreByteThenUndo | hex_grid_table.py:158-175 | storing a new byte and undoing it restores the bytes and the undo log, and keeps the length |
| TableLaws.InsertedCellsHighlighted | hex_grid_table.py:127-129 | after an insert, the inserted cells show the range highlight |
| TableLaws.EditedCellMarked | hex_grid_table.py:171-173 | a cell whose edit took effect shows as changed |
| TableLaws.SetAttrThenGet | hex_grid_table.py:112-145 | `GetAttr` returns what `SetAttr` stored for a cell up to the append position, ahead of the range, page and column tags |
| TableLaws.ReadOnlyCells | hex_grid_table.py:113-120 | the dump column and the cells past the append position are read-only |
| TableLaws.RowsCoverAppendPosition | hex_grid_table.py:97-98 | the grid has a row for every address up to and including the append position, and no row beyond it |
| TableLaws.CellTextShowsByte | hex_grid_table.py:147-156 | a data cell is blank exactly when it is empty; otherwise it shows two hex digits that read back as its byte |
| TableLaws.SetShownValueIsNoop | hex_grid_table.py:171 | committing the text a cell already shows changes and records nothing |
| TableLaws.InsertCopiedText | hex_grid_table.py:195-200 | inserting the hex text of a range inserts the bytes of that range |
| TableLaws.InsertTextExample | hex_grid_table.py:198-200 | "DEAD" inserted at 2 into 00 00 00 00 gives 00 00 DE AD 00 00 |
| TableLaws.DeleteExample | hex_grid_table.py:225-228 | deleting 2 bytes at 1 from 10 20 30 40 leaves 10 40, and Undo restores the buffer |
| TableLaws.DeleteClippedCounterexample | hex_grid_table.py:207-212 | as written, deleting 3 bytes at 2 from 01 02 03 04 keeps 01 02 03 and saves 03 00 00 (the save buffer has the requested size), so Undo gives 01 02 03 00 00 03; the model cuts the count at the end and saves only the removed bytes: 01 02, saved 03 04, and Undo restores the buffer |
| TableLaws.GetBinaryCounterexample | hex_grid_table.py:191-192 | as written, 3 bytes from 2 of 01 02 03 04 give 03; the model gives 03 04 |
| GridTable.CopyInto | hex_grid_table.py:242-245 | the source lands at the offset, and the rest of the array is unchanged |
| GridTable.ShiftDown | hex_grid_table.py:215 | the block moves down by `n`; the bytes before and after it are unchanged |
| GridTable.HexGridTable.constructor | hex_grid_table.py:17-54 | the new table's state is `Initial(binary, length)` |
| GridTable.HexGridTable.String | hex_grid_table.py:56-60 | returns the document bytes and caches them; nothing else changes |
| GridTable.HexGridTable.GetValueByAddr | hex_grid_table.py:66-70 | up to `n` bytes from the address, cut at the end |
| GridTable.HexGridTable.SetValueByAddr | hex_grid_table.py:72-80 | the new state and result are those of `TableSpec.SetValueByAddr`: refuse past the end, append at the end, overwrite inside |
| GridTable.HexGridTable.InsertRangeRaw | hex_grid_table.py:230-256 | the new state and clamped start are those of `TableSpec.InsertRangeRaw`, built in a new array |
| GridTable.HexGridTable.DeleteRangeRaw | hex_grid_table.py:202-223 | the new state and removed bytes are those of `TableSpec.DeleteRangeRaw`, shifting within the same array |
| GridTable.HexGridTable.InsertRange | hex_grid_table.py:258-261 | the new state is `TableSpec.InsertRange`: the splice plus its `InsertCells` record |
| GridTable.HexGridTable.DeleteRange | hex_grid_table.py:225-228 | the new state is `TableSpec.DeleteRange`: the deletion plus its `RemoveCells` record |
| GridTable.HexGridTable.SetAttr | hex_grid_table.py:139-145 | stores the tag for the cell's address; bytes and cache unchanged |
| GridTable.HexGridTable.ResetAttr | hex_grid_table.py:91-92 | clears the per-address tags and nothing else |
| GridTable.HexGridTable.GetAttr | hex_grid_table.py:112-137 | the dump column and cells past the append position get the read-only tag; otherwise an explicitly set tag wins |
| GridTable.HexGridTable.GetNumberRows | hex_grid_table.py:97-98 | there is a row for the append position, and none wholly past it |
| GridTable.HexGridTable.IsEmpty | hex_grid_table.py:106-110 | a cell is empty exactly when it holds no byte of the document |
| GridTable.HexGridTable.Do | hex_grid_table.py:299-326 | the new state and inverse are those of `TableSpec.DoAction` |
| GridTable.HexGridTable.Undo | hex_grid_table.py:275-285 | the new state and answer are those of `TableSpec.Undo` |
| GridTable.HexGridTable.Redo | hex_grid_table.py:287-297 | the new state and answer are those of `TableSpec.Redo` |
| GridTable.HexGridTable.SetValue | hex_grid_table.py:158-182 | the new state is `TableSpec.SetValue`: parse, refuse non-bytes, then store |
| GridTable.HexGridTable.StoreByte | hex_grid_table.py:166-175 | the new state is `TableSpec.StoreByte`: compare, write, tag, record |
| GridTable.HexGridTable.GetValue | hex_grid_table.py:147-156 | the text is `TableSpec.CellText` of the document |
| GridTable.HexGridTable.GetBinary | hex_grid_table.py:188-193 | returns `TableSpec.GetBinary` of the document |
| GridTable.HexGridTable.GetText | hex_grid_table.py:195-196 | returns `TableSpec.GetText` of the document |
| GridTable.HexGridTable.InsertText | hex_grid_table.py:198-200 | text that decodes is inserted as `TableSpec.InsertText` says; text that does not is reported and changes nothing |
| GridTable.HexGridTable.FindIter | hex_grid_table.py:328-340 | a compiled query gives an iterator over the document from 0; a refused query gives its error and changes nothing |
| EditorHelpers.CheckAddrInRange | hex_editor.py:598-601 | identity on [0, length); negatives go to 0; length and beyond go to length - 1; -1 for an empty document |
| EditorHelpers.CheckAddrIdempotent | hex_editor.py:598-601 | clamping twice is clamping once |
| EditorHelpers.RowColToAddr | hex_editor.py:403-408 | with the range check the address lies in the document (-1 for an empty one); without it, the address falls in the clicked column, or in the last hex column for the dump column |
| EditorHelpers.RowColToAddrInverse | hex_editor.py:400-408 | `AddrToRowCol` undoes `RowColToAddr` for hex cells, and maps the dump column to the last hex column; with the range check a cell in the document keeps its address |
| EditorHelpers.InRangeByCells | hex_editor.py:410-412 | an address lies in [addr, addr + n) exactly when its cell lies, row first, between the first and last cells of the range |
| EditorHelpers.SetSelection | hex_editor.py:410-427 | the cursor goes to the first cell; at most three well-formed blocks, none for length <= 0, covering exactly the cells of [addr, addr + length) |
| EditorHelpers.Selection | hex_editor.py:299-309 | None exactly when no cell is selected; otherwise the start and length span every cell's address, and the lowest and highest addresses occur among the cells |
| EditorHelpers.SelectionOfBlocks | hex_editor.py:299-309 | blocks covering exactly [addr, addr + n) inside the document read back as (addr, n) |
| EditorHelpers.ValueText | hex_editor.py:229-237 | the hex label has at least 2 characters and the binary label at least 8; the hex label carries a minus sign exactly for a negative value |
| EditorHelpers.ValueTextReadsBack | hex_editor.py:229-237 | each value field shows text that reads back as the value in its base; the character label shows the byte itself |
| EditorHelpers.ValueTextWidths | hex_editor.py:230-232 | for a byte, the hex field shows exactly 2 digits and the binary field exactly 8 |
| EditorHelpers.EnteredValue | hex_editor.py:699-712 | a value is committed exactly on Enter when the text parses in the field's base, except a decimal above 0xFF; blank text never commits |
| EditorHelpers.EnterShownValue | hex_editor.py:699-712 | Enter on what a field shows commits the value shown |
| EditorHelpers.CommitValue | hex_editor.py:699-718 | the labels are redrawn exactly when a value is entered, and then show that value; without an entered value the table is unchanged |
| EditorHelpers.ValidatedEntryCommits | hex_editor.py:74-88 | non-empty text the field's validator accepts is a number in the field's base, so Enter commits it (decimals above 0xFF excepted) |
| EditorHelpers.CommitStoresEnteredValue | hex_editor.py:716-718 | Enter stores the entered value in the cursor cell when it is a byte and the cursor is on a hex cell, and otherwise leaves the table alone |
| EditorHelpers.CommitByte | hex_editor.py:391-398 | the grid's `SetValue` with `"%02X" % v` stores `v` exactly when `v` is a byte |
| EditorHelpers.StripOffsets | hex_editor.py:783 | the result is a subsequence of the text: characters are left out, the rest keep their order |
| EditorHelpers.StripOffsetsDrops | hex_editor.py:783 | an offset column anywhere in the text costs it ten characters |
| EditorHelpers.NoColumnKept | hex_editor.py:783 | a text without an offset column comes through unchanged |
| EditorHelpers.StripOffsetsUnchanged | hex_editor.py:783 | the substitution leaves the text unchanged exactly when there is no offset column in it |
| EditorHelpers.StripOffsetsKeepsClean | hex_editor.py:783 | text without whitespace has no offset column to drop |
| EditorHelpers.StripOffsetsCleanPrefix | hex_editor.py:783 | text without whitespace in front of the rest passes through unchanged |
| EditorHelpers.PasteDumpLine | hex_editor.py:783-784 | pasting two dump lines drops the offset column that starts the second and joins the hex digits |
| EditorHelpers.PastePayload | hex_editor.py:777-787 | there is a payload exactly when the clipboard text is non-empty and something is left once normalised; the payload has even length and no whitespace, and is the normalised text with at most its last character dropped |
| EditorHelpers.Paste | hex_editor.py:777-792 | without a payload nothing happens; a payload that decodes is inserted at the start; one that does not leaves the table as it was and reports the decoding error |
| EditorHelpers.CopyThenPaste | hex_editor.py:777-789 | pasting the hex text `GetText` copies inserts exactly the copied bytes |
| EditorHelpers.InsertClipboard | hex_editor.py:777-792 | the new table state and error are those of `Paste` |
| EditorHelpers.FindStep | hex_editor.py:454-494 | the session invariant holds after every press: the stored query compiles to a literal, and the iterator belongs to it |
| EditorHelpers.FindEmptyQuery | hex_editor.py:458-460 | an empty query drops the iterator and keeps the stored query |
| EditorHelpers.FindRefused | hex_editor.py:478-483 | a refused query changes nothing and reports its error |
| EditorHelpers.FindFirst | hex_editor.py:471-488 | a new search finds the leftmost occurrence in the document, or reports the end when there is none |
| EditorHelpers.FindContinues | hex_editor.py:485-488 | the same query again continues over the original snapshot, with the next match after the previous one |
| EditorHelpers.FoundBy | hex_editor.py:485-488 | a found match came from advancing one iterator once; the session then holds the advanced iterator |
| EditorHelpers.SameQueryAdvances | hex_editor.py:471-473 | with the same query and a running iterator, a press only advances the iterator |
| EditorHelpers.FindRestartsAfterEnd | hex_editor.py:490-492 | after "Search to End" the next press with the same query starts over from the top of the current document |
| EditorHelpers.HexQueryIgnoresBlanks | hex_editor.py:475-476 | a new hex search for text with blanks finds what the search without them finds |
| EditorHelpers.FindSession.constructor | hex_editor.py:134-135 | the session starts with no query and no iterator |
| EditorHelpers.FindSession.OnFindButton | hex_editor.py:454-494 | the new session and outcome are those of `FindStep`; the table's document is unchanged |
| EditorHelpers.EditorUndo | hex_editor.py:794-800 | the table moves as `TableSpec.Undo` says, and the redraw follows its answer |
| EditorHelpers.EditorRedo | hex_editor.py:802-808 | the table moves as `TableSpec.Redo` says, and the redraw follows its answer |
| EditorHelpers.UndoRedrawFitsLength | hex_editor.py:794-800 | when the top action fits the document, Undo redraws something, and a change in length always rebuilds the grid |
| EditorHelpers.StaleRedoAppends | hex_grid_table.py:263-297 | a redo log kept across later edits can redo a cell edit at what is now the append position: the byte is appended, yet the editor only repaints |
| EditorHelpers.StaleRedoThenUndo | hex_grid_table.py:275-285 | undoing that redone edit raises, because the byte it saved is empty: the edit is lost, the editor redraws nothing, and the next Undo removes the appended byte |
| Validator.Validate | number_validator.py:15-20 | true exactly when every character is allowed; the empty text validates |
| Validator.OnChar | number_validator.py:22-32 | a key is swallowed exactly when it types a character (space to 255, not Delete) that is not allowed |
| Validator.TypingKeepsAccepted | number_validator.py:22-32 | a typing key passes exactly when its character is allowed, so typing keeps an accepted text accepted wherever the character goes |
| Validator.Clone | number_validator.py:12-13 | the clone has the same allowed characters |
| Validator.CloneAgrees | number_validator.py:12-13 | a clone accepts the same texts and passes the same keys |
| Validator.SetsAreDigits | valid_types.py:6-8 | the hex, decimal and binary sets are exactly the digits `int()` reads in bases 16, 10 and 2 |

## Left out

- Widgets, event wiring, colours and layout are not modelled. This covers toolbars, menus, the status bar, `AutoSize`, `JumpTo`, mouse-drag selection (`_set_selection`), `GridCellAttr` reference counts and `dispatcher.send`. Cell attributes are plain tags.
- The clipboard is a parameter (`_get_data_from_clipboard`).
- `_copy`, `_cut`, `_delete` and `_paste` are not modelled as wholes; they are compositions of `Selection`, `GetText`, `DeleteRange` and `_insert`. `CopyThenPaste` states the copy/paste round trip.
- Files are left out: `SaveFile`, `SetBinaryFile`, `LoadFile`, `OnTransmissionButton`, bin_file_drop_target.py and main.py.
- `GetCurrentAddr` is `CellMap.RowColToAddr` applied to the cursor; the cursor itself is widget state.
- The rows-appended grid notification in `SetValue` (hex_grid_table.py:176-182) is a widget message.
- `ctypes` details are left out: buffer capacity beyond `length` and raw `memmove` addresses. The first `length` bytes of an array are the document.
- Regular-expression search is not matched. `FindIter` compiles a `RegexText` query to a `Regex` pattern, but `ByteSearch.Next` only takes literal patterns.
- EditorHelpers.FindStep: requires a search type other than `RegexText`, because the model has no regular-expression matching. EditorHelpers.FindSession.OnFindButton carries the same requirement.
- Search types other than the four radio-button labels cannot arise from the editor. Any other label is the `OtherKind` error.
- A `NormalText` query is matched byte for byte by character code. A character above 0xFF is refused. Python 3 would fail to match a `str` pattern against `bytes`.
- `binascii` and `re` are used in hex_grid_table.py but never imported there, so `GetText`, `InsertText` and `FindIter` raise `NameError` as written. The model gives their evident behaviour.
- Python 3 `/` is float division in `addr_to_row_col`, `GetNumberRows` and `AddrToRowCol`; the model uses integer division as the code evidently intends.
- `Do` of an `EditCell` whose saved value is not one byte, inside the buffer, raises in `ctypes`, and `Undo`/`Redo` catch only `IndexError`. The model gives `Do` the result `Raised`: the popped action is lost and `Undo`/`Redo` answer `None`, for which the editor redraws nothing, as it does when the exception escapes. The exception itself is not modelled. A stale redo reaches this case (`StaleRedoThenUndo`).
- TableSpec.SetValue: when `int(value, 16)` fails or the value is not a byte, hex_grid_table.py:163 raises `ValueError` or `struct.error`. The exception is not modelled: the model returns the table unchanged, which is the state the source leaves behind. `GridTable.HexGridTable.SetValue` follows it.
- EditorHelpers.EnteredValue: when `int(val, base)` fails, hex_editor.py:706-712 raises `ValueError`. The exception is not modelled: nothing is committed, and the table and the value labels stay as they were, which is the state the source leaves behind.
- The unknown action of `Do` (the `(None, None)` result) is left out, because `Action` is a closed datatype.
- `int()` also accepts non-ASCII Unicode digits. The model reads only ASCII digits and letters.
- The table needs at least one hex column; `hex_cols` is 16 in the editor.
- `NumberText.HexLiteral` writes hex letters in upper case where `hex()` writes lower case; `int(_, 16)` reads both the same.
- The `Failed` result of `Do` on `RemoveCells`/`InsertCells` is never produced; those branches cannot raise once the range is clamped.

## Findings

| source | as written | input that shows it | evidently intended | confidence | as-written member | corrected member |
|---|---|---|---|---|---|---|
| hex_grid_table.py:209-212 | a delete running past the end keeps `length - n` bytes of the request and shortens the buffer by that count | buffer 01 02 03 04, delete 3 at 2: the buffer becomes 01 02 03 and the undo data 03 00 00, so Undo gives 01 02 03 00 00 03 | two changes: line 210 cuts the count at the end (`length - start`), and the save buffer of line 207 holds only the bytes removed rather than the requested count; then the buffer is 01 02, the undo data 03 04, and Undo restores the buffer (with line 210 alone the undo data is 03 04 00) | not executed | TableLaws.DeleteClippedAsWritten | TableSpec.DeleteRangeRaw |
| hex_grid_table.py:191-192 | a range running past the end is cut to `length - n` bytes | 01 02 03 04, 3 bytes from 2: one byte, 03 | cut at the end (`length - start`): 03 04 | not executed | TableLaws.GetBinaryClippedAsWritten | TableSpec.GetBinary |
