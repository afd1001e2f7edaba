/** The document engine of `HexGridTable` as values: the buffer contents,
    the display overlay, and the undo and redo logs. Every operation of the
    table is a function from one `TableState` to the next; the class in
    module GridTable runs them in place and is proved to agree with them.
    The lemmas here state what the operations promise. */
module TableSpec {
  import opened Outcomes
  import opened Bytes
  import CellMap
  import NumberText
  import Base16

  /** Display attributes of a cell, as plain tags. */
  datatype Tag =
    | DumpReadOnly     // dump column and cells past the append position: not editable
    | ChangedCell      // a byte edited by the user
    | RangeHighlight   // inside the most recently inserted range
    | PageRow          // every 0x20-th row
    | AltColumn        // columns 4..7 and 12..15

  /** One undoable edit, carrying what is needed to invert it. */
  datatype Action =
    | EditCell(addr: nat, value: seq<byte>, attr: Option<Tag>)
    | InsertCells(start: nat, data: seq<byte>)
    | RemoveCells(start: nat, count: nat, data: seq<byte>)

  /** What `Do` returns: the action that undoes what it just did, the
      failure marker `(False, False)`, or `Raised` when writing an edit's
      value into the buffer raises (the exception leaves `Do`). */
  datatype DoResult = Inverse(action: Action) | Failed | Raised

  /** `buffer[:length]`, `_changed_attr`, `_changed_range`, `_undo_list`, `_redo_list`. */
  datatype TableState = TableState(
    bytes: seq<byte>,
    attrs: map<nat, Option<Tag>>,
    changedRange: (int, int),
    undo: seq<Action>,
    redo: seq<Action>)

  const NoRange: (int, int) := (-1, -1)

  function Min(a: int, b: int): int { if a <= b then a else b }

  /** `HexGridTable(binary, length)` before any edit. */
  function Initial(binary: seq<byte>, length: Option<int>): (st: TableState)
    requires length.Some? ==> length.value <= |binary|
    ensures st.undo == [] && st.redo == [] && st.attrs == map[] && st.changedRange == NoRange
    ensures length.None? ==> st.bytes == binary
    ensures length.Some? ==> |st.bytes| == (if length.value < 0 then 0 else length.value)
    ensures st.bytes == binary[..|st.bytes|]
  {
    var n := match length case None => |binary| case Some(l) => if l < 0 then 0 else l;
    TableState(binary[..n], map[], NoRange, [], [])
  }

  // ---------------------------------------------------------------- bytes

  /** `_get_value_by_addr(addr, n)`: up to `n` bytes from `addr`, cut at the end. */
  function ValueAt(bytes: seq<byte>, addr: nat, n: nat): seq<byte>
  {
    if addr >= |bytes| then [] else bytes[addr..Min(addr + n, |bytes|)]
  }

  /** `_insert_range(start, value)`: the start is clamped to the length, the
      bytes are spliced in, the overlay is cleared and the new range is
      remembered. Returns the clamped start. */
  function InsertRangeRaw(st: TableState, start: nat, value: seq<byte>): (TableState, nat)
  {
    var s := if start >= |st.bytes| then |st.bytes| else start;
    (st.(bytes := st.bytes[..s] + value + st.bytes[s..], attrs := map[],
         changedRange := (s, s + |value|)),
     s)
  }

  /** `_delete_range(start, n)`: nothing happens at or past the end; a range
      running past the end is cut there (the corrected clipped branch, see
      DeleteClippedAsWritten); the removed bytes are returned. */
  function DeleteRangeRaw(st: TableState, start: nat, n: nat): (TableState, seq<byte>)
  {
    if start >= |st.bytes| then (st, [])
    else if start + n > |st.bytes| then
      (st.(bytes := st.bytes[..start], changedRange := NoRange), st.bytes[start..])
    else
      (st.(bytes := st.bytes[..start] + st.bytes[start + n..], changedRange := NoRange,
           attrs := map[]),
       st.bytes[start..start + n])
  }

  /** `InsertRange`: insert and record `InsertCells` at the clamped start. */
  function InsertRange(st: TableState, start: nat, value: seq<byte>): TableState
  {
    var (st1, s) := InsertRangeRaw(st, start, value);
    st1.(undo := st1.undo + [InsertCells(s, value)])
  }

  /** `DeleteRange`: delete and record `RemoveCells` with the requested count. */
  function DeleteRange(st: TableState, start: nat, n: nat): TableState
  {
    var (st1, removed) := DeleteRangeRaw(st, start, n);
    st1.(undo := st1.undo + [RemoveCells(start, n, removed)])
  }

  /** `_set_value_by_addr(addr, value)`: past the end it refuses; at the end
      it appends through `InsertRange` (recording `InsertCells`); inside it
      overwrites the byte. Writing anything but one byte inside the buffer
      raises in ctypes; here it is refused with nothing changed, and `Do`
      reports it as `Raised`. */
  function SetValueByAddr(st: TableState, addr: nat, value: seq<byte>): (TableState, bool)
  {
    if addr > |st.bytes| then (st, false)
    else if addr == |st.bytes| then (InsertRange(st, |st.bytes|, value), true)
    else if |value| == 1 then (st.(bytes := st.bytes[addr := value[0]]), true)
    else (st, false)
  }

  // ---------------------------------------------------------------- overlay

  /** `GetAttr(row, col)`: the first rule that applies wins. */
  function AttrAt(st: TableState, cols: nat, row: nat, col: nat): Option<Tag>
  {
    var addr := row * cols + col;
    if col == cols then Some(DumpReadOnly)
    else if addr > |st.bytes| then Some(DumpReadOnly)
    else if addr in st.attrs then st.attrs[addr]
    else if st.changedRange.0 <= addr < st.changedRange.1 then Some(RangeHighlight)
    else if row != 0 && row % 0x20 == 0 then Some(PageRow)
    else if col in {4, 5, 6, 7, 12, 13, 14, 15} then Some(AltColumn)
    else None
  }

  /** `SetAttr(attr, row, col)` */
  function SetAttr(st: TableState, cols: nat, tag: Option<Tag>, row: nat, col: nat): TableState
  {
    st.(attrs := st.attrs[row * cols + col := tag])
  }

  // ---------------------------------------------------------------- undo log

  /** `Do(action, data)`: apply an action and return its inverse. */
  function DoAction(st: TableState, cols: nat, a: Action): (TableState, DoResult)
    requires 0 < cols
  {
    match a
    case EditCell(addr, value, attr) =>
      var row, col := addr / cols, addr % cols;
      var saved := ValueAt(st.bytes, addr, 1);
      var savedAttr := AttrAt(st, cols, row, col);
      var (st1, ok) := SetValueByAddr(st, addr, value);
      if ok then (SetAttr(st1, cols, attr, row, col), Inverse(EditCell(addr, saved, savedAttr)))
      else (st, if addr > |st.bytes| then Failed else Raised)
    case RemoveCells(start, _, data) =>
      var (st1, s) := InsertRangeRaw(st, start, data);
      (st1, Inverse(InsertCells(s, data)))
    case InsertCells(start, data) =>
      var (st1, removed) := DeleteRangeRaw(st, start, |data|);
      (st1, Inverse(RemoveCells(start, |removed|, removed)))
  }

  /** `Undo()`: `None` on an empty log; otherwise the top action is done,
      its inverse goes to the redo log (or, when `Do` fails, the action goes
      back), and the answer is whether that action is structural. When `Do`
      raises, only `IndexError` is caught, so the exception leaves `Undo`:
      the popped action is lost and no answer comes back (`None`). */
  function Undo(st: TableState, cols: nat): (TableState, Option<bool>)
    requires 0 < cols
  {
    if st.undo == [] then (st, None)
    else
      var item := st.undo[|st.undo| - 1];
      var (st1, r) := DoAction(st.(undo := st.undo[..|st.undo| - 1]), cols, item);
      if r.Raised? then (st1, None)
      else if r.Failed? then (st1.(undo := st1.undo + [item]), Some(!item.EditCell?))
      else (st1.(redo := st1.redo + [r.action]), Some(!r.action.EditCell?))
  }

  /** `Redo()`: the mirror image of `Undo()`. */
  function Redo(st: TableState, cols: nat): (TableState, Option<bool>)
    requires 0 < cols
  {
    if st.redo == [] then (st, None)
    else
      var item := st.redo[|st.redo| - 1];
      var (st1, r) := DoAction(st.(redo := st.redo[..|st.redo| - 1]), cols, item);
      if r.Raised? then (st1, None)
      else if r.Failed? then (st1.(redo := st1.redo + [item]), Some(!item.EditCell?))
      else (st1.(undo := st1.undo + [r.action]), Some(!r.action.EditCell?))
  }

  // ---------------------------------------------------------------- cells

  /** `SetValue(row, col, text)`: the grid's cell editor stores hex text. */
  function SetValue(st: TableState, cols: nat, row: nat, col: nat, text: string): TableState
  {
    if col == cols then st
    else
      match NumberText.ParseInt(text, 16)
      case None => st                    // int(value, 16) raises
      case Some(v) =>
        if v < 0 || v > 255 then st      // struct.pack('B', v) raises
        else StoreByte(st, cols, row, col, v as byte)
  }

  /** The rest of `SetValue` once the text is a byte: nothing happens when
      the byte is already there; otherwise it is written, the cell is marked
      changed, and an edit inside the buffer is recorded with the old byte
      and the cell's attribute before the edit. */
  function StoreByte(st: TableState, cols: nat, row: nat, col: nat, v: byte): TableState
  {
    var addr := row * cols + col;
    var attr := AttrAt(st, cols, row, col);
    var saved := ValueAt(st.bytes, addr, 1);
    if saved == [v] then st
    else
      var (st1, ok) := SetValueByAddr(st, addr, [v]);
      if !ok then st
      else
        var st2 := SetAttr(st1, cols, Some(ChangedCell), row, col);
        if addr < |st.bytes| then st2.(undo := st2.undo + [EditCell(addr, saved, attr)])
        else st2
  }

  /** The dump column: printable bytes as themselves, others as '.', zero
      bytes left out. */
  function DumpText(bs: seq<byte>): string
  {
    if bs == [] then []
    else if bs[0] == 0 then DumpText(bs[1..])
    else [if 0x20 <= bs[0] <= 0x7E then bs[0] as int as char else '.'] + DumpText(bs[1..])
  }

  /** `GetValue(row, col)`: `"%02X"` of the byte, empty past the end; the
      dump column shows the 16 bytes from the start of the row. */
  function CellText(bytes: seq<byte>, cols: nat, row: nat, col: nat): string
  {
    if col == cols then "  " + DumpText(ValueAt(bytes, row * cols, 16))
    else
      var v := ValueAt(bytes, row * cols + col, 1);
      if v == [] then "" else NumberText.HexByteText(v[0] as nat)
  }

  /** `GetNumberRows()` */
  function NumberRows(length: nat, cols: nat): nat
    requires 0 < cols
  {
    (length + cols) / cols
  }

  /** `IsEmptyCell(row, col)` */
  predicate IsEmptyCell(length: nat, cols: nat, row: nat, col: nat)
  {
    row * cols + col >= length
  }

  /** `GetBinary(start, length)` with the clipped length corrected to what is
      left after `start` (see GetBinaryClippedAsWritten). */
  function GetBinary(bytes: seq<byte>, start: nat, n: Option<nat>): (r: seq<byte>)
    ensures start <= |bytes| ==> start + |r| <= |bytes| && r == bytes[start..start + |r|]
    ensures start <= |bytes| ==> |r| == (match n case None => |bytes| - start
                                                case Some(k) => Min(k, |bytes| - start))
    ensures start > |bytes| ==> r == []
  {
    if start >= |bytes| then []
    else match n
      case None => bytes[start..]
      case Some(k) => bytes[start..Min(start + k, |bytes|)]
  }

  /** `GetText(start, length)`: upper-case hex of `GetBinary`. */
  function GetText(bytes: seq<byte>, start: nat, n: Option<nat>): string
  {
    Base16.Encode(GetBinary(bytes, start, n))
  }

  /** `InsertText(start, text)`: hex-decode, then `InsertRange`. */
  function InsertText(st: TableState, start: nat, text: string): Result<TableState, Base16.HexError>
  {
    match Base16.Decode(text)
    case Ok(value) => Ok(InsertRange(st, start, value))
    case Err(e) => Err(e)
  }
}
