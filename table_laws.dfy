/** What the document engine promises: splices and deletions move the
    addresses after them, every recorded action is undone by its inverse,
    Undo and Redo undo each other, and the overlay shows edits. */
module TableLaws {
  import opened Outcomes
  import opened Bytes
  import opened TableSpec
  import NumberText
  import Base16
  import CellMap

  /** An action that matches the buffer it is about to be applied to: an
      edit of one byte inside the buffer, an insert whose bytes are in
      place, a removal whose count is the length of its data. `InsertRange`
      and `StoreByte` record such actions, and `DeleteRange` does for a
      range inside the buffer; a `RemoveCells` recorded for a range running
      past the end keeps the requested count and falls outside. */
  predicate Consistent(st: TableState, a: Action)
  {
    match a
    case EditCell(addr, value, _) => addr < |st.bytes| && |value| == 1
    case InsertCells(s, data) => s + |data| <= |st.bytes| && st.bytes[s..s + |data|] == data
    case RemoveCells(s, n, data) => s <= |st.bytes| && n == |data|
  }

  // ---------------------------------------------------------------- splices

  /** Inserting keeps the bytes before the clamped start, puts the new bytes
      there, and moves every later byte up by their number. */
  lemma InsertShifts(st: TableState, start: nat, value: seq<byte>)
    ensures var (st1, s) := InsertRangeRaw(st, start, value);
      s == Min(start, |st.bytes|) &&
      |st1.bytes| == |st.bytes| + |value| &&
      (forall i :: 0 <= i < s ==> st1.bytes[i] == st.bytes[i]) &&
      (forall j :: 0 <= j < |value| ==> st1.bytes[s + j] == value[j]) &&
      (forall i :: s <= i < |st.bytes| ==> st1.bytes[i + |value|] == st.bytes[i]) &&
      st1.attrs == map[] && st1.changedRange == (s, s + |value|) &&
      st1.undo == st.undo && st1.redo == st.redo
  {
  }

  /** Deleting inside the buffer returns exactly the range and moves every
      later byte down by its length. */
  lemma DeleteShifts(st: TableState, start: nat, n: nat)
    requires start + n <= |st.bytes|
    ensures var (st1, removed) := DeleteRangeRaw(st, start, n);
      removed == st.bytes[start..start + n] &&
      |st1.bytes| == |st.bytes| - n &&
      (forall i :: 0 <= i < start ==> st1.bytes[i] == st.bytes[i]) &&
      (forall i :: start <= i < |st1.bytes| ==> st1.bytes[i] == st.bytes[i + n]) &&
      (start < |st.bytes| ==> st1.attrs == map[] && st1.changedRange == NoRange)
  {
  }

  /** Deleting at or past the end changes nothing; a range running past the
      end is cut there. */
  lemma DeleteClips(st: TableState, start: nat, n: nat)
    ensures start >= |st.bytes| ==> DeleteRangeRaw(st, start, n) == (st, [])
    ensures start < |st.bytes| < start + n ==>
      DeleteRangeRaw(st, start, n).0.bytes == st.bytes[..start] &&
      DeleteRangeRaw(st, start, n).1 == st.bytes[start..]
  {
  }

  /** Insert, then delete as many bytes at the same place: the buffer is as
      before and the deleted bytes are the inserted ones. */
  lemma InsertThenDelete(st: TableState, start: nat, value: seq<byte>)
    ensures var (st1, s) := InsertRangeRaw(st, start, value);
      var (st2, removed) := DeleteRangeRaw(st1, s, |value|);
      st2.bytes == st.bytes && removed == value
  {
    var (st1, s) := InsertRangeRaw(st, start, value);
    var b := st.bytes;
    if s < |st1.bytes| {
      assert st1.bytes[s..s + |value|] == value;
      assert st1.bytes[..s] == b[..s];
      assert st1.bytes[s + |value|..] == b[s..];
      assert b[..s] + b[s..] == b;
    } else {
      assert value == [] && s == |b|;
      assert b[..s] + [] + b[s..] == b;
    }
  }

  /** Delete, then insert the removed bytes at the same place: the buffer is
      as before. */
  lemma DeleteThenInsert(st: TableState, start: nat, n: nat)
    requires start <= |st.bytes|
    ensures var (st1, removed) := DeleteRangeRaw(st, start, n);
      InsertRangeRaw(st1, start, removed).0.bytes == st.bytes &&
      InsertRangeRaw(st1, start, removed).1 == start
  {
    var b := st.bytes;
    var (st1, removed) := DeleteRangeRaw(st, start, n);
    if start == |b| {
      assert b[..start] + [] + b[start..] == b;
    } else if start + n > |b| {
      assert b[..start] + b[start..] + [] == b;
    } else {
      assert st1.bytes[..start] == b[..start];
      assert st1.bytes[start..] == b[start + n..];
      assert b[..start] + b[start..start + n] + b[start + n..] == b;
    }
  }

  // ---------------------------------------------------------------- Do

  lemma EditCellInverse(st: TableState, cols: nat, a: Action)
    requires 0 < cols && a.EditCell? && Consistent(st, a)
    ensures var (st1, r) := DoAction(st, cols, a);
      r.Inverse? && Consistent(st1, r.action) &&
      st1.undo == st.undo && st1.redo == st.redo &&
      DoAction(st1, cols, r.action).1 == Inverse(a) &&
      DoAction(st1, cols, r.action).0.bytes == st.bytes &&
      DoAction(st1, cols, r.action).0.undo == st.undo &&
      DoAction(st1, cols, r.action).0.redo == st.redo
  {
    var addr := a.addr;
    var row, col := addr / cols, addr % cols;
    assert row * cols + col == addr;
    var (st1, r) := DoAction(st, cols, a);
    assert st1.bytes == st.bytes[addr := a.value[0]];
    assert r.action == EditCell(addr, [st.bytes[addr]], AttrAt(st, cols, row, col));
    assert AttrAt(st1, cols, row, col) == a.attr;
    assert [a.value[0]] == a.value;
  }

  lemma InsertCellsInverse(st: TableState, cols: nat, a: Action)
    requires 0 < cols && a.InsertCells? && Consistent(st, a)
    ensures var (st1, r) := DoAction(st, cols, a);
      r.Inverse? && Consistent(st1, r.action) &&
      st1.undo == st.undo && st1.redo == st.redo &&
      DoAction(st1, cols, r.action).1 == Inverse(a) &&
      DoAction(st1, cols, r.action).0.bytes == st.bytes &&
      DoAction(st1, cols, r.action).0.undo == st.undo &&
      DoAction(st1, cols, r.action).0.redo == st.redo
  {
    var s, v := a.start, a.data;
    var (st1, removed) := DeleteRangeRaw(st, s, |v|);
    if s >= |st.bytes| {
      assert v == [] && removed == [];
    } else {
      assert removed == v;
    }
    DeleteThenInsert(st, s, |v|);
  }

  lemma RemoveCellsInverse(st: TableState, cols: nat, a: Action)
    requires 0 < cols && a.RemoveCells? && Consistent(st, a)
    ensures var (st1, r) := DoAction(st, cols, a);
      r.Inverse? && Consistent(st1, r.action) &&
      st1.undo == st.undo && st1.redo == st.redo &&
      DoAction(st1, cols, r.action).1 == Inverse(a) &&
      DoAction(st1, cols, r.action).0.bytes == st.bytes &&
      DoAction(st1, cols, r.action).0.undo == st.undo &&
      DoAction(st1, cols, r.action).0.redo == st.redo
  {
    var s, d := a.start, a.data;
    var (st1, s1) := InsertRangeRaw(st, s, d);
    assert s1 == s;
    assert st1.bytes[s..s + |d|] == d;
    InsertThenDelete(st, s, d);
    var (st2, removed) := DeleteRangeRaw(st1, s, |d|);
    assert removed == d;
  }

  /** `Do` returns an inverse that matches the new buffer; doing that inverse
      gives back the original action and the original bytes, and neither
      step touches the logs. */
  lemma DoInverse(st: TableState, cols: nat, a: Action)
    requires 0 < cols && Consistent(st, a)
    ensures var (st1, r) := DoAction(st, cols, a);
      r.Inverse? && Consistent(st1, r.action) &&
      st1.undo == st.undo && st1.redo == st.redo &&
      DoAction(st1, cols, r.action).1 == Inverse(a) &&
      DoAction(st1, cols, r.action).0.bytes == st.bytes &&
      DoAction(st1, cols, r.action).0.undo == st.undo &&
      DoAction(st1, cols, r.action).0.redo == st.redo
  {
    match a
    case EditCell(_, _, _) => EditCellInverse(st, cols, a);
    case InsertCells(_, _) => InsertCellsInverse(st, cols, a);
    case RemoveCells(_, _, _) => RemoveCellsInverse(st, cols, a);
  }

  // ---------------------------------------------------------------- Undo/Redo

  /** Undo on an empty log reports `None` and changes nothing, however often
      it is repeated. */
  lemma UndoEmpty(st: TableState, cols: nat)
    requires 0 < cols && st.undo == []
    ensures Undo(st, cols) == (st, None)
    ensures Undo(Undo(st, cols).0, cols) == (st, None)
  {
  }

  lemma RedoEmpty(st: TableState, cols: nat)
    requires 0 < cols && st.redo == []
    ensures Redo(st, cols) == (st, None)
  {
  }

  /** An edit whose value is not one byte, at an address inside the
      buffer: writing it raises. */
  predicate Raises(st: TableState, a: Action)
  {
    a.EditCell? && a.addr < |st.bytes| && |a.value| != 1
  }

  /** Undo reports whether the action it took was structural (an insert or
      a delete), whether or not `Do` succeeded; when `Do` raised there is
      no answer. */
  lemma UndoReportsStructural(st: TableState, cols: nat)
    requires 0 < cols && st.undo != []
    ensures var a := st.undo[|st.undo| - 1];
      Undo(st, cols).1 == if Raises(st, a) then None else Some(!a.EditCell?)
  {
  }

  /** An edit whose address is past the end cannot be applied and is put
      back: Undo then changes nothing. */
  lemma UndoFailedIsNoop(st: TableState, cols: nat)
    requires 0 < cols && st.undo != []
    requires var a := st.undo[|st.undo| - 1]; a.EditCell? && a.addr > |st.bytes|
    ensures Undo(st, cols) == (st, Some(false))
  {
    assert st.undo[..|st.undo| - 1] + [st.undo[|st.undo| - 1]] == st.undo;
  }

  lemma RedoFailedIsNoop(st: TableState, cols: nat)
    requires 0 < cols && st.redo != []
    requires var a := st.redo[|st.redo| - 1]; a.EditCell? && a.addr > |st.bytes|
    ensures Redo(st, cols) == (st, Some(false))
  {
    assert st.redo[..|st.redo| - 1] + [st.redo[|st.redo| - 1]] == st.redo;
  }

  /** An edit that raises is lost: Undo pops it, changes nothing else and
      gives no answer. */
  lemma UndoRaisedLosesAction(st: TableState, cols: nat)
    requires 0 < cols && st.undo != [] && Raises(st, st.undo[|st.undo| - 1])
    ensures Undo(st, cols) == (st.(undo := st.undo[..|st.undo| - 1]), None)
  {
  }

  lemma RedoRaisedLosesAction(st: TableState, cols: nat)
    requires 0 < cols && st.redo != [] && Raises(st, st.redo[|st.redo| - 1])
    ensures Redo(st, cols) == (st.(redo := st.redo[..|st.redo| - 1]), None)
  {
  }

  /** Undo then Redo restores the bytes and both logs exactly. */
  lemma UndoThenRedo(st: TableState, cols: nat)
    requires 0 < cols && st.undo != [] && Consistent(st, st.undo[|st.undo| - 1])
    ensures var (st1, r1) := Undo(st, cols); var (st2, r2) := Redo(st1, cols);
      r1.Some? && r2 == r1 &&
      st2.bytes == st.bytes && st2.undo == st.undo && st2.redo == st.redo
  {
    var a := st.undo[|st.undo| - 1];
    var popped := st.(undo := st.undo[..|st.undo| - 1]);
    DoInverse(popped, cols, a);
    var (st1, r) := DoAction(popped, cols, a);
    var mid := st1.(redo := st1.redo + [r.action]);
    assert Undo(st, cols).0 == mid;
    assert mid.redo[..|mid.redo| - 1] == st.redo;
    DoInverse(mid.(redo := st.redo), cols, r.action);
    assert st.undo[..|st.undo| - 1] + [a] == st.undo;
  }

  /** Redo then Undo restores the bytes and both logs exactly. */
  lemma RedoThenUndo(st: TableState, cols: nat)
    requires 0 < cols && st.redo != [] && Consistent(st, st.redo[|st.redo| - 1])
    ensures var (st1, r1) := Redo(st, cols); var (st2, r2) := Undo(st1, cols);
      r1.Some? && r2 == r1 &&
      st2.bytes == st.bytes && st2.undo == st.undo && st2.redo == st.redo
  {
    var a := st.redo[|st.redo| - 1];
    var popped := st.(redo := st.redo[..|st.redo| - 1]);
    DoInverse(popped, cols, a);
    var (st1, r) := DoAction(popped, cols, a);
    var mid := st1.(undo := st1.undo + [r.action]);
    assert Redo(st, cols).0 == mid;
    assert mid.undo[..|mid.undo| - 1] == st.undo;
    DoInverse(mid.(undo := st.undo), cols, r.action);
    assert st.redo[..|st.redo| - 1] + [a] == st.redo;
  }

  // ---------------------------------------------------------------- recording

  /** InsertRange records an `InsertCells` that matches the new buffer; Undo
      then removes exactly the inserted bytes and moves the inverse to the
      redo log. */
  lemma InsertThenUndo(st: TableState, cols: nat, start: nat, value: seq<byte>)
    requires 0 < cols
    ensures var st1 := InsertRange(st, start, value);
      var s := Min(start, |st.bytes|);
      st1.undo == st.undo + [InsertCells(s, value)] && st1.redo == st.redo &&
      Consistent(st1, InsertCells(s, value)) &&
      var (st2, r) := Undo(st1, cols);
      r == Some(true) && st2.bytes == st.bytes && st2.undo == st.undo &&
      st2.redo == st.redo + [RemoveCells(s, |value|, value)]
  {
    var (raw, s) := InsertRangeRaw(st, start, value);
    InsertThenDelete(st, start, value);
    assert raw.bytes[s..s + |value|] == value;
    var st1 := InsertRange(st, start, value);
    assert st1.undo[..|st1.undo| - 1] == st.undo;
  }

  /** DeleteRange records a `RemoveCells`; Undo puts the removed bytes back
      at the same place. */
  lemma DeleteThenUndo(st: TableState, cols: nat, start: nat, n: nat)
    requires 0 < cols
    ensures var st1 := DeleteRange(st, start, n);
      var removed := DeleteRangeRaw(st, start, n).1;
      st1.undo == st.undo + [RemoveCells(start, n, removed)] && st1.redo == st.redo &&
      var (st2, r) := Undo(st1, cols);
      r == Some(true) && st2.bytes == st.bytes && st2.undo == st.undo
  {
    var (raw, removed) := DeleteRangeRaw(st, start, n);
    var st1 := DeleteRange(st, start, n);
    assert st1.undo[..|st1.undo| - 1] == st.undo;
    if start <= |st.bytes| {
      DeleteThenInsert(st, start, n);
    } else {
      assert removed == [] && raw.bytes == st.bytes;
      assert st.bytes[..|st.bytes|] + [] + st.bytes[|st.bytes|..] == st.bytes;
    }
  }

  /** Storing a byte inside the buffer that differs from the stored one
      overwrites only that byte, marks the cell changed and records
      `EditCell` with the old byte and the cell's previous attribute; the
      redo log is kept. Storing the same byte changes nothing. */
  lemma StoreByteInside(st: TableState, cols: nat, row: nat, col: nat, v: byte)
    requires row * cols + col < |st.bytes|
    ensures var addr := row * cols + col; var st1 := StoreByte(st, cols, row, col, v);
      if v == st.bytes[addr] then st1 == st
      else
        st1.bytes == st.bytes[addr := v] &&
        st1.attrs == st.attrs[addr := Some(ChangedCell)] &&
        st1.changedRange == st.changedRange &&
        st1.undo == st.undo + [EditCell(addr, [st.bytes[addr]], AttrAt(st, cols, row, col))] &&
        st1.redo == st.redo
  {
    var addr := row * cols + col;
    assert ValueAt(st.bytes, addr, 1) == [st.bytes[addr]];
  }

  /** Storing at the append position appends the byte and records an
      `InsertCells`, not an `EditCell`. */
  lemma StoreByteAppends(st: TableState, cols: nat, row: nat, col: nat, v: byte)
    requires row * cols + col == |st.bytes|
    ensures var st1 := StoreByte(st, cols, row, col, v);
      st1.bytes == st.bytes + [v] &&
      st1.undo == st.undo + [InsertCells(|st.bytes|, [v])] &&
      st1.redo == st.redo &&
      st1.attrs == map[|st.bytes| := Some(ChangedCell)]
  {
    assert ValueAt(st.bytes, |st.bytes|, 1) == [];
    assert st.bytes[..|st.bytes|] + [v] + st.bytes[|st.bytes|..] == st.bytes + [v];
  }

  /** Storing a byte overwrites it inside the buffer, appends it at the
      append position, and is refused past it. */
  lemma StoreByteBytes(st: TableState, cols: nat, row: nat, col: nat, v: byte)
    ensures row * cols + col < |st.bytes| ==>
      StoreByte(st, cols, row, col, v).bytes == st.bytes[row * cols + col := v]
    ensures row * cols + col == |st.bytes| ==> StoreByte(st, cols, row, col, v).bytes == st.bytes + [v]
    ensures row * cols + col > |st.bytes| ==> StoreByte(st, cols, row, col, v) == st
  {
    var addr := row * cols + col;
    if addr < |st.bytes| {
      StoreByteInside(st, cols, row, col, v);
    } else if addr == |st.bytes| {
      StoreByteAppends(st, cols, row, col, v);
    } else {
      assert ValueAt(st.bytes, addr, 1) == [];
    }
  }

  /** Editing the data cell at `addr` with hex text for a byte stores that
      byte: it overwrites the byte inside the buffer, is appended at the
      append position, and is refused past it. */
  lemma SetValueParses(st: TableState, cols: nat, row: nat, col: nat, addr: nat, text: string, v: int)
    requires col < cols && addr == row * cols + col && 0 <= v <= 255
    requires NumberText.ParseInt(text, 16) == Some(v)
    ensures SetValue(st, cols, row, col, text) == StoreByte(st, cols, row, col, v as byte)
    ensures addr < |st.bytes| ==> SetValue(st, cols, row, col, text).bytes == st.bytes[addr := v as byte]
    ensures addr == |st.bytes| ==> SetValue(st, cols, row, col, text).bytes == st.bytes + [v as byte]
    ensures addr > |st.bytes| ==> SetValue(st, cols, row, col, text) == st
  {
    StoreByteBytes(st, cols, row, col, v as byte);
  }

  /** Edits past the append position, text that is not hex, and values
      outside 0..0xFF change nothing. */
  lemma SetValueRefuses(st: TableState, cols: nat, row: nat, col: nat, text: string)
    requires col < cols
    requires row * cols + col > |st.bytes| ||
             NumberText.ParseInt(text, 16).None? ||
             NumberText.ParseInt(text, 16).value < 0 ||
             NumberText.ParseInt(text, 16).value > 255
    ensures SetValue(st, cols, row, col, text) == st
  {
    var addr := row * cols + col;
    if addr > |st.bytes| {
      assert ValueAt(st.bytes, addr, 1) == [];
    }
  }

  /** Undoing an edit inside the buffer writes the saved byte back. */
  lemma UndoEditCell(st: TableState, cols: nat, addr: nat, b: byte, t: Option<Tag>)
    requires 0 < cols && addr < |st.bytes|
    requires st.undo != [] && st.undo[|st.undo| - 1] == EditCell(addr, [b], t)
    ensures var (st1, r) := Undo(st, cols);
      r == Some(false) && st1.bytes == st.bytes[addr := b] &&
      st1.undo == st.undo[..|st.undo| - 1]
  {
  }

  /** Storing a new byte inside the buffer and undoing it restores the byte. */
  lemma StoreByteThenUndo(st: TableState, cols: nat, row: nat, col: nat, v: byte)
    requires 0 < cols && col < cols && row * cols + col < |st.bytes|
    requires v != st.bytes[row * cols + col]
    ensures var st1 := StoreByte(st, cols, row, col, v);
      |st1.bytes| == |st.bytes| &&
      Undo(st1, cols).1 == Some(false) &&
      Undo(st1, cols).0.bytes == st.bytes && Undo(st1, cols).0.undo == st.undo
  {
    var addr := row * cols + col;
    var saved := st.bytes[addr];
    var attr := AttrAt(st, cols, row, col);
    StoreByteInside(st, cols, row, col, v);
    var st1 := StoreByte(st, cols, row, col, v);
    assert st1.undo == st.undo + [EditCell(addr, [saved], attr)];
    UndoEditCell(st1, cols, addr, saved, attr);
    assert st1.undo[..|st1.undo| - 1] == st.undo;
    assert st1.bytes[addr := saved] == st.bytes;
  }

  // ---------------------------------------------------------------- overlay

  /** After an insert, the inserted cells show the range highlight. */
  lemma InsertedCellsHighlighted(st: TableState, cols: nat, start: nat, value: seq<byte>, row: nat, col: nat)
    requires col < cols
    requires var s := Min(start, |st.bytes|); s <= row * cols + col < s + |value|
    ensures AttrAt(InsertRange(st, start, value), cols, row, col) == Some(RangeHighlight)
  {
  }

  /** After an edit that took effect, the edited cell shows as changed. */
  lemma EditedCellMarked(st: TableState, cols: nat, row: nat, col: nat, text: string)
    requires col < cols
    requires SetValue(st, cols, row, col, text).bytes != st.bytes
    ensures AttrAt(SetValue(st, cols, row, col, text), cols, row, col) == Some(ChangedCell)
  {
    var addr := row * cols + col;
    var v := NumberText.ParseInt(text, 16).value;
    if addr == |st.bytes| {
      StoreByteAppends(st, cols, row, col, v as byte);
    } else {
      StoreByteInside(st, cols, row, col, v as byte);
    }
  }

  /** `GetAttr` reads back what `SetAttr` set on a cell up to the append
      position: the explicit tag comes before the range highlight and the
      row and column tags. */
  lemma SetAttrThenGet(st: TableState, cols: nat, tag: Option<Tag>, row: nat, col: nat)
    requires col < cols && row * cols + col <= |st.bytes|
    ensures AttrAt(SetAttr(st, cols, tag, row, col), cols, row, col) == tag
  {
  }

  /** The dump column and the cells past the append position are read-only. */
  lemma ReadOnlyCells(st: TableState, cols: nat, row: nat, col: nat)
    requires col == cols || row * cols + col > |st.bytes|
    ensures AttrAt(st, cols, row, col) == Some(DumpReadOnly)
  {
  }

  // ---------------------------------------------------------------- cells

  /** The grid has just enough rows for every address up to and including
      the append position. */
  lemma RowsCoverAppendPosition(length: nat, cols: nat)
    requires 0 < cols
    ensures forall a: nat :: a <= length ==> a / cols < NumberRows(length, cols)
    ensures (NumberRows(length, cols) - 1) * cols <= length
  {
    var r := NumberRows(length, cols);
    assert r * cols <= length + cols < (r + 1) * cols;
    forall a: nat | a <= length ensures a / cols < r {
      CellMapDivBelow(a, cols, r);
    }
  }

  lemma CellMapDivBelow(a: nat, cols: nat, r: nat)
    requires 0 < cols && a < r * cols
    ensures a / cols < r
  {
    NumberText.DivBelow(a, cols, r);
  }

  /** A data cell shows two hex digits that read back as its byte, and is
      blank exactly when it is empty. */
  lemma CellTextShowsByte(bytes: seq<byte>, cols: nat, row: nat, col: nat)
    requires col < cols
    ensures CellText(bytes, cols, row, col) == "" <==> IsEmptyCell(|bytes|, cols, row, col)
    ensures !IsEmptyCell(|bytes|, cols, row, col) ==>
      var b := bytes[row * cols + col];
      |CellText(bytes, cols, row, col)| == 2 &&
      NumberText.ParseInt(CellText(bytes, cols, row, col), 16) == Some(b as int)
  {
    var addr := row * cols + col;
    if addr < |bytes| {
      var b := bytes[addr] as nat;
      assert ValueAt(bytes, addr, 1) == [bytes[addr]];
      NumberText.ParseShownNumber(b, 16, 2);
      assert NumberText.Pow(16, 2) == 256;
      NumberText.DigitsBound(b, 16, 2);
    }
  }

  /** Committing the text a cell already shows records nothing. */
  lemma SetShownValueIsNoop(st: TableState, cols: nat, row: nat, col: nat)
    requires col < cols && row * cols + col < |st.bytes|
    ensures SetValue(st, cols, row, col, CellText(st.bytes, cols, row, col)) == st
  {
    var addr := row * cols + col;
    var b := st.bytes[addr];
    var text := CellText(st.bytes, cols, row, col);
    assert text == NumberText.ZFill(NumberText.ToText(b as nat, 16), 2) by {
      assert ValueAt(st.bytes, addr, 1) == [b];
    }
    assert NumberText.ParseInt(text, 16) == Some(b as int) by {
      NumberText.ParseShownNumber(b as nat, 16, 2);
    }
    assert SetValue(st, cols, row, col, text) == StoreByte(st, cols, row, col, b) by {
      SetValueParses(st, cols, row, col, addr, text, b as int);
    }
    StoreByteInside(st, cols, row, col, b);
  }

  /** Copying a range as hex text and inserting that text inserts the same
      bytes. */
  lemma InsertCopiedText(st: TableState, source: seq<byte>, from: nat, n: Option<nat>, start: nat)
    ensures InsertText(st, start, GetText(source, from, n)) ==
      Ok(InsertRange(st, start, GetBinary(source, from, n)))
  {
    Base16.DecodeEncode(GetBinary(source, from, n));
  }

  // ---------------------------------------------------------------- examples

  /** Inserting hex "DEAD" at 2 into 00 00 00 00 gives 00 00 DE AD 00 00. */
  lemma InsertTextExample(cols: nat)
    ensures var st := TableState([0, 0, 0, 0], map[], NoRange, [], []);
      InsertText(st, 2, "DEAD").Ok? &&
      InsertText(st, 2, "DEAD").value.bytes == [0, 0, 0xDE, 0xAD, 0, 0]
  {
    var t := "DEAD";
    assert t[0] == 'D' && t[1] == 'E' && t[2] == 'A' && t[3] == 'D';
    var ad := t[2..];
    assert ad[0] == 'A' && ad[1] == 'D' && ad[2..] == [];
    assert Base16.HexDigit('A') == Some(10) && Base16.HexDigit('D') == Some(13);
    assert Base16.HexDigit('E') == Some(14);
    assert Base16.DecodePairs(ad[2..]) == Ok([]);
    assert Base16.DecodePairs(ad) == Ok([(10 * 16 + 13) as byte] + []);
    assert [(10 * 16 + 13) as byte] + [] == [0xAD];
    assert Base16.DecodePairs(ad) == Ok([0xAD]);
    assert Base16.DecodePairs(t) == Ok([(13 * 16 + 14) as byte] + [0xAD]);
    assert [(13 * 16 + 14) as byte] + [0xAD] == [0xDE, 0xAD];
    assert |t| % 2 == 0;
    assert Base16.Decode(t) == Ok([0xDE, 0xAD]);
    var st: TableState := TableState([0, 0, 0, 0], map[], NoRange, [], []);
    assert st.bytes[..2] + [0xDE, 0xAD] + st.bytes[2..] == [0, 0, 0xDE, 0xAD, 0, 0];
  }

  /** Deleting 2 bytes at 1 from 10 20 30 40 gives 10 40; Undo restores it. */
  lemma DeleteExample(cols: nat)
    requires 0 < cols
    ensures var st := TableState([0x10, 0x20, 0x30, 0x40], map[], NoRange, [], []);
      var st1 := DeleteRange(st, 1, 2);
      st1.bytes == [0x10, 0x40] && Undo(st1, cols).0.bytes == st.bytes
  {
    var st := TableState([0x10, 0x20, 0x30, 0x40], map[], NoRange, [], []);
    DeleteThenUndo(st, cols, 1, 2);
  }

  // ---------------------------------------------------------------- findings

  /** The clipped branch of `_delete_range` as written: the count becomes
      `length - n` instead of `length - start`, the buffer is not shifted,
      the length drops by that count, and the returned buffer has the
      requested size with only `length - n` bytes filled. Defined where that
      count is not negative and the copy stays inside the buffer. */
  function DeleteClippedAsWritten(bytes: seq<byte>, start: nat, n: nat): (seq<byte>, seq<byte>)
    requires start < |bytes| < start + n && start <= n <= |bytes|
  {
    var count := |bytes| - n;
    (bytes[..|bytes| - count], bytes[start..start + count] + seq(n - count, i => 0 as byte))
  }

  /** 01 02 03 04, delete 3 at 2: as written the buffer becomes 01 02 03 and
      undo data 03 00 00, so Undo gives 01 02 03 00 00 03; the intended
      result is 01 02 with undo data 03 04, and Undo restores the buffer. */
  lemma DeleteClippedCounterexample(cols: nat)
    requires 0 < cols
    ensures var b: seq<byte> := [1, 2, 3, 4];
      var st := TableState(b, map[], NoRange, [], []);
      var (kept, undoData) := DeleteClippedAsWritten(b, 2, 3);
      kept == [1, 2, 3] && undoData == [3, 0, 0] &&
      InsertRangeRaw(st.(bytes := kept), 2, undoData).0.bytes == [1, 2, 3, 0, 0, 3] &&
      DeleteRangeRaw(st, 2, 3).0.bytes == [1, 2] && DeleteRangeRaw(st, 2, 3).1 == [3, 4] &&
      Undo(DeleteRange(st, 2, 3), cols).0.bytes == b
  {
    var b: seq<byte> := [1, 2, 3, 4];
    var st := TableState(b, map[], NoRange, [], []);
    assert seq(2, i => 0 as byte) == [0, 0];
    DeleteThenUndo(st, cols, 2, 3);
  }

  /** `GetBinary` as written: a range running past the end is cut to
      `length - n` bytes instead of `length - start`. */
  function GetBinaryClippedAsWritten(bytes: seq<byte>, start: nat, n: nat): seq<byte>
    requires start <= n <= |bytes| < start + n
  {
    bytes[start..start + (|bytes| - n)]
  }

  /** 01 02 03 04, 3 bytes from 2: as written one byte (03); intended 03 04. */
  lemma GetBinaryCounterexample()
    ensures GetBinaryClippedAsWritten([1, 2, 3, 4], 2, 3) == [3]
    ensures GetBinary([1, 2, 3, 4], 2, Some(3)) == [3, 4]
  {
  }
}
