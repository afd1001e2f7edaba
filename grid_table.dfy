/** `HexGridTable` as a class: the buffer is a byte array of which the first
    `length` bytes are the document, the logs are sequences the methods
    push to and pop from, and the overlay is a map updated in place. Every
    method is proved to move the table's `State()` exactly as the function
    of the same name in module TableSpec says. */
module GridTable {
  import opened Outcomes
  import opened Bytes
  import opened TableSpec
  import NumberText
  import Base16
  import ByteSearch
  import TableLaws

  /** `ctypes.memmove(dst + at, src, len(src))` from bytes held elsewhere. */
  method CopyInto(dst: array<byte>, at: nat, src: seq<byte>)
    requires at + |src| <= dst.Length
    modifies dst
    ensures dst[..at] == old(dst[..at])
    ensures dst[at..at + |src|] == src
    ensures dst[at + |src|..] == old(dst[at + |src|..])
  {
    var i := 0;
    while i < |src|
      invariant 0 <= i <= |src|
      invariant forall k :: 0 <= k < at ==> dst[k] == old(dst[k])
      invariant forall k :: 0 <= k < i ==> dst[at + k] == src[k]
      invariant forall k :: at + |src| <= k < dst.Length ==> dst[k] == old(dst[k])
    {
      dst[at + i] := src[i];
      i := i + 1;
    }
  }

  /** `ctypes.memmove(a + start, a + start + n, count)`: a block moved down
      by `n` inside one array; the source and the target may overlap. */
  method ShiftDown(a: array<byte>, start: nat, n: nat, count: nat)
    requires start + n + count <= a.Length
    modifies a
    ensures a[..start] == old(a[..start])
    ensures a[start..start + count] == old(a[start + n..start + n + count])
    ensures a[start + count..] == old(a[start + count..])
  {
    ghost var o := a[..];
    var i := 0;
    while i < count
      invariant 0 <= i <= count
      invariant forall k :: 0 <= k < start ==> a[k] == o[k]
      invariant forall k :: start <= k < start + i ==> a[k] == o[k + n]
      invariant forall k :: start + i <= k < a.Length ==> a[k] == o[k]
    {
      a[start + i] := a[start + n + i];
      i := i + 1;
    }
    assert a[start..start + count] == o[start + n..start + n + count];
  }

  /** A new buffer holding `b` with `value` put in at `s`: the three
      `memmove`s of `_insert_range`. */
  method Spliced(b: seq<byte>, s: nat, value: seq<byte>) returns (a: array<byte>)
    requires s <= |b|
    ensures fresh(a) && a[..] == b[..s] + value + b[s..]
  {
    a := new byte[|b| + |value|];
    CopyInto(a, 0, b[..s]);
    CopyInto(a, s, value);
    ghost var front := a[..s + |value|];
    Joined(front, b[..s], value);
    CopyInto(a, s + |value|, b[s..]);
    Joined(a[..], front, b[s..]);
  }

  /** An array's contents are its two parts laid end to end. */
  lemma Joined(x: seq<byte>, p: seq<byte>, q: seq<byte>)
    requires |x| == |p| + |q| && x[..|p|] == p && x[|p|..] == q
    ensures x == p + q
  {
  }

  class HexGridTable {
    var buffer: array<byte>
    var length: nat
    const hexCols: nat
    /** `_string`: the bytes as one value, or `None` once a change reset it. */
    var cache: Option<seq<byte>>
    /** `_changed_attr` */
    var changedAttr: map<nat, Option<Tag>>
    /** `_changed_range` */
    var changedRange: (int, int)
    /** `_undo_list` and `_redo_list`; the top is the last element. */
    var undoList: seq<Action>
    var redoList: seq<Action>

    /** The document fits the buffer, and a cached string is the document. */
    ghost predicate Valid()
      reads this, buffer
    {
      0 < hexCols && length <= buffer.Length &&
      (cache.Some? ==> cache.value == buffer[..length])
    }

    /** The table as a value. */
    function State(): TableState
      reads this, buffer
      requires length <= buffer.Length
    {
      TableState(buffer[..length], changedAttr, changedRange, undoList, redoList)
    }

    /** `HexGridTable(binary, length, hex_cols)`: the first `length` bytes of
        `binary` (all of it when no length is given; a negative length is 0). */
    constructor (binary: seq<byte>, len: Option<int>, cols: nat)
      requires 0 < cols
      requires len.Some? ==> len.value <= |binary|
      ensures Valid() && fresh(buffer) && hexCols == cols && cache == None
      ensures State() == Initial(binary, len)
    {
      var n := match len case None => |binary| case Some(l) => if l < 0 then 0 else l;
      var buf := new byte[n];
      CopyInto(buf, 0, binary[..n]);
      buffer := buf;
      length := n;
      hexCols := cols;
      cache := None;
      changedAttr := map[];
      changedRange := NoRange;
      undoList := [];
      redoList := [];
    }

    /** The `String` property: the document, kept until the next change. */
    method String() returns (s: seq<byte>)
      requires Valid()
      modifies this
      ensures Valid() && buffer == old(buffer) && State() == old(State())
      ensures s == State().bytes && cache == Some(s)
    {
      if cache.None? {
        cache := Some(buffer[..length]);
      }
      s := cache.value;
    }

    /** `_get_value_by_addr(addr, n)` */
    method GetValueByAddr(addr: nat, n: nat) returns (v: seq<byte>)
      requires Valid()
      ensures v == ValueAt(State().bytes, addr, n)
    {
      var end := if addr + n > length then length else addr + n;
      v := if addr >= end then [] else buffer[addr..end];
    }

    /** `_set_value_by_addr(addr, value)` */
    method SetValueByAddr(addr: nat, value: seq<byte>) returns (ok: bool)
      requires Valid()
      modifies this, buffer
      ensures Valid()
      ensures (State(), ok) == TableSpec.SetValueByAddr(old(State()), addr, value)
    {
      if addr > length {
        return false;
      }
      if addr == length {
        InsertRange(length, value);
      } else if |value| == 1 {
        buffer[addr] := value[0];
      } else {
        return false;
      }
      cache := None;
      ok := true;
    }

    /** `_insert_range(start, value)`: a new buffer is filled with the bytes
        before the clamped start, the value, and the rest. */
    method InsertRangeRaw(start: nat, value: seq<byte>) returns (s: nat)
      requires Valid()
      modifies this
      ensures Valid() && fresh(buffer) && cache == None
      ensures (State(), s) == TableSpec.InsertRangeRaw(old(State()), start, value)
    {
      var b := buffer[..length];
      s := if start >= length then length else start;
      var newBuf := Spliced(b, s, value);
      changedRange := (s, s + |value|);
      buffer := newBuf;
      length := length + |value|;
      changedAttr := map[];
      cache := None;
      assert buffer[..length] == b[..s] + value + b[s..];
    }

    /** `_delete_range(start, n)`, with the clipped branch corrected (see
        TableSpec.DeleteRangeRaw); the tail is shifted down in place. */
    method DeleteRangeRaw(start: nat, n: nat) returns (removed: seq<byte>)
      requires Valid()
      modifies this, buffer
      ensures Valid() && buffer == old(buffer)
      ensures (State(), removed) == TableSpec.DeleteRangeRaw(old(State()), start, n)
    {
      if start >= length {
        return [];
      }
      var b := buffer[..length];
      changedRange := NoRange;
      if start + n > length {
        removed := b[start..];
        length := start;
        assert buffer[..length] == b[..start];
      } else {
        removed := b[start..start + n];
        ShiftDown(buffer, start, n, length - n - start);
        assert buffer[start..length - n] == b[start + n..];
        Joined(buffer[..length - n], b[..start], b[start + n..]);
        length := length - n;
        changedAttr := map[];
      }
      cache := None;
    }

    /** `InsertRange(start, value)` */
    method InsertRange(start: nat, value: seq<byte>)
      requires Valid()
      modifies this
      ensures Valid() && fresh(buffer)
      ensures State() == TableSpec.InsertRange(old(State()), start, value)
    {
      var s := InsertRangeRaw(start, value);
      undoList := undoList + [InsertCells(s, value)];
    }

    /** `DeleteRange(start, n)` */
    method DeleteRange(start: nat, n: nat)
      requires Valid()
      modifies this, buffer
      ensures Valid() && buffer == old(buffer)
      ensures State() == TableSpec.DeleteRange(old(State()), start, n)
    {
      var removed := DeleteRangeRaw(start, n);
      undoList := undoList + [RemoveCells(start, n, removed)];
    }

    /** `GetAttr(row, col)` */
    function GetAttr(row: nat, col: nat): (r: Option<Tag>)
      reads this, buffer
      requires Valid()
      ensures col == hexCols || row * hexCols + col > length ==> r == Some(DumpReadOnly)
      ensures col != hexCols && row * hexCols + col <= length && row * hexCols + col in changedAttr ==>
        r == changedAttr[row * hexCols + col]
    {
      AttrAt(State(), hexCols, row, col)
    }

    /** `SetAttr(attr, row, col)` */
    method SetAttr(tag: Option<Tag>, row: nat, col: nat)
      requires Valid()
      modifies this
      ensures Valid() && buffer == old(buffer) && cache == old(cache)
      ensures State() == TableSpec.SetAttr(old(State()), hexCols, tag, row, col)
    {
      changedAttr := changedAttr[row * hexCols + col := tag];
    }

    /** `Reset_Attr()` */
    method ResetAttr()
      requires Valid()
      modifies this
      ensures Valid() && buffer == old(buffer) && cache == old(cache)
      ensures State() == old(State()).(attrs := map[])
    {
      changedAttr := map[];
    }

    /** `Do(action, data)` */
    method Do(a: Action) returns (r: DoResult)
      requires Valid()
      modifies this, buffer
      ensures Valid()
      ensures (State(), r) == DoAction(old(State()), hexCols, a)
    {
      match a
      case EditCell(addr, value, attr) =>
        var row, col := addr / hexCols, addr % hexCols;
        var saved := GetValueByAddr(addr, 1);
        var savedAttr := GetAttr(row, col);
        var ok := SetValueByAddr(addr, value);
        if ok {
          SetAttr(attr, row, col);
          r := Inverse(EditCell(addr, saved, savedAttr));
        } else {
          r := if addr > length then Failed else Raised;
        }
      case RemoveCells(start, _, data) =>
        var s := InsertRangeRaw(start, data);
        r := Inverse(InsertCells(s, data));
      case InsertCells(start, data) =>
        var removed := DeleteRangeRaw(start, |data|);
        r := Inverse(RemoveCells(start, |removed|, removed));
    }

    /** `Undo()`: pop, do, and push the inverse onto the redo log (or the
        action back onto the undo log when `Do` fails; when `Do` raises,
        the popped action is lost). */
    method Undo() returns (structural: Option<bool>)
      requires Valid()
      modifies this, buffer
      ensures Valid()
      ensures (State(), structural) == TableSpec.Undo(old(State()), hexCols)
    {
      if undoList == [] {
        return None;
      }
      var item := undoList[|undoList| - 1];
      undoList := undoList[..|undoList| - 1];
      var r := Do(item);
      if r.Raised? {
        structural := None;
      } else if r.Failed? {
        undoList := undoList + [item];
        structural := Some(!item.EditCell?);
      } else {
        redoList := redoList + [r.action];
        structural := Some(!r.action.EditCell?);
      }
    }

    /** `Redo()` */
    method Redo() returns (structural: Option<bool>)
      requires Valid()
      modifies this, buffer
      ensures Valid()
      ensures (State(), structural) == TableSpec.Redo(old(State()), hexCols)
    {
      if redoList == [] {
        return None;
      }
      var item := redoList[|redoList| - 1];
      redoList := redoList[..|redoList| - 1];
      var r := Do(item);
      if r.Raised? {
        structural := None;
      } else if r.Failed? {
        redoList := redoList + [item];
        structural := Some(!item.EditCell?);
      } else {
        undoList := undoList + [r.action];
        structural := Some(!r.action.EditCell?);
      }
    }

    /** `SetValue(row, col, value)`: the cell editor commits hex text. */
    method SetValue(row: nat, col: nat, text: string)
      requires Valid()
      modifies this, buffer
      ensures Valid()
      ensures State() == TableSpec.SetValue(old(State()), hexCols, row, col, text)
    {
      if col == hexCols {
        return;
      }
      var parsed := NumberText.ParseInt(text, 16);
      if parsed.None? || parsed.value < 0 || parsed.value > 255 {
        return;
      }
      StoreByte(row, col, parsed.value as byte);
    }

    /** The rest of `SetValue` once the text is a byte. */
    method StoreByte(row: nat, col: nat, v: byte)
      requires Valid()
      modifies this, buffer
      ensures Valid()
      ensures State() == TableSpec.StoreByte(old(State()), hexCols, row, col, v)
    {
      var addr := row * hexCols + col;
      var attr := GetAttr(row, col);
      var saved := GetValueByAddr(addr, 1);
      var inRange := addr < length;
      if saved != [v] {
        var ok := SetValueByAddr(addr, [v]);
        if ok {
          SetAttr(Some(ChangedCell), row, col);
          if inRange {
            undoList := undoList + [EditCell(addr, saved, attr)];
          }
        }
      }
    }

    /** `GetValue(row, col)` */
    method GetValue(row: nat, col: nat) returns (text: string)
      requires Valid()
      ensures text == CellText(State().bytes, hexCols, row, col)
    {
      if col == hexCols {
        var rowValues := GetValueByAddr(row * hexCols, 16);
        text := "  " + DumpText(rowValues);
      } else {
        var v := GetValueByAddr(row * hexCols + col, 1);
        text := if v == [] then "" else NumberText.HexByteText(v[0] as nat);
      }
    }

    /** `GetNumberRows()` */
    function GetNumberRows(): (r: nat)
      reads this
      requires 0 < hexCols
      ensures length / hexCols < r && (r - 1) * hexCols <= length
    {
      TableLaws.RowsCoverAppendPosition(length, hexCols);
      NumberRows(length, hexCols)
    }

    /** `IsEmptyCell(row, col)` */
    predicate IsEmpty(row: nat, col: nat)
      reads this, buffer
      requires Valid()
      ensures IsEmpty(row, col) <==> ValueAt(State().bytes, row * hexCols + col, 1) == []
    {
      IsEmptyCell(length, hexCols, row, col)
    }

    /** `GetBinary(start, length)`, corrected as TableSpec.GetBinary is. */
    method GetBinary(start: nat, n: Option<nat>) returns (r: seq<byte>)
      requires Valid()
      ensures r == TableSpec.GetBinary(State().bytes, start, n)
    {
      if start >= length {
        return [];
      }
      var end := match n case None => length case Some(k) => Min(start + k, length);
      r := buffer[start..end];
    }

    /** `GetText(start, length)` */
    method GetText(start: nat, n: Option<nat>) returns (r: string)
      requires Valid()
      ensures r == TableSpec.GetText(State().bytes, start, n)
    {
      var bs := GetBinary(start, n);
      r := Base16.Encode(bs);
    }

    /** `InsertText(start, text)`: text that is not hex (odd length, a
        non-hex digit) raises in the source and changes nothing. */
    method InsertText(start: nat, text: string) returns (err: Option<Base16.HexError>)
      requires Valid()
      modifies this
      ensures Valid()
      ensures match TableSpec.InsertText(old(State()), start, text)
              case Ok(st) => err.None? && State() == st
              case Err(e) => err == Some(e) && State() == old(State())
    {
      var decoded := Base16.Decode(text);
      if decoded.Err? {
        return Some(decoded.error);
      }
      InsertRange(start, decoded.value);
      err := None;
    }

    /** `FindIter(text, find_type)`: compile the query, then iterate over a
        snapshot of the document taken through `String`. A refused query
        changes nothing, the cache included. */
    method FindIter(text: string, kind: ByteSearch.SearchKind)
      returns (r: Result<ByteSearch.MatchIter, ByteSearch.SearchError>)
      requires Valid()
      modifies this
      ensures Valid() && buffer == old(buffer) && State() == old(State())
      ensures match ByteSearch.CompileQuery(text, kind)
              case Ok(p) => r == Ok(ByteSearch.MatchIter(State().bytes, p, 0))
              case Err(e) => r == Err(e) && cache == old(cache)
    {
      var q := ByteSearch.CompileQuery(text, kind);
      if q.Err? {
        return Err(q.error);
      }
      var s := String();
      r := Ok(ByteSearch.MatchIter(s, q.value, 0));
    }
  }
}
