/** The logic of `HexEditor` without its widgets: address and cell
    arithmetic, the blocks a linear selection is drawn with, the value
    fields, pasted text, the find session, and what the editor redraws after
    Undo and Redo. The grid is `cols` hex cells per row followed by one dump
    column; `length` is the document length. */
module EditorHelpers {
  import opened Outcomes
  import opened Bytes
  import PyText
  import NumberText
  import Base16
  import CellMap
  import ByteSearch
  import TableSpec
  import GridTable
  import TableLaws
  import Validator

  // ---------------------------------------------------------------- addresses

  /** `_check_addr_in_range(addr)`: negative addresses become 0, addresses at
      or past the end become the last one; an empty document gives -1. */
  function CheckAddrInRange(addr: int, length: nat): (r: int)
    ensures 0 <= addr < length ==> r == addr
    ensures addr < 0 && 0 < length ==> r == 0
    ensures length <= addr ==> r == length - 1
    ensures 0 < length ==> 0 <= r < length
    ensures length == 0 ==> r == -1
  {
    var a := if addr > 0 then addr else 0;
    if a < length then a else length - 1
  }

  /** Clamping twice is clamping once. */
  lemma CheckAddrIdempotent(addr: int, length: nat)
    ensures CheckAddrInRange(CheckAddrInRange(addr, length), length) == CheckAddrInRange(addr, length)
  {
  }

  /** `RowColToAddr(row, col, check_max)`: a column at or past `cols` (the
      dump column) stands for the last hex column; with `checkMax` the
      address is then clamped into the document. */
  function RowColToAddr(row: int, col: int, cols: nat, length: nat, checkMax: bool): (a: int)
    requires 0 < cols
    ensures checkMax && length == 0 ==> a == -1
    ensures checkMax && 0 < length ==> 0 <= a < length
    ensures !checkMax && 0 <= col ==> a % cols == (if col >= cols then cols - 1 else col)
  {
    var c := if col >= cols then cols - 1 else col;
    var addr := CellMap.RowColToAddr(row, c, cols);
    if checkMax then CheckAddrInRange(addr, length) else addr
  }

  /** `AddrToRowCol` undoes `RowColToAddr` for a hex cell, and sends a click
      in the dump column to the last hex cell of that row. With the range
      check, a cell inside the document keeps its own address. */
  lemma RowColToAddrInverse(row: int, col: nat, cols: nat, length: nat)
    requires 0 < cols
    ensures CellMap.AddrToRowCol(RowColToAddr(row, col, cols, length, false), cols) ==
            (row, if col >= cols then cols - 1 else col)
    ensures 0 <= row * cols + col < length && col < cols ==>
            RowColToAddr(row, col, cols, length, true) == row * cols + col
  {
    var c := if col >= cols then cols - 1 else col;
    CellMap.RowColRoundTrip(row, c, cols);
  }

  // ---------------------------------------------------------------- selection

  /** A rectangle of cells, as `SelectBlock(top, left, bottom, right)` takes it. */
  datatype Block = Block(top: int, left: int, bottom: int, right: int)

  predicate InBlock(b: Block, row: int, col: int)
  {
    b.top <= row <= b.bottom && b.left <= col <= b.right
  }

  /** A hex cell covered by one of the blocks. */
  predicate Selected(blocks: seq<Block>, row: int, col: int)
  {
    exists i :: 0 <= i < |blocks| && InBlock(blocks[i], row, col)
  }

  /** A non-empty block of hex cells. */
  predicate WellFormed(b: Block, cols: nat)
  {
    b.top <= b.bottom && 0 <= b.left <= b.right < cols
  }

  /** Where an address lies between two others is decided row first, then
      column. */
  lemma InRangeByCells(addr: int, n: int, cols: nat, r: int, c: int)
    requires 0 < cols && 0 < n && 0 <= c < cols
    ensures var e := addr + n - 1;
      (addr <= r * cols + c < addr + n) <==>
      ((addr / cols < r || (addr / cols == r && addr % cols <= c)) &&
       (r < e / cols || (r == e / cols && c <= e % cols)))
  {
    var a := r * cols + c;
    CellMap.DivUnique(a, r, c, cols);
    CellMap.AddrOrder(addr, a, cols);
    CellMap.AddrOrder(a, addr + n - 1, cols);
  }

  /** `SetSelection(addr, length)`: the cursor goes to the first cell; a
      non-empty range is drawn with at most three blocks (the head of the
      first row, the full rows between, the tail of the last row) that cover
      exactly the cells of `[addr, addr + length)`. */
  method SetSelection(addr: int, length: int, cols: nat) returns (cursor: (int, int), blocks: seq<Block>)
    requires 0 < cols
    ensures cursor == CellMap.AddrToRowCol(addr, cols)
    ensures length <= 0 ==> blocks == []
    ensures |blocks| <= 3
    ensures Covers(blocks, addr, length, cols)
  {
    var (row, col) := CellMap.AddrToRowCol(addr, cols);
    var (endRow, endCol) := CellMap.AddrToRowCol(addr + length - 1, cols);
    cursor := (row, col);
    blocks := [];
    if length > 0 {
      CellMap.AddrOrder(addr, addr + length - 1, cols);
      if row == endRow {
        blocks := blocks + [Block(row, col, endRow, endCol)];
      } else if endRow > row {
        blocks := blocks + [Block(row, col, row, cols - 1)];
        if endRow - row > 1 {
          blocks := blocks + [Block(row + 1, 0, endRow - 1, cols - 1)];
        }
        blocks := blocks + [Block(endRow, 0, endRow, endCol)];
      }
    }
    forall r: int, c: int | 0 <= c < cols
      ensures Selected(blocks, r, c) <==> addr <= r * cols + c < addr + length
    {
      if length > 0 {
        InRangeByCells(addr, length, cols, r, c);
        if addr <= r * cols + c < addr + length {
          if r == row {
            assert InBlock(blocks[0], r, c);
          } else if r == endRow {
            assert InBlock(blocks[|blocks| - 1], r, c);
          } else {
            assert InBlock(blocks[1], r, c);
          }
        }
      }
    }
  }

  /** `Selection`: the addresses of the given cells (the blocks' top-left
      corners, their bottom-right corners, then the single cells) give the
      start and the length of the selection, from the lowest address to the
      highest; no cell means no selection. */
  function Selection(cells: seq<(int, int)>, cols: nat, length: nat): (r: Option<(int, int)>)
    requires 0 < cols
    ensures r.None? <==> cells == []
    ensures r.Some? ==> 1 <= r.value.1
    ensures r.Some? ==> var addrs := CellAddrs(cells, cols, length);
      (forall i :: 0 <= i < |addrs| ==> r.value.0 <= addrs[i] < r.value.0 + r.value.1) &&
      r.value.0 in addrs && r.value.0 + r.value.1 - 1 in addrs
  {
    var addrs := CellAddrs(cells, cols, length);
    if addrs == [] then None
    else
      var lo := SeqMin(addrs);
      var hi := SeqMax(addrs);
      Some((lo, hi - lo + 1))
  }

  /** Each cell through `RowColToAddr` with the range check. */
  function CellAddrs(cells: seq<(int, int)>, cols: nat, length: nat): (addrs: seq<int>)
    requires 0 < cols
    ensures |addrs| == |cells|
    ensures forall i :: 0 <= i < |cells| ==> addrs[i] == RowColToAddr(cells[i].0, cells[i].1, cols, length, true)
  {
    seq(|cells|, i requires 0 <= i < |cells| => RowColToAddr(cells[i].0, cells[i].1, cols, length, true))
  }

  function SeqMin(s: seq<int>): (m: int)
    requires s != []
    ensures m in s && forall i :: 0 <= i < |s| ==> m <= s[i]
  {
    if |s| == 1 then s[0]
    else
      var m := SeqMin(s[1..]);
      if s[0] <= m then s[0] else m
  }

  function SeqMax(s: seq<int>): (m: int)
    requires s != []
    ensures m in s && forall i :: 0 <= i < |s| ==> s[i] <= m
  {
    if |s| == 1 then s[0]
    else
      var m := SeqMax(s[1..]);
      if s[0] >= m then s[0] else m
  }

  /** The corner cells of blocks, top-left corners first. */
  function Corners(blocks: seq<Block>): (cells: seq<(int, int)>)
    ensures |cells| == 2 * |blocks|
    ensures forall i :: 0 <= i < |blocks| ==>
      cells[i] == (blocks[i].top, blocks[i].left) &&
      cells[|blocks| + i] == (blocks[i].bottom, blocks[i].right)
  {
    seq(|blocks|, i requires 0 <= i < |blocks| => (blocks[i].top, blocks[i].left)) +
    seq(|blocks|, i requires 0 <= i < |blocks| => (blocks[i].bottom, blocks[i].right))
  }

  /** Blocks that cover exactly the cells of `[addr, addr + n)`. */
  ghost predicate Covers(blocks: seq<Block>, addr: int, n: int, cols: nat)
  {
    (forall i :: 0 <= i < |blocks| ==> WellFormed(blocks[i], cols)) &&
    forall r: int, c: int :: 0 <= c < cols ==>
      (Selected(blocks, r, c) <==> addr <= r * cols + c < addr + n)
  }

  /** Reading back a selection: blocks that cover exactly `[addr, addr + n)`
      inside the document, as `SetSelection` draws them, give `Selection`
      `(addr, n)` again. */
  lemma SelectionOfBlocks(blocks: seq<Block>, addr: int, n: int, cols: nat, length: nat)
    requires 0 < cols && 0 <= addr && 0 < n && addr + n <= length
    requires Covers(blocks, addr, n, cols)
    ensures Selection(Corners(blocks), cols, length) == Some((addr, n))
  {
    CornersInRange(blocks, addr, n, cols, length);
    var i0 := FirstCorner(blocks, addr, n, cols, length);
    var i1 := LastCorner(blocks, addr, n, cols, length);
    SelectionOfSpan(Corners(blocks), cols, length, addr, n, i0, i1);
  }

  /** Cells whose addresses lie in `[addr, addr + n)` and include both ends
      are read back as the selection `(addr, n)`. */
  lemma SelectionOfSpan(cells: seq<(int, int)>, cols: nat, length: nat, addr: int, n: int, i0: nat, i1: nat)
    requires 0 < cols
    requires i0 < |cells| && i1 < |cells|
    requires CellAddrs(cells, cols, length)[i0] == addr
    requires CellAddrs(cells, cols, length)[i1] == addr + n - 1
    requires forall i :: 0 <= i < |cells| ==> addr <= CellAddrs(cells, cols, length)[i] < addr + n
    ensures Selection(cells, cols, length) == Some((addr, n))
  {
    var addrs := CellAddrs(cells, cols, length);
    SpanOf(addrs, addr, n, i0, i1);
  }

  /** The lowest and highest of addresses that lie in `[addr, addr + n)`
      and include both ends. */
  lemma SpanOf(addrs: seq<int>, addr: int, n: int, i0: nat, i1: nat)
    requires i0 < |addrs| && i1 < |addrs| && addrs[i0] == addr && addrs[i1] == addr + n - 1
    requires forall i :: 0 <= i < |addrs| ==> addr <= addrs[i] < addr + n
    ensures SeqMin(addrs) == addr && SeqMax(addrs) == addr + n - 1
  {
  }

  /** Every corner of blocks covering `[addr, addr + n)` has its address there. */
  lemma CornersInRange(blocks: seq<Block>, addr: int, n: int, cols: nat, length: nat)
    requires 0 < cols && 0 <= addr && 0 < n && addr + n <= length
    requires Covers(blocks, addr, n, cols)
    ensures forall i :: 0 <= i < 2 * |blocks| ==> addr <= CellAddrs(Corners(blocks), cols, length)[i] < addr + n
  {
    var addrs := CellAddrs(Corners(blocks), cols, length);
    forall i | 0 <= i < 2 * |blocks|
      ensures addr <= addrs[i] < addr + n
    {
      CornerInRange(blocks, addr, n, cols, length, i);
    }
  }

  /** Every corner is a selected hex cell, so it keeps its own address. */
  lemma CornerInRange(blocks: seq<Block>, addr: int, n: int, cols: nat, length: nat, i: nat)
    requires 0 < cols && 0 <= addr && 0 < n && addr + n <= length
    requires Covers(blocks, addr, n, cols) && i < 2 * |blocks|
    ensures var cell := Corners(blocks)[i];
      RowColToAddr(cell.0, cell.1, cols, length, true) == cell.0 * cols + cell.1 &&
      addr <= cell.0 * cols + cell.1 < addr + n
  {
    var cell := Corners(blocks)[i];
    var k := if i < |blocks| then i else i - |blocks|;
    assert InBlock(blocks[k], cell.0, cell.1);
    assert Selected(blocks, cell.0, cell.1);
    RowColToAddrInverse(cell.0, cell.1, cols, length);
  }

  /** The first address is the top-left corner of the block holding it. */
  lemma FirstCorner(blocks: seq<Block>, addr: int, n: int, cols: nat, length: nat) returns (i0: nat)
    requires 0 < cols && 0 <= addr && 0 < n && addr + n <= length
    requires Covers(blocks, addr, n, cols)
    ensures i0 < |blocks| && CellAddrs(Corners(blocks), cols, length)[i0] == addr
  {
    var (r0, c0) := CellMap.AddrToRowCol(addr, cols);
    assert Selected(blocks, r0, c0);
    i0 :| 0 <= i0 < |blocks| && InBlock(blocks[i0], r0, c0);
    CornerBelow(blocks[i0], r0, c0, cols);
    CornerInRange(blocks, addr, n, cols, length, i0);
  }

  /** The last address is the bottom-right corner of the block holding it. */
  lemma LastCorner(blocks: seq<Block>, addr: int, n: int, cols: nat, length: nat) returns (i1: nat)
    requires 0 < cols && 0 <= addr && 0 < n && addr + n <= length
    requires Covers(blocks, addr, n, cols)
    ensures i1 < 2 * |blocks| && CellAddrs(Corners(blocks), cols, length)[i1] == addr + n - 1
  {
    var (r1, c1) := CellMap.AddrToRowCol(addr + n - 1, cols);
    assert Selected(blocks, r1, c1);
    var k :| 0 <= k < |blocks| && InBlock(blocks[k], r1, c1);
    CornerAbove(blocks[k], r1, c1, cols);
    i1 := |blocks| + k;
    CornerInRange(blocks, addr, n, cols, length, i1);
  }

  /** The top-left corner of a block comes no later than any of its cells. */
  lemma CornerBelow(b: Block, r: int, c: int, cols: nat)
    requires 0 < cols && WellFormed(b, cols) && InBlock(b, r, c)
    ensures b.top * cols + b.left <= r * cols + c
  {
    CellMap.MulLe(b.top, r, cols);
  }

  /** The bottom-right corner of a block comes no earlier than any of its cells. */
  lemma CornerAbove(b: Block, r: int, c: int, cols: nat)
    requires 0 < cols && WellFormed(b, cols) && InBlock(b, r, c)
    ensures r * cols + c <= b.bottom * cols + b.right
  {
    CellMap.MulLe(r, b.bottom, cols);
  }

  // ---------------------------------------------------------------- value fields

  /** The three editable value fields. */
  datatype ValueField = HexField | DecField | BinField

  function FieldBase(f: ValueField): (base: nat)
    ensures 2 <= base <= 16
  {
    match f
    case HexField => 16
    case DecField => 10
    case BinField => 2
  }

  /** The labels `_set_value_text(value)` sets. */
  datatype ValueLabels = ValueLabels(hex: string, dec: string, bin: string, chr: string)

  function FieldText(labels: ValueLabels, f: ValueField): string
  {
    match f
    case HexField => labels.hex
    case DecField => labels.dec
    case BinField => labels.bin
  }

  /** `_set_value_text(value)`: hex in upper case padded to two digits,
      decimal, binary padded to eight digits, and the character itself only
      for printable ASCII. */
  function ValueText(v: int): (r: ValueLabels)
    ensures |r.hex| >= 2 && |r.bin| >= 8 && r.dec != []
    ensures r.hex[0] == '-' <==> v < 0
    ensures r.chr != []
  {
    ValueLabels(
      NumberText.ShowInt(v, 16, 2),
      NumberText.ShowInt(v, 10, 0),
      NumberText.ShowInt(v, 2, 8),
      if 0x20 <= v <= 0x7E then [v as char, ' '] else " ")
  }

  /** Every field shows the value so that reading it back in the field's
      base gives the value; the character label shows the byte itself. */
  lemma ValueTextReadsBack(v: int, f: ValueField)
    ensures NumberText.ParseInt(FieldText(ValueText(v), f), FieldBase(f)) == Some(v)
    ensures 0x20 <= v <= 0x7E ==> ValueText(v).chr[0] as int == v
  {
    NumberText.ParseShownInt(v, FieldBase(f), match f case HexField => 2 case DecField => 0 case BinField => 8);
  }

  /** For a byte, the hex label has exactly two digits and the binary label
      exactly eight. */
  lemma ValueTextWidths(v: byte)
    ensures |ValueText(v as int).hex| == 2 && |ValueText(v as int).bin| == 8
  {
    assert NumberText.Pow(16, 2) == 256;
    NumberText.DigitsBound(v as nat, 16, 2);
    assert NumberText.Pow(2, 8) == 256;
    NumberText.DigitsBound(v as nat, 2, 8);
  }

  const WXK_RETURN: int := 13
  const WXK_NUMPAD_ENTER: int := 370

  /** `OnValueTextChar` up to the value it commits: only Enter commits; blank
      text is ignored, text `int()` refuses commits nothing (it raises), and
      a decimal entry above 0xFF is ignored. */
  function EnteredValue(f: ValueField, key: int, text: string): (r: Option<int>)
    ensures r.Some? <==>
      (key == WXK_RETURN || key == WXK_NUMPAD_ENTER) &&
      NumberText.ParseInt(text, FieldBase(f)).Some? &&
      !(f == DecField && NumberText.ParseInt(text, FieldBase(f)).value > 0xFF)
    ensures r.Some? ==> r == NumberText.ParseInt(text, FieldBase(f))
  {
    if key != WXK_RETURN && key != WXK_NUMPAD_ENTER then None
    else if PyText.Strip(text) == [] then None
    else match NumberText.ParseInt(text, FieldBase(f))
      case None => None
      case Some(v) => if f == DecField && v > 0xFF then None else Some(v)
  }

  /** Pressing Enter on what a field shows commits the value shown (a
      decimal above 0xFF excepted). */
  lemma EnterShownValue(v: int, f: ValueField)
    requires f == DecField ==> v <= 0xFF
    ensures EnteredValue(f, WXK_RETURN, FieldText(ValueText(v), f)) == Some(v)
  {
    ValueTextReadsBack(v, f);
  }

  /** The validator each value field is built with. */
  function FieldValidator(f: ValueField): Validator.NumberValidator
  {
    match f
    case HexField => Validator.NumberValidator(Validator.HEX_CHARS)
    case DecField => Validator.NumberValidator(Validator.DEC_CHARS)
    case BinField => Validator.NumberValidator(Validator.BIN_CHARS)
  }

  /** Whatever non-empty text the field's validator lets the user type is a
      number in the field's base, so Enter commits it (a decimal above 0xFF
      excepted). */
  lemma ValidatedEntryCommits(f: ValueField, text: string)
    requires text != [] && Validator.Accepts(FieldValidator(f), text)
    ensures var base := FieldBase(f);
      NumberText.DigitsOf(text, base).Some? &&
      var v := NumberText.DigitsValue(NumberText.DigitsOf(text, base).value, base);
      NumberText.ParseInt(text, base) == Some(v) &&
      EnteredValue(f, WXK_RETURN, text) == (if f == DecField && v > 0xFF then None else Some(v))
  {
    var base := FieldBase(f);
    forall i | 0 <= i < |text|
      ensures NumberText.DigitValue(text[i], base).Some? && !PyText.IsSpace(text[i])
    {
      FieldCharIsDigit(f, text[i]);
    }
    NumberText.ParseDigits(text, base, false, NumberText.DigitsValue(NumberText.DigitsOf(text, base).value, base));
    assert "" + text == text;
  }

  lemma FieldCharIsDigit(f: ValueField, c: char)
    requires c in FieldValidator(f).allowChars
    ensures NumberText.DigitValue(c, FieldBase(f)).Some? && !PyText.IsSpace(c)
  {
    Validator.SetsAreDigits(c);
    NumberText.DigitNotSpace(c, FieldBase(f));
  }

  /** Enter in a value field: the labels are redrawn for the value and
      `SetCellString(row, col, hex(v))` gives the grid `"%02X" % int(hex(v), 16)`
      for the cursor cell. Returns the new labels, if any, and the table. */
  function CommitValue(st: TableSpec.TableState, cols: nat, row: nat, col: nat,
                       f: ValueField, key: int, text: string): (r: (Option<ValueLabels>, TableSpec.TableState))
    ensures r.0.Some? <==> EnteredValue(f, key, text).Some?
    ensures r.0.Some? ==> r.0.value == ValueText(EnteredValue(f, key, text).value)
    ensures EnteredValue(f, key, text).None? ==> r.1 == st
  {
    match EnteredValue(f, key, text)
    case None => (None, st)
    case Some(v) =>
      match NumberText.ParseInt(NumberText.HexLiteral(v), 16)
      case None => (Some(ValueText(v)), st)
      case Some(w) => (Some(ValueText(v)), TableSpec.SetValue(st, cols, row, col, NumberText.ShowInt(w, 16, 2)))
  }

  /** What Enter writes: the entered value when it is a byte and the cursor
      is on a hex cell, nothing otherwise. */
  lemma CommitStoresEnteredValue(st: TableSpec.TableState, cols: nat, row: nat, col: nat,
                                 f: ValueField, key: int, text: string)
    ensures CommitValue(st, cols, row, col, f, key, text).1 ==
      match EnteredValue(f, key, text)
      case None => st
      case Some(v) => if col != cols && 0 <= v <= 255 then TableSpec.StoreByte(st, cols, row, col, v as byte) else st
  {
    match EnteredValue(f, key, text)
    case None =>
    case Some(v) =>
      NumberText.ParseHexLiteral(v);
      CommitByte(st, cols, row, col, v);
  }

  /** The grid's `SetValue` with `"%02X" % v` stores `v` when it is a byte. */
  lemma CommitByte(st: TableSpec.TableState, cols: nat, row: nat, col: nat, v: int)
    ensures TableSpec.SetValue(st, cols, row, col, NumberText.ShowInt(v, 16, 2)) ==
      if col != cols && 0 <= v <= 255 then TableSpec.StoreByte(st, cols, row, col, v as byte) else st
  {
    NumberText.ParseShownInt(v, 16, 2);
  }

  // ---------------------------------------------------------------- paste

  /** A line break, eight non-blank characters and a blank at `i`: the
      offset column of a copied hex dump. */
  predicate OffsetColumnAt(s: string, i: nat)
  {
    i + 10 <= |s| && (s[i] == '\n' || s[i] == '\r') &&
    (forall k :: i + 1 <= k < i + 9 ==> !PyText.IsSpace(s[k])) && s[i + 9] == ' '
  }

  /** `re.sub("[\n\r]\S{8} ", "", s)`: offset columns are dropped, scanning
      left to right without overlap. */
  function StripOffsets(s: string): (r: string)
    ensures |r| <= |s|
    ensures PyText.Subsequence(r, s)
  {
    if s == [] then []
    else if OffsetColumnAt(s, 0) then
      var r := StripOffsets(s[10..]);
      PyText.SubsequenceOfSuffix(r, s, 10);
      r
    else [s[0]] + StripOffsets(s[1..])
  }

  /** An offset column anywhere in the text costs it ten characters, taken
      there or by an earlier column that overlaps it. */
  lemma {:induction false} StripOffsetsDrops(s: string, i: nat)
    requires OffsetColumnAt(s, i)
    ensures |StripOffsets(s)| <= |s| - 10
  {
    if !OffsetColumnAt(s, 0) {
      assert i > 0;
      assert OffsetColumnAt(s[1..], i - 1) by {
        forall k | i <= k < i + 8 ensures !PyText.IsSpace(s[1..][k]) {
          assert s[1..][k] == s[k + 1];
        }
      }
      StripOffsetsDrops(s[1..], i - 1);
    }
  }

  /** The substitution changes the text exactly when it holds an offset
      column somewhere. */
  lemma {:induction false} StripOffsetsUnchanged(s: string)
    ensures StripOffsets(s) == s <==> forall i: nat :: !OffsetColumnAt(s, i)
  {
    if forall i: nat :: !OffsetColumnAt(s, i) {
      NoColumnKept(s);
    } else {
      var i: nat :| OffsetColumnAt(s, i);
      StripOffsetsDrops(s, i);
    }
  }

  lemma {:induction false} NoColumnKept(s: string)
    requires forall i: nat :: !OffsetColumnAt(s, i)
    ensures StripOffsets(s) == s
  {
    if s != [] {
      assert !OffsetColumnAt(s, 0);
      forall i: nat ensures !OffsetColumnAt(s[1..], i) {
        if OffsetColumnAt(s[1..], i) {
          assert OffsetColumnAt(s, i + 1) by {
            forall k | i + 2 <= k < i + 10 ensures !PyText.IsSpace(s[k]) {
              assert s[k] == s[1..][k - 1];
            }
          }
          assert false;
        }
      }
      NoColumnKept(s[1..]);
    }
  }

  /** Text without blanks has no offset column to drop. */
  lemma {:induction false} StripOffsetsKeepsClean(s: string)
    requires PyText.NoSpace(s)
    ensures StripOffsets(s) == s
  {
    if s != [] {
      assert !PyText.IsSpace(s[0]);
      assert PyText.NoSpace(s[1..]) by {
        forall i | 0 <= i < |s[1..]| ensures !PyText.IsSpace(s[1..][i]) {
          assert s[1..][i] == s[i + 1];
        }
      }
      StripOffsetsKeepsClean(s[1..]);
    }
  }

  /** The two substitutions of `_insert`. */
  function Normalised(data: string): string
  {
    PyText.RemoveSpaces(StripOffsets(data))
  }

  /** `_insert` up to `InsertText`: the hex text a paste inserts, `None` when
      the clipboard is empty or nothing is left once normalised; an odd
      trailing digit is dropped. */
  function PastePayload(clip: Option<string>): (r: Option<string>)
    ensures r.Some? <==> clip.Some? && clip.value != [] && Normalised(clip.value) != []
    ensures r.Some? ==> var t := Normalised(clip.value);
      |r.value| % 2 == 0 && PyText.NoSpace(r.value) &&
      |r.value| <= |t| <= |r.value| + 1 && r.value == t[..|r.value|]
  {
    match clip
    case None => None
    case Some(data) =>
      if data == [] then None
      else
        var t := Normalised(data);
        if t == [] then None
        else Some(if |t| % 2 == 1 then t[..|t| - 1] else t)
  }

  /** A paste into the table at `start`: nothing without a payload, otherwise
      `InsertText`, whose error leaves the table as it was. */
  function Paste(st: TableSpec.TableState, start: nat, clip: Option<string>)
    : (r: (TableSpec.TableState, Option<Base16.HexError>))
    ensures PastePayload(clip).None? ==> r == (st, None)
    ensures r.1.Some? ==>
      (r.0 == st && PastePayload(clip).Some? && Base16.Decode(PastePayload(clip).value) == Err(r.1.value))
    ensures r.1.None? && PastePayload(clip).Some? ==>
      Base16.Decode(PastePayload(clip).value).Ok? &&
      r.0 == TableSpec.InsertRange(st, start, Base16.Decode(PastePayload(clip).value).value)
  {
    match PastePayload(clip)
    case None => (st, None)
    case Some(p) =>
      match TableSpec.InsertText(st, start, p)
      case Ok(st1) => (st1, None)
      case Err(e) => (st, Some(e))
  }

  /** Copy then paste: the hex text `GetText` puts on the clipboard pastes
      back exactly the copied bytes. */
  lemma CopyThenPaste(st: TableSpec.TableState, source: seq<byte>, from: nat, n: Option<nat>, start: nat)
    requires TableSpec.GetBinary(source, from, n) != []
    ensures Paste(st, start, Some(TableSpec.GetText(source, from, n))) ==
            (TableSpec.InsertRange(st, start, TableSpec.GetBinary(source, from, n)), None)
  {
    var text := TableSpec.GetText(source, from, n);
    assert PyText.NoSpace(text);
    StripOffsetsKeepsClean(text);
    PyText.RemoveSpacesKeepsClean(text);
    assert Normalised(text) == text;
    assert PastePayload(Some(text)) == Some(text);
    Base16.DecodeEncode(TableSpec.GetBinary(source, from, n));
  }

  /** A first character that is not a blank cannot start an offset column,
      so it is kept. */
  lemma KeepsFirst(s: string)
    requires s != [] && !PyText.IsSpace(s[0])
    ensures StripOffsets(s) == [s[0]] + StripOffsets(s[1..])
  {
    assert !OffsetColumnAt(s, 0);
  }

  lemma ConsTail(a: string, r: string)
    requires a != []
    ensures [a[0]] + (a[1..] + r) == a + r
  {
    assert a == [a[0]] + a[1..];
  }

  /** Text without blanks in front of the rest passes through unchanged. */
  lemma {:induction false} StripOffsetsCleanPrefix(a: string, x: string)
    requires PyText.NoSpace(a)
    ensures StripOffsets(a + x) == a + StripOffsets(x)
  {
    if a == [] {
      assert a + x == x;
    } else {
      var s := a + x;
      assert s[0] == a[0] && s[1..] == a[1..] + x;
      KeepsFirst(s);
      PyText.NoSpaceTail(a);
      StripOffsetsCleanPrefix(a[1..], x);
      ConsTail(a, StripOffsets(x));
    }
  }

  /** Pasting two lines of a hex dump: the offset column that starts the
      second line is dropped and the hex digits are joined. */
  lemma PasteDumpLine(a: string, offset: string, b: string)
    requires PyText.NoSpace(a) && PyText.NoSpace(offset) && |offset| == 8 && PyText.NoSpace(b)
    ensures Normalised(a + ("\n" + offset + " " + b)) == a + b
  {
    var x := "\n" + offset + " " + b;
    assert OffsetColumnAt(x, 0) by {
      forall k | 1 <= k < 9 ensures !PyText.IsSpace(x[k]) {
        assert x[k] == offset[k - 1];
      }
    }
    assert x[10..] == b;
    StripOffsetsKeepsClean(b);
    StripOffsetsCleanPrefix(a, x);
    assert PyText.NoSpace(a + b) by {
      forall i | 0 <= i < |a + b| ensures !PyText.IsSpace((a + b)[i]) {
        if i < |a| {
          assert (a + b)[i] == a[i];
        } else {
          assert (a + b)[i] == b[i - |a|];
        }
      }
    }
    PyText.RemoveSpacesKeepsClean(a + b);
  }

  /** `_insert()` on the table: the clipboard text, once normalised, is
      inserted at the cursor address. */
  method InsertClipboard(table: GridTable.HexGridTable, clip: Option<string>, start: nat)
    returns (err: Option<Base16.HexError>)
    requires table.Valid()
    modifies table
    ensures table.Valid()
    ensures (table.State(), err) == Paste(old(table.State()), start, clip)
  {
    var payload := PastePayload(clip);
    if payload.None? {
      return None;
    }
    err := table.InsertText(start, payload.value);
  }

  // ---------------------------------------------------------------- find

  /** What one press of the find button ends in. */
  datatype FindOutcome =
    | NoQuery                               // empty query: the iterator is dropped
    | Found(m: ByteSearch.Match)            // the match is selected
    | SearchEnd                             // "Search to End": the next press starts over
    | SearchFailed(e: ByteSearch.SearchError)  // the query was refused

  /** `_search_options` (the query text and search type of the running
      search) and `_search_result` (its iterator). */
  datatype FindState = FindState(options: Option<(string, ByteSearch.SearchKind)>,
                                 result: Option<ByteSearch.MatchIter>)

  /** Before the first search. */
  const FindStart := FindState(None, None)

  /** Hex queries lose their whitespace before they are compiled. */
  function FindQuery(text: string, kind: ByteSearch.SearchKind): string
  {
    if kind == ByteSearch.Hexadecimal then PyText.RemoveSpaces(text) else text
  }

  /** What the session keeps true: the stored query compiles to a literal
      pattern, and an iterator belongs to the stored query. */
  predicate SessionInv(fs: FindState)
  {
    (fs.options.Some? ==>
       fs.options.value.1 != ByteSearch.RegexText &&
       ByteSearch.CompileQuery(FindQuery(fs.options.value.0, fs.options.value.1), fs.options.value.1).Ok?) &&
    (fs.result.Some? ==>
       fs.options.Some? &&
       fs.result.value.pattern ==
         ByteSearch.CompileQuery(FindQuery(fs.options.value.0, fs.options.value.1), fs.options.value.1).value)
  }

  /** `OnFindButton` with query `text` and search type `kind` over the
      document `bytes`: an empty query drops the iterator; a new query, a new
      type or a finished search compiles the query and starts an iterator over
      a snapshot of the document; then the iterator is advanced once. A
      refused query changes nothing. */
  function FindStep(fs: FindState, bytes: seq<byte>, text: string, kind: ByteSearch.SearchKind)
    : (r: (FindState, FindOutcome))
    requires kind != ByteSearch.RegexText && SessionInv(fs)
    ensures SessionInv(r.0)
  {
    if text == [] then (fs.(result := None), NoQuery)
    else
      var rebuild := fs.options != Some((text, kind)) || fs.result.None?;
      var started: Result<FindState, ByteSearch.SearchError> :=
        if !rebuild then Ok(fs)
        else match ByteSearch.CompileQuery(FindQuery(text, kind), kind)
          case Err(e) => Err(e)
          case Ok(p) => Ok(FindState(Some((text, kind)), Some(ByteSearch.MatchIter(bytes, p, 0))));
      match started
      case Err(e) => (fs, SearchFailed(e))
      case Ok(fs1) =>
        match ByteSearch.Next(fs1.result.value)
        case None => (fs1.(result := None), SearchEnd)
        case Some((m, it)) => (fs1.(result := Some(it)), Found(m))
  }

  /** An empty query drops the iterator and keeps the stored query. */
  lemma FindEmptyQuery(fs: FindState, bytes: seq<byte>, kind: ByteSearch.SearchKind)
    requires kind != ByteSearch.RegexText && SessionInv(fs)
    ensures FindStep(fs, bytes, "", kind) == (fs.(result := None), NoQuery)
  {
  }

  /** A refused query changes nothing. */
  lemma FindRefused(fs: FindState, bytes: seq<byte>, text: string, kind: ByteSearch.SearchKind)
    requires kind != ByteSearch.RegexText && SessionInv(fs) && text != []
    requires ByteSearch.CompileQuery(FindQuery(text, kind), kind).Err?
    ensures FindStep(fs, bytes, text, kind) ==
            (fs, SearchFailed(ByteSearch.CompileQuery(FindQuery(text, kind), kind).error))
  {
  }

  /** A new search finds the leftmost occurrence of the query's bytes in the
      document, or reports the end when there is none. */
  lemma FindFirst(fs: FindState, bytes: seq<byte>, text: string, kind: ByteSearch.SearchKind)
    requires kind != ByteSearch.RegexText && SessionInv(fs) && text != []
    requires fs.options != Some((text, kind)) || fs.result.None?
    requires ByteSearch.CompileQuery(FindQuery(text, kind), kind).Ok?
    ensures var p := ByteSearch.CompileQuery(FindQuery(text, kind), kind).value;
      var (fs1, outcome) := FindStep(fs, bytes, text, kind);
      p.Literal? && fs1.options == Some((text, kind)) &&
      match ByteSearch.FindFrom(bytes, p.bytes, 0)
      case None => outcome == SearchEnd && fs1.result.None?
      case Some(i) =>
        outcome == Found(ByteSearch.Match(i, i + |p.bytes|)) &&
        bytes[i..i + |p.bytes|] == p.bytes &&
        forall j: nat :: j < i ==> !ByteSearch.MatchesAt(bytes, p.bytes, j)
  {
    var p := ByteSearch.CompileQuery(FindQuery(text, kind), kind).value;
    var it := ByteSearch.MatchIter(bytes, p, 0);
    var fs0 := FindState(Some((text, kind)), Some(it));
    assert p.Literal?;
    assert FindStep(fs, bytes, text, kind) ==
      match ByteSearch.Next(it)
      case None => (fs0.(result := None), SearchEnd)
      case Some((m, it1)) => (fs0.(result := Some(it1)), Found(m));
  }

  /** Pressing again with the same query continues the running search over
      the snapshot it started with (whatever the document is now): the next
      match lies after the previous one, and nothing in between matches. */
  lemma FindContinues(fs: FindState, bytes: seq<byte>, later: seq<byte>, text: string,
                      kind: ByteSearch.SearchKind)
    requires kind != ByteSearch.RegexText && SessionInv(fs) && text != []
    requires FindStep(fs, bytes, text, kind).1.Found?
    ensures var (fs1, o1) := FindStep(fs, bytes, text, kind);
      var (fs2, o2) := FindStep(fs1, later, text, kind);
      var it := fs1.result.value;
      fs2.options == fs1.options &&
      (match ByteSearch.Next(it)
       case None => o2 == SearchEnd && fs2.result.None?
       case Some((m, it2)) =>
         o2 == Found(m) && o1.m.end <= m.start && o1.m.start < m.start &&
         it2.subject == it.subject && it.subject[m.start..m.end] == it.pattern.bytes)
  {
    var (fs1, o1) := FindStep(fs, bytes, text, kind);
    var it0 := FoundBy(fs, bytes, text, kind);
    SameQueryAdvances(fs1, later, text, kind);
    var it := fs1.result.value;
    if ByteSearch.Next(it).Some? {
      ByteSearch.ConsecutiveMatches(it0);
      ByteSearch.NextIsLeftmost(it);
    }
  }

  /** A match was found by advancing an iterator once; the session now holds
      the advanced iterator and the query. */
  lemma FoundBy(fs: FindState, bytes: seq<byte>, text: string, kind: ByteSearch.SearchKind)
    returns (it0: ByteSearch.MatchIter)
    requires kind != ByteSearch.RegexText && SessionInv(fs) && text != []
    requires FindStep(fs, bytes, text, kind).1.Found?
    ensures var (fs1, o1) := FindStep(fs, bytes, text, kind);
      it0.pattern.Literal? && fs1.options == Some((text, kind)) && fs1.result.Some? &&
      ByteSearch.Next(it0) == Some((o1.m, fs1.result.value))
  {
    if fs.options != Some((text, kind)) || fs.result.None? {
      it0 := ByteSearch.MatchIter(bytes, ByteSearch.CompileQuery(FindQuery(text, kind), kind).value, 0);
    } else {
      it0 := fs.result.value;
    }
  }

  /** With the same query and a running iterator, a press only advances it. */
  lemma SameQueryAdvances(fs: FindState, bytes: seq<byte>, text: string, kind: ByteSearch.SearchKind)
    requires kind != ByteSearch.RegexText && SessionInv(fs) && text != []
    requires fs.options == Some((text, kind)) && fs.result.Some?
    ensures FindStep(fs, bytes, text, kind) ==
      match ByteSearch.Next(fs.result.value)
      case None => (fs.(result := None), SearchEnd)
      case Some((m, it)) => (fs.(result := Some(it)), Found(m))
  {
  }

  /** After "Search to End" the next press with the same query starts over
      from the top of the document as it is then. */
  lemma FindRestartsAfterEnd(fs: FindState, bytes: seq<byte>, later: seq<byte>, text: string,
                             kind: ByteSearch.SearchKind)
    requires kind != ByteSearch.RegexText && SessionInv(fs) && text != []
    requires FindStep(fs, bytes, text, kind).1 == SearchEnd
    ensures FindStep(FindStep(fs, bytes, text, kind).0, later, text, kind) ==
            FindStep(FindStart, later, text, kind)
  {
  }

  /** Blanks in a hex query do not matter: a new search for "DE AD" finds
      what a new search for "DEAD" finds. */
  lemma HexQueryIgnoresBlanks(fs: FindState, bytes: seq<byte>, text: string)
    requires SessionInv(fs) && fs.result.None? && PyText.RemoveSpaces(text) != []
    ensures FindStep(fs, bytes, text, ByteSearch.Hexadecimal).1 ==
            FindStep(fs, bytes, PyText.RemoveSpaces(text), ByteSearch.Hexadecimal).1
  {
    PyText.RemoveSpacesKeepsClean(PyText.RemoveSpaces(text));
  }

  /** The find bar's state across presses of the find button. */
  class FindSession {
    var options: Option<(string, ByteSearch.SearchKind)>
    var result: Option<ByteSearch.MatchIter>

    constructor ()
      ensures Snapshot() == FindStart
    {
      options := None;
      result := None;
    }

    function Snapshot(): FindState
      reads this
    {
      FindState(options, result)
    }

    /** `OnFindButton()`: the query is compiled through the table's
        `FindIter`, which snapshots the document through `String`. */
    method OnFindButton(table: GridTable.HexGridTable, text: string, kind: ByteSearch.SearchKind)
      returns (outcome: FindOutcome)
      requires table.Valid() && kind != ByteSearch.RegexText && SessionInv(Snapshot())
      modifies this, table
      ensures table.Valid() && table.State() == old(table.State())
      ensures SessionInv(Snapshot())
      ensures (Snapshot(), outcome) == FindStep(old(Snapshot()), old(table.State()).bytes, text, kind)
    {
      if text == [] {
        result := None;
        return NoQuery;
      }
      if options != Some((text, kind)) || result.None? {
        var it := table.FindIter(FindQuery(text, kind), kind);
        if it.Err? {
          return SearchFailed(it.error);
        }
        result := Some(it.value);
        options := Some((text, kind));
      }
      var next := ByteSearch.Next(result.value);
      if next.None? {
        result := None;
        outcome := SearchEnd;
      } else {
        result := Some(next.value.1);
        outcome := Found(next.value.0);
      }
    }
  }

  // ---------------------------------------------------------------- undo

  /** What the editor redraws after `Undo`/`Redo`: the grid is rebuilt after
      a structural change, repainted after a cell edit, left alone when
      there was nothing to do. */
  datatype Redraw = ResetGrid | Repaint | NoRedraw

  function RedrawAfter(res: Option<bool>): Redraw
  {
    match res
    case Some(true) => ResetGrid
    case Some(false) => Repaint
    case None => NoRedraw
  }

  /** `HexEditor.Undo()` */
  method EditorUndo(table: GridTable.HexGridTable) returns (redraw: Redraw)
    requires table.Valid()
    modifies table, table.buffer
    ensures table.Valid()
    ensures var (st, res) := TableSpec.Undo(old(table.State()), table.hexCols);
      table.State() == st && redraw == RedrawAfter(res)
  {
    var res := table.Undo();
    redraw := RedrawAfter(res);
  }

  /** `HexEditor.Redo()` */
  method EditorRedo(table: GridTable.HexGridTable) returns (redraw: Redraw)
    requires table.Valid()
    modifies table, table.buffer
    ensures table.Valid()
    ensures var (st, res) := TableSpec.Redo(old(table.State()), table.hexCols);
      table.State() == st && redraw == RedrawAfter(res)
  {
    var res := table.Redo();
    redraw := RedrawAfter(res);
  }

  /** When the action on top of the undo log fits the document, the grid is
      only repainted when the length stays the same: a change in length
      always rebuilds the grid. */
  lemma UndoRedrawFitsLength(st: TableSpec.TableState, cols: nat)
    requires 0 < cols && st.undo != []
    requires TableLaws.Consistent(st, st.undo[|st.undo| - 1])
    ensures var (st1, res) := TableSpec.Undo(st, cols);
      RedrawAfter(res) != NoRedraw &&
      (|st1.bytes| != |st.bytes| ==> RedrawAfter(res) == ResetGrid)
  {
  }

  /** The redo log outlives new edits, so a cell edit can be redone at an
      address that is now the end of the document: the byte is appended,
      yet the editor only repaints. */
  lemma StaleRedoAppends()
    ensures var st := TableSpec.TableState([1, 2], map[], TableSpec.NoRange, [],
                                           [TableSpec.EditCell(2, [9], None)]);
      var (st1, res) := TableSpec.Redo(st, 16);
      st1.bytes == [1, 2, 9] && RedrawAfter(res) == Repaint
  {
    var st := TableSpec.TableState([1, 2], map[], TableSpec.NoRange, [], [TableSpec.EditCell(2, [9], None)]);
    assert st.bytes[..2] + [9] + st.bytes[2..] == [1, 2, 9];
  }

  /** Undoing that redone edit raises: the byte it saved is empty, because
      the address was the end of the document. The edit is lost, the editor
      redraws nothing, and the next Undo removes the appended byte. */
  lemma StaleRedoThenUndo()
    ensures var st := TableSpec.TableState([1, 2], map[], TableSpec.NoRange, [],
                                           [TableSpec.EditCell(2, [9], None)]);
      var st1 := TableSpec.Redo(st, 16).0;
      var (st2, res2) := TableSpec.Undo(st1, 16);
      var (st3, res3) := TableSpec.Undo(st2, 16);
      st1.undo == [TableSpec.InsertCells(2, [9]), TableSpec.EditCell(2, [], None)] &&
      st2.bytes == [1, 2, 9] && st2.undo == [TableSpec.InsertCells(2, [9])] &&
      RedrawAfter(res2) == NoRedraw &&
      st3.bytes == [1, 2] && st3.undo == [] && RedrawAfter(res3) == ResetGrid
  {
    var st := TableSpec.TableState([1, 2], map[], TableSpec.NoRange, [], [TableSpec.EditCell(2, [9], None)]);
    StaleRedoAppends();
    var st1 := TableSpec.Redo(st, 16).0;
    assert st1.undo == [TableSpec.InsertCells(2, [9]), TableSpec.EditCell(2, [], None)];
    TableLaws.UndoRaisedLosesAction(st1, 16);
    var st2 := TableSpec.Undo(st1, 16).0;
    assert st2.undo == [TableSpec.InsertCells(2, [9])];
    assert st2.bytes[2..3] == [9];
    assert st2.bytes[..2] + st2.bytes[3..] == [1, 2];
  }
}
