/** `HexGridTable.FindIter`: a query is turned into a pattern, and the
    pattern is matched with `re.finditer` against a snapshot of the buffer.
    Literal patterns (plain text and hex bytes) are matched here as
    leftmost, non-overlapping byte-substring search; regular expressions are
    only carried, not matched. */
module ByteSearch {
  import opened Outcomes
  import opened Bytes
  import Base16

  /** The labels of the search-type radio buttons; any other label is refused. */
  datatype SearchKind = Hexadecimal | NormalText | RegexText | OtherKind(name: string)

  datatype SearchError =
    | BadHex(reason: Base16.HexError)
    | NotByteText
    | UnsupportedSearchType

  datatype Pattern = Literal(bytes: seq<byte>) | Regex(source: string)

  /** `match.span(0)` */
  datatype Match = Match(start: nat, end: nat)

  /** A match iterator over a fixed snapshot; `pos` is where the next search starts. */
  datatype MatchIter = MatchIter(subject: seq<byte>, pattern: Pattern, pos: nat)

  /** Query text as bytes, one byte per character; a character above 0xFF
      has no byte. */
  function TextBytes(t: string): (r: Option<seq<byte>>)
    ensures r.Some? <==> forall i :: 0 <= i < |t| ==> t[i] as int < 256
    ensures r.Some? ==> |r.value| == |t| && forall i :: 0 <= i < |t| ==> r.value[i] as int == t[i] as int
  {
    if t == [] then Some([])
    else if t[0] as int >= 256 then None
    else match TextBytes(t[1..])
      case None => None
      case Some(rest) => Some([t[0] as int as byte] + rest)
  }

  /** `FindIter(text, find_type)` up to the iterator: which pattern a query
      compiles to, or why it is refused. */
  function CompileQuery(text: string, kind: SearchKind): (r: Result<Pattern, SearchError>)
    ensures kind.OtherKind? ==> r == Err(UnsupportedSearchType)
    ensures kind == RegexText ==> r == Ok(Regex(text))
    ensures r.Ok? && kind != RegexText ==> r.value.Literal?
    ensures kind == Hexadecimal && !Base16.IsAscii(text) ==> r == Err(BadHex(Base16.NonAscii))
    ensures kind == Hexadecimal && r.Ok? ==> Base16.Encode(r.value.bytes) == Base16.UpperHex(text)
    ensures kind == NormalText && r.Ok? ==> |r.value.bytes| == |text|
  {
    match kind
    case RegexText => Ok(Regex(text))
    case Hexadecimal =>
      (match Base16.Decode(text)
       case Ok(b) => Base16.EncodeDecode(text); Ok(Literal(b))
       case Err(e) => Err(BadHex(e)))
    case NormalText =>
      (match TextBytes(text)
       case Some(b) => Ok(Literal(b))
       case None => Err(NotByteText))
    case OtherKind(_) => Err(UnsupportedSearchType)
  }

  predicate MatchesAt(s: seq<byte>, p: seq<byte>, i: nat)
  {
    i + |p| <= |s| && s[i..i + |p|] == p
  }

  /** The leftmost occurrence of `p` in `s` at or after `pos`. */
  function FindFrom(s: seq<byte>, p: seq<byte>, pos: nat): (r: Option<nat>)
    ensures r.Some? ==> pos <= r.value && MatchesAt(s, p, r.value)
    ensures forall i: nat :: pos <= i && (r.None? || i < r.value) ==> !MatchesAt(s, p, i)
    decreases |s| + 1 - pos
  {
    if pos + |p| > |s| then None
    else if s[pos..pos + |p|] == p then Some(pos)
    else FindFrom(s, p, pos + 1)
  }

  /** One `next()` on the iterator: the next match and the advanced
      iterator, or `None` once the subject is exhausted. After an empty
      match the search moves on by one byte, as `re.finditer` does. */
  function Next(it: MatchIter): (r: Option<(Match, MatchIter)>)
    requires it.pattern.Literal?
    ensures r.Some? ==> var (m, it1) := r.value;
      it1.subject == it.subject && it1.pattern == it.pattern &&
      it.pos <= m.start && m.start + |it.pattern.bytes| == m.end && it.pos < it1.pos &&
      (it.pattern.bytes != [] ==> it1.pos == m.end)
  {
    var p := it.pattern.bytes;
    match FindFrom(it.subject, p, it.pos)
    case None => None
    case Some(i) => Some((Match(i, i + |p|), it.(pos := if |p| == 0 then i + 1 else i + |p|)))
  }

  /** A match is the leftmost occurrence not before the iterator's position,
      and it is really there. */
  lemma NextIsLeftmost(it: MatchIter)
    requires it.pattern.Literal? && Next(it).Some?
    ensures var m := Next(it).value.0; var p := it.pattern.bytes;
      it.pos <= m.start && m.end == m.start + |p| && it.subject[m.start..m.end] == p &&
      forall i: nat :: it.pos <= i < m.start ==> !MatchesAt(it.subject, p, i)
  {
  }

  /** Exhaustion means no occurrence is left at or after the position. */
  lemma ExhaustedMeansNoMore(it: MatchIter)
    requires it.pattern.Literal? && Next(it).None?
    ensures forall i: nat :: it.pos <= i ==> !MatchesAt(it.subject, it.pattern.bytes, i)
  {
  }

  /** Matches come left to right and do not overlap; nothing between two
      consecutive matches is skipped. */
  lemma {:induction false} ConsecutiveMatches(it: MatchIter)
    requires it.pattern.Literal? && Next(it).Some?
    requires Next(Next(it).value.1).Some?
    ensures var (m1, it1) := Next(it).value; var m2 := Next(it1).value.0;
      m1.end <= m2.start && m1.start < m2.start &&
      (|it.pattern.bytes| > 0 ==>
        forall i: nat :: m1.end <= i < m2.start ==> !MatchesAt(it.subject, it.pattern.bytes, i))
  {
    var (m1, it1) := Next(it).value;
    NextIsLeftmost(it1);
  }

  /** A search query that is the hex text of some bytes finds exactly those
      bytes (the query Ctrl+F copies from a selection). */
  lemma HexQueryOfBytes(data: seq<byte>)
    ensures CompileQuery(Base16.Encode(data), Hexadecimal) == Ok(Literal(data))
  {
    Base16.DecodeEncode(data);
  }

  /** A hex query with a non-ASCII character is refused for that reason,
      before its odd length is looked at. */
  lemma NonAsciiHexQuery()
    ensures CompileQuery("\U{E9}", Hexadecimal) == Err(BadHex(Base16.NonAscii))
  {
    var q: string := "\U{E9}";
    assert q[0] as int >= 128;
  }

  /** Hex search for "AB" in 11 AB 22 AB: a match at 1, one at 3, then the end. */
  lemma HexSearchExample()
    ensures var q := CompileQuery("AB", Hexadecimal);
      q == Ok(Literal([0xAB])) &&
      var it0 := MatchIter([0x11, 0xAB, 0x22, 0xAB], q.value, 0);
      Next(it0).Some? && Next(it0).value.0 == Match(1, 2) &&
      var it1 := Next(it0).value.1;
      Next(it1).Some? && Next(it1).value.0 == Match(3, 4) &&
      Next(Next(it1).value.1).None?
  {
    var s: seq<byte> := [0x11, 0xAB, 0x22, 0xAB];
    assert Base16.HexDigit('A') == Some(10) && Base16.HexDigit('B') == Some(11);
    var ab := "AB";
    assert ab[0] == 'A' && ab[1] == 'B' && ab[2..] == [];
    assert Base16.DecodePairs(ab[2..]) == Ok([]);
    assert Base16.DecodePairs(ab) == Ok([(10 * 16 + 11) as byte] + []);
    assert [(10 * 16 + 11) as byte] + [] == [0xAB];
    assert |ab| % 2 == 0;
    assert Base16.Decode(ab) == Ok([0xAB]);
    assert s[0..1][0] == 0x11;
    assert FindFrom(s, [0xAB], 0) == Some(1);
    assert s[2..3][0] == 0x22;
    assert FindFrom(s, [0xAB], 2) == Some(3);
  }
}
