/** Hexadecimal text to bytes and back, as `binascii.a2b_hex` (either case
    accepted) and `binascii.b2a_hex(...).upper()` do it: section 8 of
    RFC 4648 (base16). */
module Base16 {
  import opened Outcomes
  import opened Bytes
  import NumberText
  import PyText

  datatype HexError = NonAscii | OddLength | NonHexDigit

  /** Every character is ASCII; `a2b_hex` refuses a `str` argument
      that is not. */
  predicate IsAscii(s: string)
  {
    forall i :: 0 <= i < |s| ==> s[i] as int < 128
  }

  /** The value of a hex digit character in either case. */
  function HexDigit(c: char): (r: Option<nat>)
    ensures r.Some? ==> c as int < 128 && r.value < 16
  {
    NumberText.DigitValue(c, 16)
  }

  /** `binascii.b2a_hex(data).upper()`: two upper-case digits per byte. */
  function Encode(data: seq<byte>): (s: string)
    ensures |s| == 2 * |data|
    ensures forall i :: 0 <= i < |s| ==> HexDigit(s[i]).Some? && !PyText.IsSpace(s[i])
  {
    if data == [] then []
    else
      [NumberText.DigitChar(data[0] as nat / 16), NumberText.DigitChar(data[0] as nat % 16)]
      + Encode(data[1..])
  }

  /** `binascii.a2b_hex(s)` on a `str`: a non-ASCII character is refused
      first, then odd length, then any character that is not a hex digit. */
  function Decode(s: string): (r: Result<seq<byte>, HexError>)
    ensures r.Ok? ==> 2 * |r.value| == |s|
    ensures r == Err(NonAscii) <==> !IsAscii(s)
    ensures r == Err(OddLength) <==> IsAscii(s) && |s| % 2 == 1
    ensures r.Ok? <==> |s| % 2 == 0 && forall i :: 0 <= i < |s| ==> HexDigit(s[i]).Some?
  {
    if !IsAscii(s) then Err(NonAscii)
    else if |s| % 2 == 1 then Err(OddLength)
    else DecodePairs(s)
  }

  function DecodePairs(s: string): (r: Result<seq<byte>, HexError>)
    requires |s| % 2 == 0
    ensures r.Ok? ==> 2 * |r.value| == |s|
    ensures r.Ok? <==> forall i :: 0 <= i < |s| ==> HexDigit(s[i]).Some?
    ensures r.Err? ==> r.error == NonHexDigit
  {
    if s == [] then Ok([])
    else match (HexDigit(s[0]), HexDigit(s[1]), DecodePairs(s[2..]))
      case (Some(hi), Some(lo), Ok(rest)) => Ok([(hi * 16 + lo) as byte] + rest)
      case _ => Err(NonHexDigit)
  }

  /** Lower-case hex letters raised to upper case; `.upper()` on hex text. */
  function UpperHex(s: string): (r: string)
    ensures |r| == |s|
  {
    if s == [] then [] else [UpperChar(s[0])] + UpperHex(s[1..])
  }

  function UpperChar(c: char): char
  {
    if 'a' <= c <= 'f' then (c as int - 32) as char else c
  }

  /** Decoding the upper-case text of any bytes gives the bytes back. */
  lemma {:induction false} DecodeEncode(data: seq<byte>)
    ensures Decode(Encode(data)) == Ok(data)
  {
    if data != [] {
      var s := Encode(data);
      var b := data[0] as nat;
      assert s[2..] == Encode(data[1..]);
      DecodeEncode(data[1..]);
      assert DecodePairs(s[2..]) == Ok(data[1..]);
      assert HexDigit(s[0]) == Some(b / 16) && HexDigit(s[1]) == Some(b % 16);
      NumberText.QuotientAndRemainder(b, 16);
      assert DecodePairs(s) == Ok([data[0]] + data[1..]);
      assert [data[0]] + data[1..] == data;
    }
  }

  lemma DigitCharOfValue(c: char)
    requires HexDigit(c).Some?
    ensures NumberText.DigitChar(HexDigit(c).value) == UpperChar(c)
  {
  }

  /** Encoding what decoded gives the text back, upper-cased: the two
      functions are inverse on well-formed hex text. */
  lemma {:induction false} EncodeDecode(s: string)
    requires Decode(s).Ok?
    ensures Encode(Decode(s).value) == UpperHex(s)
  {
    if s != [] {
      var hi := HexDigit(s[0]).value;
      var lo := HexDigit(s[1]).value;
      var rest := DecodePairs(s[2..]).value;
      assert Decode(s[2..]) == Ok(rest);
      EncodeDecode(s[2..]);
      var b := (hi * 16 + lo) as byte;
      assert Decode(s).value == [b] + rest;
      PairDigits(hi, lo);
      EncodeCons(b, rest);
      DigitCharOfValue(s[0]);
      DigitCharOfValue(s[1]);
      UpperHexSplit(s);
    }
  }

  /** The byte two hex digits make has them as its high and low digit. */
  lemma PairDigits(hi: nat, lo: nat)
    requires hi < 16 && lo < 16
    ensures (hi * 16 + lo) / 16 == hi && (hi * 16 + lo) % 16 == lo
  {
  }

  lemma EncodeCons(b: byte, rest: seq<byte>)
    ensures Encode([b] + rest) ==
      [NumberText.DigitChar(b as nat / 16), NumberText.DigitChar(b as nat % 16)] + Encode(rest)
  {
    assert ([b] + rest)[1..] == rest;
  }

  lemma UpperHexSplit(s: string)
    requires |s| >= 2
    ensures UpperHex(s) == [UpperChar(s[0]), UpperChar(s[1])] + UpperHex(s[2..])
  {
    assert s[1..][1..] == s[2..];
  }
}
