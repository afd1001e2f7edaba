/** Integers as text, the way the editor writes and reads them: `hex()`,
    `bin()` and `str()` followed by `.upper()` and `.zfill(w)` for display,
    `"%02X"` for grid cells, and `int(text, base)` for parsing. */
module NumberText {
  import opened Outcomes
  import PyText

  /** Value of one digit character in `base` (2 <= base <= 16), letters in
      either case, as `int(text, base)` reads them. */
  function DigitValue(c: char, base: nat): (r: Option<nat>)
    ensures r.Some? ==> r.value < base
  {
    var d :=
      if '0' <= c <= '9' then c as int - '0' as int
      else if 'a' <= c <= 'f' then c as int - 'a' as int + 10
      else if 'A' <= c <= 'F' then c as int - 'A' as int + 10
      else 16;
    if d < base then Some(d) else None
  }

  /** A digit is never whitespace. */
  lemma DigitNotSpace(c: char, base: nat)
    requires base <= 16 && DigitValue(c, base).Some?
    ensures !PyText.IsSpace(c)
  {
  }

  /** The upper-case digit character for `d`. */
  function DigitChar(d: nat): (c: char)
    requires d < 16
    ensures DigitValue(c, 16) == Some(d)
    ensures !PyText.IsSpace(c)
  {
    if d < 10 then ('0' as int + d) as char else ('A' as int + d - 10) as char
  }

  /** The digits of `n` in `base`, most significant first; `[0]` for zero. */
  function Digits(n: nat, base: nat): (ds: seq<nat>)
    requires 2 <= base
    ensures 1 <= |ds|
    ensures forall i :: 0 <= i < |ds| ==> ds[i] < base
  {
    if n < base then [n]
    else QuotientSmaller(n, base); Digits(n / base, base) + [n % base]
  }

  /** The number a sequence of digits spells in `base`. */
  function DigitsValue(ds: seq<nat>, base: nat): nat
  {
    if ds == [] then 0 else DigitsValue(ds[..|ds| - 1], base) * base + ds[|ds| - 1]
  }

  /** `hex(n)`/`bin(n)`/`str(n)` without the prefix, upper-cased. */
  function ToText(n: nat, base: nat): (s: string)
    requires 2 <= base <= 16
    ensures |s| == |Digits(n, base)|
    ensures forall i :: 0 <= i < |s| ==> s[i] == DigitChar(Digits(n, base)[i])
  {
    var ds := Digits(n, base);
    seq(|ds|, i requires 0 <= i < |ds| => DigitChar(ds[i]))
  }

  /** `s.zfill(w)` for a string without sign. */
  function ZFill(s: string, w: nat): (r: string)
    ensures |r| == if |s| >= w then |s| else w
    ensures r == Zeros(|r| - |s|) + s
  {
    if |s| >= w then s else Zeros(w - |s|) + s
  }

  function Zeros(k: nat): (z: string)
    ensures |z| == k && forall i :: 0 <= i < k ==> z[i] == '0'
  {
    if k == 0 then [] else Zeros(k - 1) + ['0']
  }

  /** `"%02X" % n`, also what `hex(n)[2:].upper().zfill(2)` shows. */
  function HexByteText(n: nat): (r: string)
    ensures |r| >= 2
    ensures n < 0x100 ==> |r| == 2
  {
    if n < 0x100 then
      assert Pow(16, 2) == 0x100;
      DigitsBound(n, 16, 2);
      ZFill(ToText(n, 16), 2)
    else ZFill(ToText(n, 16), 2)
  }

  /** The digit values of `s`, or `None` when a character is not a digit. */
  function DigitsOf(s: string, base: nat): (r: Option<seq<nat>>)
    ensures r.Some? ==> |r.value| == |s|
    ensures r.Some? <==> forall i :: 0 <= i < |s| ==> DigitValue(s[i], base).Some?
    ensures r.Some? ==> forall i :: 0 <= i < |s| ==> DigitValue(s[i], base) == Some(r.value[i])
  {
    if s == [] then Some([])
    else match (DigitValue(s[0], base), DigitsOf(s[1..], base))
      case (Some(d), Some(rest)) => Some([d] + rest)
      case _ => None
  }

  /** The length of the base prefix `int(text, base)` accepts after the
      sign: `0x`/`0X` in base 16, `0b`/`0B` in base 2, `0o`/`0O` in base 8. */
  function PrefixLength(s: string, base: nat): (k: nat)
    ensures k == 0 || (k == 2 && |s| >= 2 && s[0] == '0')
  {
    if |s| >= 2 && s[0] == '0' &&
       ((base == 16 && s[1] in "xX") || (base == 2 && s[1] in "bB") || (base == 8 && s[1] in "oO"))
    then 2 else 0
  }

  /** Underscores may stand between digits, one at a time, never at the
      end, and at the start only right after a base prefix. */
  predicate UnderscoresPlaced(s: string, prefixed: bool)
  {
    (s != [] && s[0] == '_' ==> prefixed) &&
    (s != [] ==> s[|s| - 1] != '_') &&
    forall i :: 0 <= i < |s| - 1 ==> !(s[i] == '_' && s[i + 1] == '_')
  }

  /** `s` with its underscores taken out. */
  function WithoutUnderscores(s: string): (r: string)
    ensures |r| <= |s|
    ensures forall i :: 0 <= i < |r| ==> r[i] != '_'
    ensures (forall i :: 0 <= i < |s| ==> s[i] != '_') ==> r == s
  {
    if s == [] then []
    else if s[0] == '_' then WithoutUnderscores(s[1..])
    else [s[0]] + WithoutUnderscores(s[1..])
  }

  /** `int(text, base)` for 2 <= base <= 16: surrounding whitespace is
      ignored, then an optional sign, an optional base prefix, and at least
      one digit, with underscores as separators; anything else raises
      (`None`). */
  function ParseInt(text: string, base: nat): (r: Option<int>)
    ensures r.Some? ==> text != []
    ensures r.Some? && r.value < 0 ==> '-' in text
  {
    PyText.StripIsSlice(text, |text| - |PyText.TrimLeft(text)|);
    ParseSigned(PyText.Strip(text), base)
  }

  /** The stripped text: an optional sign, then the magnitude. */
  function ParseSigned(t: string, base: nat): Option<int>
  {
    var unsigned := if t != [] && (t[0] == '+' || t[0] == '-') then t[1..] else t;
    match ParseMagnitude(unsigned, base)
    case Some(v) => Some(if t != [] && t[0] == '-' then -(v as int) else v)
    case None => None
  }

  /** After the sign: an optional base prefix, then digits and underscores. */
  function ParseMagnitude(u: string, base: nat): Option<nat>
  {
    var p := PrefixLength(u, base);
    var body := u[p..];
    if body == [] || !UnderscoresPlaced(body, p > 0) then None
    else match DigitsOf(WithoutUnderscores(body), base)
      case Some(ds) => Some(DigitsValue(ds, base))
      case None => None
  }

  /** Digits alone carry no sign, no base prefix and no underscore. */
  lemma PlainDigits(s: string, base: nat)
    requires 2 <= base <= 16 && s != []
    requires forall i :: 0 <= i < |s| ==> DigitValue(s[i], base).Some?
    ensures s[0] != '+' && s[0] != '-' && PrefixLength(s, base) == 0 && s[0..] == s
    ensures UnderscoresPlaced(s, false) && WithoutUnderscores(s) == s
  {
    assert DigitValue(s[0], base).Some?;
    if |s| >= 2 {
      assert DigitValue(s[1], base).Some?;
    }
    forall i | 0 <= i < |s| ensures s[i] != '_' {
      assert DigitValue(s[i], base).Some?;
    }
  }

  lemma SignedNoSpace(s: string, neg: bool)
    requires PyText.NoSpace(s)
    ensures PyText.NoSpace((if neg then "-" else "") + s)
  {
    var t := (if neg then "-" else "") + s;
    forall i | 0 <= i < |t| ensures !PyText.IsSpace(t[i]) {
      if neg && i == 0 {
        assert t[i] == '-';
      } else {
        assert t[i] == s[if neg then i - 1 else i];
      }
    }
  }

  /** Text made only of digits, with or without a minus sign in front,
      reads as the number the digits spell, negated after the sign. */
  lemma ParseDigits(s: string, base: nat, neg: bool, n: nat)
    requires 2 <= base <= 16 && s != [] && PyText.NoSpace(s)
    requires forall i :: 0 <= i < |s| ==> DigitValue(s[i], base).Some?
    requires DigitsValue(DigitsOf(s, base).value, base) == n
    ensures ParseInt((if neg then "-" else "") + s, base) == Some(if neg then -(n as int) else n)
  {
    PlainDigits(s, base);
    DigitsMagnitude(s, base);
    SignedMagnitude(s, base, neg, n);
  }

  /** Digits alone are a magnitude worth what they spell. */
  lemma DigitsMagnitude(s: string, base: nat)
    requires 2 <= base <= 16 && s != []
    requires forall i :: 0 <= i < |s| ==> DigitValue(s[i], base).Some?
    ensures ParseMagnitude(s, base) == Some(DigitsValue(DigitsOf(s, base).value, base))
  {
    PlainDigits(s, base);
  }

  lemma {:induction false} DigitsValueOfDigits(n: nat, base: nat)
    requires 2 <= base
    ensures DigitsValue(Digits(n, base), base) == n
  {
    if n >= base {
      var q, r := n / base, n % base;
      assert Digits(n, base) == Digits(q, base) + [r];
      QuotientSmaller(n, base);
      DigitsValueOfDigits(q, base);
      AppendDigit(Digits(q, base), r, base);
      QuotientAndRemainder(n, base);
    }
  }

  /** Dividing by the base makes a number of at least one digit smaller. */
  lemma QuotientSmaller(n: nat, base: nat)
    requires 2 <= base <= n
    ensures n / base < n
  {
    var q := n / base;
    assert q * base <= n;
    MulMonotone(base, 2, q);
  }

  lemma QuotientAndRemainder(n: nat, base: nat)
    requires 0 < base
    ensures n == (n / base) * base + n % base
  {
  }

  /** One more digit at the end multiplies the value by the base and adds it. */
  lemma AppendDigit(ds: seq<nat>, d: nat, base: nat)
    ensures DigitsValue(ds + [d], base) == DigitsValue(ds, base) * base + d
  {
    assert (ds + [d])[..|ds|] == ds;
  }

  lemma {:induction false} ZerosValue(k: nat, base: nat)
    ensures DigitsOf(Zeros(k), base).Some? ==> DigitsValue(DigitsOf(Zeros(k), base).value, base) == 0
  {
    if k > 0 {
      var z := Zeros(k);
      if DigitsOf(z, base).Some? {
        var ds := DigitsOf(z, base).value;
        ZerosValue(k - 1, base);
        assert z[..k - 1] == Zeros(k - 1);
        DigitsOfPrefix(z, k - 1, base);
      }
    }
  }

  lemma DigitsOfPrefix(s: string, k: nat, base: nat)
    requires k <= |s| && DigitsOf(s, base).Some?
    ensures DigitsOf(s[..k], base) == Some(DigitsOf(s, base).value[..k])
  {
    var ds := DigitsOf(s, base).value;
    var p := DigitsOf(s[..k], base);
    assert p.Some?;
    assert p.value == ds[..k];
  }

  /** Leading zeros do not change the value `int()` reads. */
  lemma {:induction false} LeadingZerosValue(zs: seq<nat>, ds: seq<nat>, base: nat)
    requires forall i :: 0 <= i < |zs| ==> zs[i] == 0
    ensures DigitsValue(zs + ds, base) == DigitsValue(ds, base)
  {
    if ds == [] {
      assert zs + ds == zs;
      AllZerosValue(zs, base);
    } else {
      var last := |ds| - 1;
      assert (zs + ds)[..|zs + ds| - 1] == zs + ds[..last];
      LeadingZerosValue(zs, ds[..last], base);
    }
  }

  lemma {:induction false} AllZerosValue(zs: seq<nat>, base: nat)
    requires forall i :: 0 <= i < |zs| ==> zs[i] == 0
    ensures DigitsValue(zs, base) == 0
  {
    if zs != [] {
      AllZerosValue(zs[..|zs| - 1], base);
    }
  }

  /** The characters of a zero-filled number are digits, never whitespace. */
  lemma ShownDigits(n: nat, base: nat, w: nat)
    requires 2 <= base <= 16
    ensures var t := ToText(n, base); var s := ZFill(t, w);
      DigitsOf(s, base) == Some(seq(|s| - |t|, i => 0) + Digits(n, base))
  {
    var t := ToText(n, base);
    var s := ZFill(t, w);
    var k := |s| - |t|;
    var wanted := seq(k, i => 0) + Digits(n, base);
    forall i | 0 <= i < |s| ensures DigitValue(s[i], base) == Some(wanted[i]) {
      if i >= k {
        assert s[i] == t[i - k];
      } else {
        assert s[i] == Zeros(k)[i];
      }
    }
    DigitsOfPointwise(s, wanted, base);
  }

  /** Text whose every character is the digit at the same place of `ds`. */
  lemma DigitsOfPointwise(s: string, ds: seq<nat>, base: nat)
    requires |ds| == |s|
    requires forall i :: 0 <= i < |s| ==> DigitValue(s[i], base) == Some(ds[i])
    ensures DigitsOf(s, base) == Some(ds)
  {
    var r := DigitsOf(s, base);
    assert r.Some?;
    assert forall i :: 0 <= i < |s| ==> r.value[i] == ds[i];
    assert r.value == ds;
  }

  lemma ShownHasNoSpace(n: nat, base: nat, w: nat)
    requires 2 <= base <= 16
    ensures PyText.NoSpace(ZFill(ToText(n, base), w))
  {
    var t := ToText(n, base);
    var s := ZFill(t, w);
    var k := |s| - |t|;
    forall i | 0 <= i < |s| ensures !PyText.IsSpace(s[i]) {
      if i >= k {
        assert s[i] == t[i - k];
      } else {
        assert s[i] == Zeros(k)[i];
      }
    }
  }

  /** `hex(v)`/`bin(v)`/`str(v)` without the prefix, upper-cased and
      `.zfill(w)`-ed; also `"%0wX" % v` in base 16. A negative number keeps
      its sign in front of the padding. */
  function ShowInt(v: int, base: nat, w: nat): (r: string)
    requires 2 <= base <= 16
    ensures |r| >= w && r != []
    ensures r[0] == '-' <==> v < 0
  {
    if v < 0 then "-" + ZFill(ToText(Abs(v), base), if w > 0 then w - 1 else 0)
    else ZFill(ToText(Abs(v), base), w)
  }

  function Abs(v: int): (m: nat)
    ensures m == v || m == -v
  {
    if v < 0 then -v else v
  }

  /** The digits a zero-filled number shows, and their value. */
  lemma ShownValue(n: nat, base: nat, w: nat)
    requires 2 <= base <= 16
    ensures var s := ZFill(ToText(n, base), w);
      s != [] && PyText.NoSpace(s) &&
      (forall i :: 0 <= i < |s| ==> DigitValue(s[i], base).Some?) &&
      DigitsValue(DigitsOf(s, base).value, base) == n
  {
    var t := ToText(n, base);
    var s := ZFill(t, w);
    var zs := seq(|s| - |t|, i => 0);
    ShownHasNoSpace(n, base, w);
    ShownDigits(n, base, w);
    assert DigitsOf(s, base) == Some(zs + Digits(n, base));
    assert |s| >= |t| >= 1;
    LeadingZerosValue(zs, Digits(n, base), base);
    DigitsValueOfDigits(n, base);
  }

  /** What `ZFill(ToText(n, base), w)` shows, `int(_, base)` reads back as `n`. */
  lemma ParseShownNumber(n: nat, base: nat, w: nat)
    requires 2 <= base <= 16
    ensures ParseInt(ZFill(ToText(n, base), w), base) == Some(n)
  {
    var s := ZFill(ToText(n, base), w);
    ShownValue(n, base, w);
    ParseDigits(s, base, false, n);
    assert "" + s == s;
  }

  /** A negative number shown with its sign reads back too. */
  lemma ParseShownNegative(n: nat, base: nat, w: nat)
    requires 2 <= base <= 16
    ensures ParseInt("-" + ZFill(ToText(n, base), w), base) == Some(-(n as int))
  {
    var s := ZFill(ToText(n, base), w);
    ShownValue(n, base, w);
    ParseDigits(s, base, true, n);
  }

  /** Whatever number a value field shows, `int(_, base)` reads back. */
  lemma ParseShownInt(v: int, base: nat, w: nat)
    requires 2 <= base <= 16
    ensures ParseInt(ShowInt(v, base, w), base) == Some(v)
  {
    if v < 0 {
      ParseShownNegative(Abs(v), base, if w > 0 then w - 1 else 0);
    } else {
      ParseShownNumber(Abs(v), base, w);
    }
  }

  /** `hex(v)`: the sign, `0x`, then the digits. Python writes the letters
      in lower case; `int(_, 16)` reads either case, so upper case is kept. */
  function HexLiteral(v: int): (r: string)
    ensures v < 0 ==> |r| >= 4 && r[..3] == "-0x"
    ensures v >= 0 ==> |r| >= 3 && r[..2] == "0x"
  {
    (if v < 0 then "-" else "") + ("0x" + ToText(Abs(v), 16))
  }

  /** `int(hex(v), 16) == v`: the prefix is skipped and the digits read back. */
  lemma ParseHexLiteral(v: int)
    ensures ParseInt(HexLiteral(v), 16) == Some(v)
  {
    ParseHexDigits(Abs(v), v < 0);
  }

  lemma ParseHexDigits(n: nat, neg: bool)
    ensures ParseInt((if neg then "-" else "") + ("0x" + ToText(n, 16)), 16) ==
            Some(if neg then -(n as int) else n)
  {
    var s := ToText(n, 16);
    ShownValue(n, 16, 0);
    assert ZFill(s, 0) == s;
    PrefixedDigits(s, n);
    SignedMagnitude("0x" + s, 16, neg, n);
  }

  /** Digits after `0x` read as the number they spell. */
  lemma PrefixedDigits(s: string, n: nat)
    requires s != [] && PyText.NoSpace(s)
    requires forall i :: 0 <= i < |s| ==> DigitValue(s[i], 16).Some?
    requires DigitsValue(DigitsOf(s, 16).value, 16) == n
    ensures var u := "0x" + s; PyText.NoSpace(u) && u[0] == '0' && ParseMagnitude(u, 16) == Some(n)
  {
    var u := "0x" + s;
    PlainDigits(s, 16);
    PrefixNoSpace(s);
    assert u[0] == '0' && u[1] == 'x' && u[2..] == s;
    assert PrefixLength(u, 16) == 2;
    assert UnderscoresPlaced(s, true);
    assert DigitsOf(WithoutUnderscores(s), 16) == DigitsOf(s, 16);
  }

  lemma PrefixNoSpace(s: string)
    requires PyText.NoSpace(s)
    ensures PyText.NoSpace("0x" + s)
  {
    var u := "0x" + s;
    forall i | 0 <= i < |u| ensures !PyText.IsSpace(u[i]) {
      if i >= 2 {
        assert u[i] == s[i - 2];
      }
    }
  }

  /** A magnitude without sign or spaces, with or without a minus sign in
      front, reads as its value, negated after the sign. */
  lemma SignedMagnitude(u: string, base: nat, neg: bool, n: nat)
    requires u != [] && u[0] != '+' && u[0] != '-' && PyText.NoSpace(u)
    requires ParseMagnitude(u, base) == Some(n)
    ensures ParseInt((if neg then "-" else "") + u, base) == Some(if neg then -(n as int) else n)
  {
    var t := (if neg then "-" else "") + u;
    SignedNoSpace(u, neg);
    PyText.StripKeepsClean(t);
    assert t[0] == '-' <==> neg;
    assert (if t[0] == '+' || t[0] == '-' then t[1..] else t) == u;
  }

  function Pow(b: nat, k: nat): nat
  {
    if k == 0 then 1 else b * Pow(b, k - 1)
  }

  lemma MulMonotone(q: nat, m: nat, b: nat)
    requires m <= q
    ensures m * b <= q * b
  {
    assert q * b == m * b + (q - m) * b;
  }

  lemma DivBelow(n: nat, b: nat, m: nat)
    requires 0 < b && n < m * b
    ensures n / b < m
  {
    var q := n / b;
    assert q * b <= n;
    if m <= q {
      MulMonotone(q, m, b);
      assert false;
    }
  }

  /** Below `base^k` (k >= 1), a number has at most k digits. */
  lemma {:induction false} DigitsBound(n: nat, base: nat, k: nat)
    requires 2 <= base && 1 <= k && n < Pow(base, k)
    ensures |Digits(n, base)| <= k
  {
    if n >= base {
      assert k != 1;
      assert Pow(base, k) == Pow(base, k - 1) * base;
      DivBelow(n, base, Pow(base, k - 1));
      DigitsBound(n / base, base, k - 1);
    }
  }
}
