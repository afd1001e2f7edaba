/** `NumberValidator`: the key filter of the editor's number fields. Only
    the characters of one set may be typed; control keys pass through. */
module Validator {
  import NumberText

  /** The character sets of `VALID_TYPES`. */
  const HEX_CHARS: string := "0123456789ABCDEFabcdef"
  const DEC_CHARS: string := "0123456789"
  const BIN_CHARS: string := "01"

  /** wx key codes. */
  const WXK_SPACE: int := 32
  const WXK_DELETE: int := 127

  /** A validator is its set of allowed characters, fixed when it is made. */
  datatype NumberValidator = NumberValidator(allowChars: string)

  /** `event.Skip()` hands a key on to the field; otherwise it is swallowed. */
  datatype KeyVerdict = PassOn | Swallow

  /** Text made only of allowed characters. */
  predicate Accepts(v: NumberValidator, text: string)
  {
    forall i :: 0 <= i < |text| ==> text[i] in v.allowChars
  }

  /** `Validate(win)` on the window's text: false at the first character
      outside the set, true otherwise (so the empty text validates). */
  method Validate(v: NumberValidator, text: string) returns (ok: bool)
    ensures ok <==> Accepts(v, text)
  {
    for i := 0 to |text|
      invariant forall k :: 0 <= k < i ==> text[k] in v.allowChars
    {
      if text[i] !in v.allowChars {
        return false;
      }
    }
    return true;
  }

  /** `OnChar(event)`: keys below space, Delete and keys above 255 pass
      through; any other key passes only when its character is allowed. */
  function OnChar(v: NumberValidator, key: int): (r: KeyVerdict)
    ensures r == Swallow <==>
      WXK_SPACE <= key <= 255 && key != WXK_DELETE && key as char !in v.allowChars
  {
    if key < WXK_SPACE || key == WXK_DELETE || key > 255 then PassOn
    else if key as char in v.allowChars then PassOn
    else Swallow
  }

  /** A key that types a character passes exactly when the character is
      allowed, so typing keeps a field's text accepted wherever the
      character goes in. */
  lemma TypingKeepsAccepted(v: NumberValidator, text: string, at: nat, key: int)
    requires Accepts(v, text) && at <= |text|
    requires WXK_SPACE <= key <= 255 && key != WXK_DELETE
    ensures OnChar(v, key) == PassOn <==> key as char in v.allowChars
    ensures OnChar(v, key) == PassOn ==> Accepts(v, text[..at] + [key as char] + text[at..])
  {
    var t := text[..at] + [key as char] + text[at..];
    if OnChar(v, key) == PassOn {
      forall i | 0 <= i < |t| ensures t[i] in v.allowChars {
        if i < at {
          assert t[i] == text[i];
        } else if i > at {
          assert t[i] == text[i - 1];
        }
      }
    }
  }

  /** `Clone()`: a validator over the same characters. */
  function Clone(v: NumberValidator): (c: NumberValidator)
    ensures c.allowChars == v.allowChars
  {
    NumberValidator(v.allowChars)
  }

  /** A clone accepts the same texts and lets the same keys through. */
  lemma CloneAgrees(v: NumberValidator, text: string, key: int)
    ensures Accepts(Clone(v), text) <==> Accepts(v, text)
    ensures OnChar(Clone(v), key) == OnChar(v, key)
  {
  }

  /** The three sets are exactly the digits of base 16 (either case), 10
      and 2 as `int(text, base)` reads them. */
  lemma SetsAreDigits(c: char)
    ensures c in HEX_CHARS <==> NumberText.DigitValue(c, 16).Some?
    ensures c in DEC_CHARS <==> NumberText.DigitValue(c, 10).Some?
    ensures c in BIN_CHARS <==> NumberText.DigitValue(c, 2).Some?
  {
    if NumberText.DigitValue(c, 16).Some? {
      var d := NumberText.DigitValue(c, 16).value;
      if d < 10 {
        assert c == DEC_CHARS[d] && c == HEX_CHARS[d];
        if d < 2 {
          assert c == BIN_CHARS[d];
        }
      } else if 'a' <= c <= 'f' {
        assert c == HEX_CHARS[d + 6];
      } else {
        assert c == HEX_CHARS[d];
      }
    }
  }
}
