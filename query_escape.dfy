/**
 * Go's `url.QueryUnescape` over a byte string (each `char` stands for one
 * byte, so every char is below 256), with `url.QueryEscape` as its inverse.
 */
module QueryEscape {
  import opened Common
  import Hex

  /** Every character is one byte of a Go string. */
  predicate IsByteString(s: string)
  {
    forall i :: 0 <= i < |s| ==> s[i] as int < 0x100
  }

  predicate IsHexDigit(c: char)
  {
    Hex.DigitValue(c).Some?
  }

  /**
   * `url.QueryUnescape`: `+` becomes a space, `%XX` becomes the byte `XX`
   * (either case), any other byte is copied; a `%` without two hexadecimal
   * digits after it is an error (`None`).
   */
  function Unescape(s: string): (r: Option<string>)
    ensures r.Some? ==> |r.value| <= |s|
    decreases |s|
  {
    if |s| == 0 then Some("")
    else if s[0] == '%' then
      if |s| < 3 || !IsHexDigit(s[1]) || !IsHexDigit(s[2]) then None
      else
        match Unescape(s[3..])
        case None => None
        case Some(rest) =>
          Some([(Hex.DigitValue(s[1]).value * 16 + Hex.DigitValue(s[2]).value) as char] + rest)
    else
      match Unescape(s[1..])
      case None => None
      case Some(rest) => Some([if s[0] == '+' then ' ' else s[0]] + rest)
  }

  /** A `%` at `i` that does not start an escape: fewer than two characters follow it, or one of them is not a hexadecimal digit. */
  predicate BadEscapeAt(s: string, i: nat)
    requires i < |s|
  {
    s[i] == '%' && (i + 2 >= |s| || !IsHexDigit(s[i + 1]) || !IsHexDigit(s[i + 2]))
  }

  /**
   * Unescaping fails exactly when some `%` does not start an escape. Every
   * `%` is looked at, since the two digits of an escape are never `%`.
   */
  lemma {:induction false} UnescapeFails(s: string)
    ensures Unescape(s).None? <==> exists i :: 0 <= i < |s| && BadEscapeAt(s, i)
    decreases |s|
  {
    if |s| == 0 {
    } else if BadEscapeAt(s, 0) {
    } else {
      var k := if s[0] == '%' then 3 else 1;
      var t := s[k..];
      UnescapeFails(t);
      if exists i :: 0 <= i < |t| && BadEscapeAt(t, i) {
        var i :| 0 <= i < |t| && BadEscapeAt(t, i);
        assert BadEscapeAt(s, i + k);
      }
      if exists i :: 0 <= i < |s| && BadEscapeAt(s, i) {
        var i :| 0 <= i < |s| && BadEscapeAt(s, i);
        assert Hex.DigitValue('%').None?;
        assert i >= k;
        assert BadEscapeAt(t, i - k);
      }
    }
  }

  /** The subscription suffix as the push-only handler sees it: the error is dropped, leaving `""`. */
  function UnescapeOrEmpty(s: string): (r: string)
    ensures Unescape(s).None? ==> r == ""
    ensures Unescape(s).Some? ==> r == Unescape(s).value
  {
    match Unescape(s)
    case None => ""
    case Some(t) => t
  }

  /** Bytes `url.QueryEscape` leaves alone: letters, digits and `-_.~`. */
  predicate IsUnreserved(c: char)
  {
    ('a' <= c <= 'z') || ('A' <= c <= 'Z') || ('0' <= c <= '9') ||
    c == '-' || c == '_' || c == '.' || c == '~'
  }

  const UpperDigits: string := "0123456789ABCDEF"

  /** `url.QueryEscape`: a space becomes `+`, every other reserved byte `%XX` in upper case. */
  function Escape(s: string): string
    requires IsByteString(s)
  {
    if |s| == 0 then ""
    else
      EscapeByte(s[0]) + Escape(s[1..])
  }

  /** The escaped form of one byte. */
  function EscapeByte(c: char): string
    requires c as int < 0x100
  {
    if IsUnreserved(c) then [c]
    else if c == ' ' then "+"
    else ['%', UpperDigits[c as int / 16], UpperDigits[c as int % 16]]
  }

  /** Unescaping undoes escaping, so every byte string can be carried in the suffix. */
  lemma {:induction false} UnescapeEscape(s: string)
    requires IsByteString(s)
    ensures Unescape(Escape(s)) == Some(s)
  {
    if |s| > 0 {
      UnescapeEscape(s[1..]);
      UnescapeHead(s[0], Escape(s[1..]), s[1..]);
      assert s == [s[0]] + s[1..];
    }
  }

  /** One escaped byte in front of a correctly unescaping tail. */
  lemma UnescapeHead(c: char, tail: string, t: string)
    requires c as int < 0x100
    requires Unescape(tail) == Some(t)
    ensures Unescape(EscapeByte(c) + tail) == Some([c] + t)
  {
    if IsUnreserved(c) || c == ' ' {
      assert (EscapeByte(c) + tail)[1..] == tail;
    } else {
      UnescapePercent(c, tail, t);
    }
  }

  /** A reserved byte's `%XX` in front of a correctly unescaping tail. */
  lemma UnescapePercent(c: char, tail: string, t: string)
    requires c as int < 0x100 && !IsUnreserved(c) && c != ' '
    requires Unescape(tail) == Some(t)
    ensures Unescape(EscapeByte(c) + tail) == Some([c] + t)
  {
    var hi, lo := c as int / 16, c as int % 16;
    var s := EscapeByte(c) + tail;
    assert s == ['%', UpperDigits[hi], UpperDigits[lo]] + tail;
    assert s[3..] == tail;
    UpperDigitValue(hi);
    UpperDigitValue(lo);
    assert (hi * 16 + lo) as char == c;
  }

  /** An upper-case digit reads back as its value. */
  lemma UpperDigitValue(d: nat)
    requires d < 16
    ensures Hex.DigitValue(UpperDigits[d]) == Some(d)
  {
  }

  /** Text without `%` or `+` unescapes to itself. */
  lemma {:induction false} UnescapePlain(s: string)
    requires forall i :: 0 <= i < |s| ==> s[i] != '%' && s[i] != '+'
    ensures Unescape(s) == Some(s)
  {
    if |s| > 0 {
      UnescapePlain(s[1..]);
      assert s == [s[0]] + s[1..];
    }
  }
}
