/** Go's `hex.EncodeToString`, with a decoder as its inverse. */
module Hex {
  import opened Common

  /** The digit alphabet `hex.EncodeToString` writes: lower-case only. */
  const Digits: string := "0123456789abcdef"

  predicate IsLowerHexDigit(c: char)
  {
    ('0' <= c <= '9') || ('a' <= c <= 'f')
  }

  /** The value of one hexadecimal digit, either case (Go's `unhex`). */
  function DigitValue(c: char): Option<nat>
  {
    if '0' <= c <= '9' then Some(c as int - '0' as int)
    else if 'a' <= c <= 'f' then Some(c as int - 'a' as int + 10)
    else if 'A' <= c <= 'F' then Some(c as int - 'A' as int + 10)
    else None
  }

  /** The two lower-case digits of one byte, high nibble first. */
  function EncodeByte(b: byte): (r: string)
    ensures |r| == 2 && IsLowerHexDigit(r[0]) && IsLowerHexDigit(r[1])
    ensures DigitValue(r[0]) == Some(b / 16) && DigitValue(r[1]) == Some(b % 16)
  {
    [Digits[b / 16], Digits[b % 16]]
  }

  /**
   * `hex.EncodeToString`: two lower-case digits per byte, so the text is
   * twice as long as the input and uses only `0-9a-f`.
   */
  function Encode(bytes: seq<byte>): (r: string)
    ensures |r| == 2 * |bytes|
    ensures forall i :: 0 <= i < |r| ==> IsLowerHexDigit(r[i])
  {
    if |bytes| == 0 then ""
    else EncodeByte(bytes[0]) + Encode(bytes[1..])
  }

  /** Reads pairs of hexadecimal digits back into bytes; `None` on odd length or a non-digit. */
  function Decode(s: string): Option<seq<byte>>
    decreases |s|
  {
    if |s| == 0 then Some([])
    else if |s| == 1 then None
    else
      match (DigitValue(s[0]), DigitValue(s[1]), Decode(s[2..]))
      case (Some(hi), Some(lo), Some(rest)) =>
        if hi < 16 && lo < 16 then Some([(hi * 16 + lo) as byte] + rest) else None
      case _ => None
  }

  /** Decoding the encoding gives back the session bytes: the encoding loses nothing. */
  lemma {:induction false} DecodeEncode(bytes: seq<byte>)
    ensures Decode(Encode(bytes)) == Some(bytes)
  {
    if |bytes| > 0 {
      DecodeEncode(bytes[1..]);
      DecodeByte(bytes[0], Encode(bytes[1..]), bytes[1..]);
      assert [bytes[0]] + bytes[1..] == bytes;
    }
  }

  /** One byte's digits in front of decodable text decode to that byte in front. */
  lemma DecodeByte(b: byte, t: string, rest: seq<byte>)
    requires Decode(t) == Some(rest)
    ensures Decode(EncodeByte(b) + t) == Some([b] + rest)
  {
    var e := EncodeByte(b);
    assert (e + t)[2..] == t;
    assert (e + t)[0] == e[0] && (e + t)[1] == e[1];
    assert b / 16 * 16 + b % 16 == b as int;
  }

  /** Different session bytes give different session identifiers. */
  lemma EncodeInjective(a: seq<byte>, b: seq<byte>)
    requires Encode(a) == Encode(b)
    ensures a == b
  {
    DecodeEncode(a);
    DecodeEncode(b);
  }
}
