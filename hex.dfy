/** Lower-case hexadecimal, as `Buffer.toString("hex")` writes it: two digits per byte, high nibble first. */
module Hex {
  import opened Basics

  predicate IsDigit(c: char) {
    '0' <= c <= '9' || 'a' <= c <= 'f'
  }

  function Digit(v: int): (c: char)
    requires 0 <= v < 16
    ensures IsDigit(c)
  {
    if v < 10 then ('0' as int + v) as char else ('a' as int + (v - 10)) as char
  }

  function DigitValue(c: char): (v: int)
    requires IsDigit(c)
    ensures 0 <= v < 16 && Digit(v) == c
  {
    if c <= '9' then c as int - '0' as int else c as int - 'a' as int + 10
  }

  function Encode(data: seq<byte>): (s: string)
    ensures |s| == 2 * |data|
    ensures forall i | 0 <= i < |s| :: IsDigit(s[i])
  {
    if |data| == 0 then ""
    else [Digit(data[0] as int / 16), Digit(data[0] as int % 16)] + Encode(data[1..])
  }

  /** The inverse of Encode: accepts exactly the even-length strings of lower-case digits. */
  function Decode(s: string): (r: Option<seq<byte>>)
  {
    if |s| == 0 then Some([])
    else if |s| == 1 || !IsDigit(s[0]) || !IsDigit(s[1]) then None
    else
      match Decode(s[2..])
      case None => None
      case Some(rest) => Some([(DigitValue(s[0]) * 16 + DigitValue(s[1])) as byte] + rest)
  }

  lemma {:induction false} DecodeEncode(data: seq<byte>)
    ensures Decode(Encode(data)) == Some(data)
  {
    if |data| > 0 {
      var s := Encode(data);
      assert s[2..] == Encode(data[1..]);
      DecodeEncode(data[1..]);
      assert [data[0]] + data[1..] == data;
    }
  }

  /** The two digits of a byte decode to it and are written back unchanged. */
  lemma DigitsRoundTrip(c0: char, c1: char)
    requires IsDigit(c0) && IsDigit(c1)
    ensures var b := DigitValue(c0) * 16 + DigitValue(c1);
      && 0 <= b < 256 && Digit(b / 16) == c0 && Digit(b % 16) == c1
  {
    var hi, lo := DigitValue(c0), DigitValue(c1);
    assert (hi * 16 + lo) / 16 == hi && (hi * 16 + lo) % 16 == lo;
  }

  lemma EncodeCons(b: byte, rest: seq<byte>)
    ensures Encode([b] + rest) == [Digit(b as int / 16), Digit(b as int % 16)] + Encode(rest)
  {
    assert ([b] + rest)[1..] == rest;
  }

  lemma {:induction false} EncodeDecode(s: string)
    requires Decode(s).Some?
    ensures Encode(Decode(s).value) == s
  {
    if |s| > 0 {
      var rest := Decode(s[2..]).value;
      EncodeDecode(s[2..]);
      DigitsRoundTrip(s[0], s[1]);
      var b := (DigitValue(s[0]) * 16 + DigitValue(s[1])) as byte;
      assert Decode(s).value == [b] + rest;
      EncodeCons(b, rest);
      assert [s[0], s[1]] + s[2..] == s;
    }
  }

  /** Distinct byte strings never share an encoding, so keys derived from distinct random values never collide. */
  lemma EncodeInjective(a: seq<byte>, b: seq<byte>)
    requires Encode(a) == Encode(b)
    ensures a == b
  {
    DecodeEncode(a);
    DecodeEncode(b);
  }
}
