/**
 * Base64 as defined in section 4 of RFC 4648 (the alphabet of its Table 1, with `=` padding),
 * which is what `Buffer.toString("base64")` writes. Every three bytes become four characters;
 * a final group of one or two bytes becomes two or three characters followed by `==` or `=`.
 */
module Base64 {
  import opened Basics

  const Pad: char := '='

  predicate IsAlphabetChar(c: char) {
    'A' <= c <= 'Z' || 'a' <= c <= 'z' || '0' <= c <= '9' || c == '+' || c == '/'
  }

  /** Table 1 of RFC 4648: the character that stands for the 6-bit value `v`. */
  function Char(v: int): (c: char)
    requires 0 <= v < 64
    ensures IsAlphabetChar(c)
  {
    if v < 26 then ('A' as int + v) as char
    else if v < 52 then ('a' as int + (v - 26)) as char
    else if v < 62 then ('0' as int + (v - 52)) as char
    else if v == 62 then '+'
    else '/'
  }

  function Value(c: char): (v: int)
    requires IsAlphabetChar(c)
    ensures 0 <= v < 64
  {
    if 'A' <= c <= 'Z' then c as int - 'A' as int
    else if 'a' <= c <= 'z' then c as int - 'a' as int + 26
    else if '0' <= c <= '9' then c as int - '0' as int + 52
    else if c == '+' then 62
    else 63
  }

  lemma CharOfValue(c: char)
    requires IsAlphabetChar(c)
    ensures Char(Value(c)) == c
  {
  }

  lemma ValueOfChar(v: int)
    requires 0 <= v < 64
    ensures Value(Char(v)) == v
  {
  }

  /** Three bytes, 24 bits, as four 6-bit characters, most significant first. */
  function EncodeGroup(a: byte, b: byte, c: byte): string {
    [ Char(a as int / 4),
      Char(a as int % 4 * 16 + b as int / 16),
      Char(b as int % 16 * 4 + c as int / 64),
      Char(c as int % 64) ]
  }

  /** The encoding of n bytes has 4 * ceil(n / 3) characters. */
  function Encode(data: seq<byte>): (s: string)
    ensures |s| == 4 * ((|data| + 2) / 3)
    decreases |data|
  {
    if |data| == 0 then ""
    else if |data| == 1 then
      [Char(data[0] as int / 4), Char(data[0] as int % 4 * 16), Pad, Pad]
    else if |data| == 2 then
      [Char(data[0] as int / 4), Char(data[0] as int % 4 * 16 + data[1] as int / 16), Char(data[1] as int % 16 * 4), Pad]
    else
      EncodeGroup(data[0], data[1], data[2]) + Encode(data[3..])
  }

  /** The number of `=` characters that end the encoding of `n` bytes. */
  function PadLength(n: nat): nat {
    if n % 3 == 0 then 0 else 3 - n % 3
  }

  function DecodeGroup(c0: char, c1: char, c2: char, c3: char): Option<seq<byte>> {
    if IsAlphabetChar(c0) && IsAlphabetChar(c1) && IsAlphabetChar(c2) && IsAlphabetChar(c3) then
      var v0, v1, v2, v3 := Value(c0), Value(c1), Value(c2), Value(c3);
      Some([(v0 * 4 + v1 / 16) as byte, (v1 % 16 * 16 + v2 / 4) as byte, (v2 % 4 * 64 + v3) as byte])
    else None
  }

  /**
   * The last group may be padded. Bits that padding leaves over must be zero, so that
   * every byte string has exactly one encoding.
   */
  function DecodeLastGroup(c0: char, c1: char, c2: char, c3: char): Option<seq<byte>> {
    if c2 == Pad && c3 == Pad then
      if IsAlphabetChar(c0) && IsAlphabetChar(c1) && Value(c1) % 16 == 0 then
        Some([(Value(c0) * 4 + Value(c1) / 16) as byte])
      else None
    else if c3 == Pad then
      if IsAlphabetChar(c0) && IsAlphabetChar(c1) && IsAlphabetChar(c2) && Value(c2) % 4 == 0 then
        Some([(Value(c0) * 4 + Value(c1) / 16) as byte, (Value(c1) % 16 * 16 + Value(c2) / 4) as byte])
      else None
    else DecodeGroup(c0, c1, c2, c3)
  }

  /** The inverse of Encode: accepts exactly the canonical padded encodings. */
  function Decode(s: string): Option<seq<byte>>
    decreases |s|
  {
    if |s| == 0 then Some([])
    else if |s| < 4 then None
    else if |s| == 4 then DecodeLastGroup(s[0], s[1], s[2], s[3])
    else
      match DecodeGroup(s[0], s[1], s[2], s[3])
      case None => None
      case Some(group) =>
        match Decode(s[4..])
        case None => None
        case Some(rest) => Some(group + rest)
  }

  lemma GroupRoundTrip(a: byte, b: byte, c: byte)
    ensures var g := EncodeGroup(a, b, c); DecodeGroup(g[0], g[1], g[2], g[3]) == Some([a, b, c])
  {
    var v0, v1, v2, v3 := a as int / 4, a as int % 4 * 16 + b as int / 16, b as int % 16 * 4 + c as int / 64, c as int % 64;
    ValueOfChar(v0); ValueOfChar(v1); ValueOfChar(v2); ValueOfChar(v3);
    assert v1 / 16 == a as int % 4 && v1 % 16 == b as int / 16;
    assert v2 / 4 == b as int % 16 && v2 % 4 == c as int / 64;
  }

  /** The last group written for one byte decodes back to it. */
  lemma OneByteGroup(d0: byte)
    ensures var v0, v1 := d0 as int / 4, d0 as int % 4 * 16;
      && 0 <= v0 < 64 && 0 <= v1 < 64
      && DecodeLastGroup(Char(v0), Char(v1), Pad, Pad) == Some([d0])
  {
    var v0, v1 := d0 as int / 4, d0 as int % 4 * 16;
    ValueOfChar(v0); ValueOfChar(v1);
    assert v1 / 16 == d0 as int % 4 && v1 % 16 == 0;
    assert v0 * 4 + v1 / 16 == d0 as int;
  }

  lemma OneByteRoundTrip(d0: byte)
    ensures Decode(Encode([d0])) == Some([d0])
  {
    OneByteGroup(d0);
    var s := [Char(d0 as int / 4), Char(d0 as int % 4 * 16), Pad, Pad];
    assert Encode([d0]) == s;
    assert Decode(s) == DecodeLastGroup(s[0], s[1], s[2], s[3]);
  }

  /** The last group written for two bytes decodes back to them. */
  lemma TwoBytesGroup(d0: byte, d1: byte)
    ensures var v0, v1, v2 := d0 as int / 4, d0 as int % 4 * 16 + d1 as int / 16, d1 as int % 16 * 4;
      && 0 <= v0 < 64 && 0 <= v1 < 64 && 0 <= v2 < 64
      && DecodeLastGroup(Char(v0), Char(v1), Char(v2), Pad) == Some([d0, d1])
  {
    var v0, v1, v2 := d0 as int / 4, d0 as int % 4 * 16 + d1 as int / 16, d1 as int % 16 * 4;
    ValueOfChar(v0); ValueOfChar(v1); ValueOfChar(v2);
    assert v1 / 16 == d0 as int % 4 && v1 % 16 == d1 as int / 16;
    assert v2 / 4 == d1 as int % 16 && v2 % 4 == 0;
    assert v0 * 4 + v1 / 16 == d0 as int;
    assert v1 % 16 * 16 + v2 / 4 == d1 as int;
  }

  lemma TwoBytesRoundTrip(d0: byte, d1: byte)
    ensures Decode(Encode([d0, d1])) == Some([d0, d1])
  {
    TwoBytesGroup(d0, d1);
    var s := [Char(d0 as int / 4), Char(d0 as int % 4 * 16 + d1 as int / 16), Char(d1 as int % 16 * 4), Pad];
    assert Encode([d0, d1]) == s;
    assert Decode(s) == DecodeLastGroup(s[0], s[1], s[2], s[3]);
  }

  /** Encoding a sequence that starts with a full group writes that group first. */
  lemma EncodeCons(group: seq<byte>, rest: seq<byte>)
    requires |group| == 3
    ensures Encode(group + rest) == EncodeGroup(group[0], group[1], group[2]) + Encode(rest)
  {
    assert (group + rest)[3..] == rest;
  }

  /** Decoding a string longer than one group decodes its first group, then the rest. */
  lemma DecodeCons(s: string, group: seq<byte>, rest: seq<byte>)
    requires |s| > 4
    requires DecodeGroup(s[0], s[1], s[2], s[3]) == Some(group) && Decode(s[4..]) == Some(rest)
    ensures Decode(s) == Some(group + rest)
  {
  }

  /** A lone full group decodes as the last group of a string. */
  lemma FullLastGroup(a: byte, b: byte, c: byte)
    ensures Decode(EncodeGroup(a, b, c)) == Some([a, b, c])
  {
    var g := EncodeGroup(a, b, c);
    GroupRoundTrip(a, b, c);
    assert g[2] != Pad && g[3] != Pad;
    assert Decode(g) == DecodeLastGroup(g[0], g[1], g[2], g[3]);
  }

  /** A string longer than one group decodes only if its first group and the rest both decode. */
  lemma DecodeUncons(s: string)
    requires |s| > 4 && Decode(s).Some?
    ensures DecodeGroup(s[0], s[1], s[2], s[3]).Some? && Decode(s[4..]).Some?
    ensures Decode(s).value == DecodeGroup(s[0], s[1], s[2], s[3]).value + Decode(s[4..]).value
  {
  }

  /** Decoding what Encode wrote gives back the bytes. */
  lemma {:induction false} DecodeEncode(data: seq<byte>)
    ensures Decode(Encode(data)) == Some(data)
    decreases |data|
  {
    if |data| == 1 {
      OneByteRoundTrip(data[0]);
      assert data == [data[0]];
    } else if |data| == 2 {
      TwoBytesRoundTrip(data[0], data[1]);
      assert data == [data[0], data[1]];
    } else if |data| >= 3 {
      var rest := data[3..];
      DecodeEncode(rest);
      GroupThenRest(data[0], data[1], data[2], rest);
      FirstThree(data);
    }
  }

  lemma FirstThree(data: seq<byte>)
    requires |data| >= 3
    ensures data == [data[0], data[1], data[2]] + data[3..]
  {
  }

  /** A full group in front of bytes that round-trip: the whole round-trips. */
  lemma GroupThenRest(a: byte, b: byte, c: byte, rest: seq<byte>)
    requires Decode(Encode(rest)) == Some(rest)
    ensures Decode(Encode([a, b, c] + rest)) == Some([a, b, c] + rest)
  {
    var group := [a, b, c];
    var g := EncodeGroup(a, b, c);
    EncodeCons(group, rest);
    GroupRoundTrip(a, b, c);
    var s := g + Encode(rest);
    if |rest| == 0 {
      assert s == g;
      assert group + rest == group;
      FullLastGroup(a, b, c);
    } else {
      assert s[4..] == Encode(rest);
      assert s[..4] == g;
      DecodeCons(s, group, rest);
    }
  }

  /** Two 6-bit values regrouped as bytes and back, in the three ways a group is cut. */
  lemma Regroup(v0: int, v1: int, v2: int, v3: int)
    requires 0 <= v0 < 64 && 0 <= v1 < 64 && 0 <= v2 < 64 && 0 <= v3 < 64
    ensures var a := v0 * 4 + v1 / 16; a / 4 == v0 && a % 4 * 16 + (v1 % 16 * 16 + v2 / 4) / 16 == v1
    ensures var b := v1 % 16 * 16 + v2 / 4; b % 16 * 4 + (v2 % 4 * 64 + v3) / 64 == v2
    ensures (v2 % 4 * 64 + v3) % 64 == v3
  {
  }

  lemma DecodeGroupReencodes(c0: char, c1: char, c2: char, c3: char)
    requires DecodeGroup(c0, c1, c2, c3).Some?
    ensures var g := DecodeGroup(c0, c1, c2, c3).value; EncodeGroup(g[0], g[1], g[2]) == [c0, c1, c2, c3]
  {
    var v0, v1, v2, v3 := Value(c0), Value(c1), Value(c2), Value(c3);
    CharOfValue(c0); CharOfValue(c1); CharOfValue(c2); CharOfValue(c3);
    Regroup(v0, v1, v2, v3);
    var g := DecodeGroup(c0, c1, c2, c3).value;
    assert g[0] as int == v0 * 4 + v1 / 16;
    assert g[1] as int == v1 % 16 * 16 + v2 / 4;
    assert g[2] as int == v2 % 4 * 64 + v3;
    var a, b, c := g[0] as int, g[1] as int, g[2] as int;
    assert a / 4 == v0;
    assert a % 4 * 16 + b / 16 == v1;
    assert b % 16 * 4 + c / 64 == v2;
    assert c % 64 == v3;
    assert EncodeGroup(g[0], g[1], g[2]) == [Char(v0), Char(v1), Char(v2), Char(v3)];
  }

  lemma OnePadReencodes(c0: char, c1: char, c2: char)
    requires DecodeLastGroup(c0, c1, c2, Pad).Some? && c2 != Pad
    ensures Encode(DecodeLastGroup(c0, c1, c2, Pad).value) == [c0, c1, c2, Pad]
  {
    var v0, v1, v2 := Value(c0), Value(c1), Value(c2);
    CharOfValue(c0); CharOfValue(c1); CharOfValue(c2);
    var a, b := v0 * 4 + v1 / 16, v1 % 16 * 16 + v2 / 4;
    assert a / 4 == v0 && a % 4 == v1 / 16;
    assert b / 16 == v1 % 16 && b % 16 * 4 == v2;
    assert a % 4 * 16 + b / 16 == v1;
    var data := DecodeLastGroup(c0, c1, c2, Pad).value;
    assert data == [a as byte, b as byte];
    assert Encode(data) == [Char(a / 4), Char(a % 4 * 16 + b / 16), Char(b % 16 * 4), Pad];
  }

  lemma TwoPadsReencode(c0: char, c1: char)
    requires DecodeLastGroup(c0, c1, Pad, Pad).Some?
    ensures Encode(DecodeLastGroup(c0, c1, Pad, Pad).value) == [c0, c1, Pad, Pad]
  {
    var v0, v1 := Value(c0), Value(c1);
    CharOfValue(c0); CharOfValue(c1);
    var a := v0 * 4 + v1 / 16;
    assert a / 4 == v0 && a % 4 * 16 == v1;
  }

  lemma LastGroupReencodes(s: string)
    requires |s| == 4 && Decode(s).Some?
    ensures Encode(Decode(s).value) == s
  {
    assert s == [s[0], s[1], s[2], s[3]];
    if s[2] == Pad && s[3] == Pad {
      TwoPadsReencode(s[0], s[1]);
    } else if s[3] == Pad {
      OnePadReencodes(s[0], s[1], s[2]);
    } else {
      DecodeGroupReencodes(s[0], s[1], s[2], s[3]);
      var g := DecodeGroup(s[0], s[1], s[2], s[3]).value;
      assert Encode(g) == EncodeGroup(g[0], g[1], g[2]) + Encode([]);
    }
  }

  lemma FirstGroup(s: string)
    requires |s| >= 4
    ensures s == [s[0], s[1], s[2], s[3]] + s[4..]
  {
  }

  lemma ReencodeStep(c0: char, c1: char, c2: char, c3: char, rest: seq<byte>)
    requires DecodeGroup(c0, c1, c2, c3).Some?
    ensures Encode(DecodeGroup(c0, c1, c2, c3).value + rest) == [c0, c1, c2, c3] + Encode(rest)
  {
    var group := DecodeGroup(c0, c1, c2, c3).value;
    DecodeGroupReencodes(c0, c1, c2, c3);
    EncodeCons(group, rest);
  }

  /** Only a canonical encoding decodes, so the encoding of the decoded bytes is the input itself. */
  lemma {:induction false} EncodeDecode(s: string)
    requires Decode(s).Some?
    ensures Encode(Decode(s).value) == s
    decreases |s|
  {
    if |s| == 4 {
      LastGroupReencodes(s);
    } else if |s| > 4 {
      DecodeUncons(s);
      EncodeDecode(s[4..]);
      ReencodeStep(s[0], s[1], s[2], s[3], Decode(s[4..]).value);
      FirstGroup(s);
    }
  }

  /** `p` padding characters end `s`, and every character before them is in the alphabet. */
  ghost predicate Shaped(s: string, p: nat) {
    && p <= |s|
    && (forall i | 0 <= i < |s| - p :: IsAlphabetChar(s[i]))
    && (forall i | |s| - p <= i < |s| :: s[i] == Pad)
  }

  lemma ShapedAppend(g: string, t: string, p: nat)
    requires Shaped(g, 0) && Shaped(t, p)
    ensures Shaped(g + t, p)
  {
    var u := g + t;
    forall i | 0 <= i < |u| - p
      ensures IsAlphabetChar(u[i])
    {
      if i >= |g| { assert u[i] == t[i - |g|]; }
    }
    forall i | |u| - p <= i < |u|
      ensures u[i] == Pad
    {
      assert u[i] == t[i - |g|];
    }
  }

  lemma OneByteShape(d0: byte)
    ensures Shaped(Encode([d0]), 2)
  {
    var s := [Char(d0 as int / 4), Char(d0 as int % 4 * 16), Pad, Pad];
    assert Encode([d0]) == s;
    assert IsAlphabetChar(s[0]) && IsAlphabetChar(s[1]);
  }

  lemma TwoBytesShape(d0: byte, d1: byte)
    ensures Shaped(Encode([d0, d1]), 1)
  {
    var s := [Char(d0 as int / 4), Char(d0 as int % 4 * 16 + d1 as int / 16), Char(d1 as int % 16 * 4), Pad];
    assert Encode([d0, d1]) == s;
    assert IsAlphabetChar(s[0]) && IsAlphabetChar(s[1]) && IsAlphabetChar(s[2]);
  }

  lemma ShortShape(data: seq<byte>)
    requires |data| < 3
    ensures Shaped(Encode(data), PadLength(|data|))
  {
    if |data| == 0 {
      assert Encode(data) == "";
    } else if |data| == 1 {
      OneByteShape(data[0]);
      assert data == [data[0]];
    } else {
      TwoBytesShape(data[0], data[1]);
      assert data == [data[0], data[1]];
    }
  }

  lemma GroupShape(a: byte, b: byte, c: byte)
    ensures Shaped(EncodeGroup(a, b, c), 0)
  {
  }

  lemma PadLengthStep(n: nat)
    ensures PadLength(n + 3) == PadLength(n)
  {
  }

  lemma EncodeUnfold(data: seq<byte>)
    requires |data| >= 3
    ensures Encode(data) == EncodeGroup(data[0], data[1], data[2]) + Encode(data[3..])
  {
  }

  /** Alphabet characters, then exactly PadLength(n) padding characters at the end. */
  lemma {:induction false} EncodedShape(data: seq<byte>)
    ensures Shaped(Encode(data), PadLength(|data|))
    decreases |data|
  {
    if |data| < 3 {
      ShortShape(data);
    } else {
      var g, t := EncodeGroup(data[0], data[1], data[2]), Encode(data[3..]);
      EncodedShape(data[3..]);
      GroupShape(data[0], data[1], data[2]);
      PadLengthStep(|data[3..]|);
      ShapedAppend(g, t, PadLength(|data[3..]|));
      EncodeUnfold(data);
    }
  }

  /** No character of an encoding is a comma, so it can follow a comma-terminated header. */
  lemma EncodedHasNoComma(data: seq<byte>)
    ensures forall i | 0 <= i < |Encode(data)| :: Encode(data)[i] != ','
  {
    EncodedShape(data);
    var s := Encode(data);
    forall i | 0 <= i < |s|
      ensures s[i] != ','
    {
      if i < |s| - PadLength(|data|) {
        assert IsAlphabetChar(s[i]);
      }
    }
  }
}
