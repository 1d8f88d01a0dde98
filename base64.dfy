/** Base 64 encoding as defined in section 4 of RFC 4648 (the alphabet of its
    Table 1, with `=` padding), and the browser's `btoa`, which applies it to a
    string whose every character is a Latin-1 code point (at most 0xFF) and
    throws on any other string.

    The worker only ever encodes; `Decode` is the inverse that the proofs use to
    show that the encoding, and hence the cache key built from it, is injective. */
module Base64 {

  import opened Wrappers

  type Byte = x: int | 0 <= x < 256

  /** A byte string: the input of the encoding, and the body of an image. */
  type Bytes = seq<Byte>

  /** A 6-bit group: the value that one output character stands for. */
  type Sextet = x: int | 0 <= x < 64

  const Pad: char := '='

  /** Table 1 of RFC 4648: the character that encodes value `v`. */
  function Letter(v: Sextet): char
  {
    if v < 26 then ('A' as int + v) as char
    else if v < 52 then ('a' as int + (v - 26)) as char
    else if v < 62 then ('0' as int + (v - 52)) as char
    else if v == 62 then '+'
    else '/'
  }

  /** The value a character of the alphabet stands for; `None` for any other
      character, the pad character included. */
  function ValueOf(c: char): (r: Option<Sextet>)
    ensures r.Some? ==> Letter(r.value) == c
  {
    if 'A' <= c <= 'Z' then Some(c as int - 'A' as int)
    else if 'a' <= c <= 'z' then Some(c as int - 'a' as int + 26)
    else if '0' <= c <= '9' then Some(c as int - '0' as int + 52)
    else if c == '+' then Some(62)
    else if c == '/' then Some(63)
    else None
  }

  lemma ValueOfLetter(v: Sextet)
    ensures ValueOf(Letter(v)) == Some(v)
  {
  }

  predicate InAlphabet(c: char)
  {
    ValueOf(c).Some?
  }

  /** The four 6-bit groups of the 24 bits `b0 b1 b2`, most significant first. */
  function HighSextet(b0: Byte): Sextet { b0 / 4 }
  function SecondSextet(b0: Byte, b1: Byte): Sextet { b0 % 4 * 16 + b1 / 16 }
  function ThirdSextet(b1: Byte, b2: Byte): Sextet { b1 % 16 * 4 + b2 / 64 }
  function LowSextet(b2: Byte): Sextet { b2 % 64 }

  /** The four characters of one complete 24-bit group (RFC 4648 section 4, first case). */
  function EncodeGroup(b0: Byte, b1: Byte, b2: Byte): (s: string)
    ensures |s| == 4 && forall i :: 0 <= i < 4 ==> InAlphabet(s[i])
  {
    ValueOfLetter(HighSextet(b0));
    ValueOfLetter(SecondSextet(b0, b1));
    ValueOfLetter(ThirdSextet(b1, b2));
    ValueOfLetter(LowSextet(b2));
    [Letter(HighSextet(b0)), Letter(SecondSextet(b0, b1)), Letter(ThirdSextet(b1, b2)), Letter(LowSextet(b2))]
  }

  /** Section 4 of RFC 4648: every 3 input bytes give 4 characters; a final group
      of 1 or 2 bytes is filled with zero bits and padded with `==` or `=`. */
  function Encode(b: seq<Byte>): (s: string)
    ensures |s| == 4 * ((|b| + 2) / 3)
    ensures forall i :: 0 <= i < |s| ==> InAlphabet(s[i]) || s[i] == Pad
    decreases |b|
  {
    if |b| == 0 then ""
    else if |b| == 1 then
      ValueOfLetter(HighSextet(b[0]));
      ValueOfLetter(SecondSextet(b[0], 0));
      [Letter(HighSextet(b[0])), Letter(SecondSextet(b[0], 0)), Pad, Pad]
    else if |b| == 2 then
      ValueOfLetter(HighSextet(b[0]));
      ValueOfLetter(SecondSextet(b[0], b[1]));
      ValueOfLetter(ThirdSextet(b[1], 0));
      [Letter(HighSextet(b[0])), Letter(SecondSextet(b[0], b[1])), Letter(ThirdSextet(b[1], 0)), Pad]
    else
      EncodeGroup(b[0], b[1], b[2]) + Encode(b[3..])
  }

  /** The first byte of a group: the 6 bits of `v0` and the high 2 bits of `v1`. */
  function FirstByte(v0: Sextet, v1: Sextet): Byte
  {
    (v0 as int) * 4 + (v1 as int) / 16
  }

  /** The second byte: the low 4 bits of `v1` and the high 4 bits of `v2`. */
  function SecondByte(v1: Sextet, v2: Sextet): Byte
  {
    (v1 as int) % 16 * 16 + (v2 as int) / 4
  }

  /** The third byte: the low 2 bits of `v2` and the 6 bits of `v3`. */
  function ThirdByte(v2: Sextet, v3: Sextet): Byte
  {
    (v2 as int) % 4 * 64 + (v3 as int)
  }

  /** Four alphabet characters back to the three bytes they encode. */
  function DecodeGroup(c0: char, c1: char, c2: char, c3: char): Option<seq<Byte>>
  {
    var v0, v1, v2, v3 := ValueOf(c0), ValueOf(c1), ValueOf(c2), ValueOf(c3);
    if v0.Some? && v1.Some? && v2.Some? && v3.Some? then
      Some([FirstByte(v0.value, v1.value), SecondByte(v1.value, v2.value), ThirdByte(v2.value, v3.value)])
    else None
  }

  /** The last group of an encoding, which may carry one or two pad characters. */
  function DecodeLast(c0: char, c1: char, c2: char, c3: char): Option<seq<Byte>>
  {
    var v0, v1, v2 := ValueOf(c0), ValueOf(c1), ValueOf(c2);
    if c2 == Pad && c3 == Pad then
      if v0.Some? && v1.Some? then Some([FirstByte(v0.value, v1.value)]) else None
    else if c3 == Pad then
      if v0.Some? && v1.Some? && v2.Some? then
        Some([FirstByte(v0.value, v1.value), SecondByte(v1.value, v2.value)])
      else None
    else
      DecodeGroup(c0, c1, c2, c3)
  }

  /** Each byte is rebuilt from the two sextets that hold its bits. */
  lemma BytesFromSextets(b0: Byte, b1: Byte, b2: Byte)
    ensures FirstByte(HighSextet(b0), SecondSextet(b0, b1)) == b0
    ensures SecondByte(SecondSextet(b0, b1), ThirdSextet(b1, b2)) == b1
    ensures ThirdByte(ThirdSextet(b1, b2), LowSextet(b2)) == b2
  {
    assert SecondSextet(b0, b1) / 16 == b0 % 4;
    assert SecondSextet(b0, b1) % 16 == b1 / 16;
    assert ThirdSextet(b1, b2) / 4 == b1 % 16;
    assert ThirdSextet(b1, b2) % 4 == b2 / 64;
  }

  /** The inverse of `Encode`: `None` for a string that is not a padded
      encoding (wrong length, a character outside the alphabet, misplaced pad). */
  function Decode(s: string): Option<seq<Byte>>
    decreases |s|
  {
    if |s| == 0 then Some([])
    else if |s| < 4 then None
    else if |s| == 4 then DecodeLast(s[0], s[1], s[2], s[3])
    else
      match (DecodeGroup(s[0], s[1], s[2], s[3]), Decode(s[4..]))
      case (Some(group), Some(rest)) => Some(group + rest)
      case _ => None
  }

  lemma DecodeEncodeGroup(b0: Byte, b1: Byte, b2: Byte)
    ensures DecodeGroup(Letter(HighSextet(b0)), Letter(SecondSextet(b0, b1)),
                        Letter(ThirdSextet(b1, b2)), Letter(LowSextet(b2))) == Some([b0, b1, b2])
  {
    ValueOfLetter(HighSextet(b0));
    ValueOfLetter(SecondSextet(b0, b1));
    ValueOfLetter(ThirdSextet(b1, b2));
    ValueOfLetter(LowSextet(b2));
    BytesFromSextets(b0, b1, b2);
  }

  lemma DecodeLastPadded(v0: Sextet, v1: Sextet, v2: Sextet)
    ensures DecodeLast(Letter(v0), Letter(v1), Pad, Pad) == Some([FirstByte(v0, v1)])
    ensures DecodeLast(Letter(v0), Letter(v1), Letter(v2), Pad) ==
      Some([FirstByte(v0, v1), SecondByte(v1, v2)])
  {
    ValueOfLetter(v0);
    ValueOfLetter(v1);
    ValueOfLetter(v2);
  }

  lemma DecodeEncodeOne(b0: Byte)
    ensures Decode(Encode([b0])) == Some([b0])
  {
    var s := Encode([b0]);
    assert s == [Letter(HighSextet(b0)), Letter(SecondSextet(b0, 0)), Pad, Pad];
    assert Decode(s) == DecodeLast(s[0], s[1], s[2], s[3]);
    DecodeLastPadded(HighSextet(b0), SecondSextet(b0, 0), 0);
    assert Decode(s) == Some([FirstByte(HighSextet(b0), SecondSextet(b0, 0))]);
    BytesFromSextets(b0, 0, 0);
  }

  lemma DecodeEncodeTwo(b0: Byte, b1: Byte)
    ensures Decode(Encode([b0, b1])) == Some([b0, b1])
  {
    DecodeLastPadded(HighSextet(b0), SecondSextet(b0, b1), ThirdSextet(b1, 0));
    BytesFromSextets(b0, b1, 0);
  }

  /** A complete group followed by a non-empty encoding decodes group by group. */
  lemma DecodeGroupThen(b0: Byte, b1: Byte, b2: Byte, rest: string)
    requires |rest| >= 4
    ensures Decode(EncodeGroup(b0, b1, b2) + rest) ==
      match Decode(rest)
      case Some(tail) => Some([b0, b1, b2] + tail)
      case None => None
  {
    var g := EncodeGroup(b0, b1, b2);
    var s := g + rest;
    DecodeEncodeGroup(b0, b1, b2);
    assert s[4..] == rest;
    assert s[0] == g[0] && s[1] == g[1] && s[2] == g[2] && s[3] == g[3];
  }

  lemma DecodeEncodeThree(b0: Byte, b1: Byte, b2: Byte)
    ensures Decode(Encode([b0, b1, b2])) == Some([b0, b1, b2])
  {
    var s := Encode([b0, b1, b2]);
    assert [b0, b1, b2][3..] == [];
    assert s == EncodeGroup(b0, b1, b2);
    DecodeEncodeGroup(b0, b1, b2);
  }

  /** Decoding undoes encoding: the encoding loses nothing. */
  lemma {:induction false} DecodeEncode(b: seq<Byte>)
    ensures Decode(Encode(b)) == Some(b)
    decreases |b|
  {
    if |b| == 0 {
    } else if |b| == 1 {
      assert b == [b[0]];
      DecodeEncodeOne(b[0]);
    } else if |b| == 2 {
      assert b == [b[0], b[1]];
      DecodeEncodeTwo(b[0], b[1]);
    } else if |b| == 3 {
      assert b == [b[0], b[1], b[2]];
      DecodeEncodeThree(b[0], b[1], b[2]);
    } else {
      var rest := Encode(b[3..]);
      assert Encode(b) == EncodeGroup(b[0], b[1], b[2]) + rest;
      DecodeEncode(b[3..]);
      DecodeGroupThen(b[0], b[1], b[2], rest);
      assert b == [b[0], b[1], b[2]] + b[3..];
    }
  }

  /** Different byte strings never share an encoding. */
  lemma EncodeInjective(a: seq<Byte>, b: seq<Byte>)
    requires Encode(a) == Encode(b)
    ensures a == b
  {
    DecodeEncode(a);
    DecodeEncode(b);
  }

  predicate IsLatin1(s: string)
  {
    forall i :: 0 <= i < |s| ==> s[i] as int <= 0xFF
  }

  /** The Latin-1 bytes of a string, one byte per character. */
  function Latin1Bytes(s: string): seq<Byte>
    requires IsLatin1(s)
  {
    seq(|s|, i requires 0 <= i < |s| => s[i] as int)
  }

  /** Latin-1 strings with the same bytes are the same string: no two
      characters up to 0xFF share a byte. */
  lemma Latin1BytesInjective(s: string, t: string)
    requires IsLatin1(s) && IsLatin1(t) && Latin1Bytes(s) == Latin1Bytes(t)
    ensures s == t
  {
    forall i | 0 <= i < |s|
      ensures s[i] == t[i]
    {
      assert Latin1Bytes(s)[i] == Latin1Bytes(t)[i];
    }
  }

  /** `btoa(s)`: `None` stands for the `InvalidCharacterError` it throws on a
      character above 0xFF. */
  function Btoa(s: string): (r: Option<string>)
    ensures r.Some? <==> IsLatin1(s)
    ensures r.Some? ==> |r.value| == 4 * ((|s| + 2) / 3)
  {
    if IsLatin1(s) then Some(Encode(Latin1Bytes(s))) else None
  }

  /** Two strings `btoa` accepts have equal encodings only if they are equal. */
  lemma BtoaInjective(s: string, t: string)
    requires Btoa(s).Some? && Btoa(s) == Btoa(t)
    ensures s == t
  {
    EncodeInjective(Latin1Bytes(s), Latin1Bytes(t));
    Latin1BytesInjective(s, t);
  }
}
