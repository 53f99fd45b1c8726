/**
 * Base 64 encoding as defined in section 4 of RFC 4648 (what Python's
 * `base64.b64encode` produces): every 3 bytes become 4 characters of the
 * 64-character alphabet, and a final group of 1 or 2 bytes is completed
 * with `=` padding. The decoder is here as the encoder's partner.
 */
module Base64 {

  type Byte = b: int | 0 <= b < 256

  /** A 6-bit value: the index of one alphabet character. */
  type Sextet = v: int | 0 <= v < 64

  predicate IsAlphanumeric(c: char)
  {
    'A' <= c <= 'Z' || 'a' <= c <= 'z' || '0' <= c <= '9'
  }

  /** The alphabet of section 4 of RFC 4648: A-Z, a-z, 0-9, `+`, `/`. */
  function Char(v: Sextet): (c: char)
    ensures v < 62 <==> IsAlphanumeric(c)
    ensures v == 62 <==> c == '+'
    ensures v == 63 <==> c == '/'
  {
    if v < 26 then ('A' as int + v) as char
    else if v < 52 then ('a' as int + (v - 26)) as char
    else if v < 62 then ('0' as int + (v - 52)) as char
    else if v == 62 then '+'
    else '/'
  }

  /** The index of an alphabet character (0 for any other character). */
  function Value(c: char): Sextet
  {
    if 'A' <= c <= 'Z' then c as int - 'A' as int
    else if 'a' <= c <= 'z' then c as int - 'a' as int + 26
    else if '0' <= c <= '9' then c as int - '0' as int + 52
    else if c == '+' then 62
    else if c == '/' then 63
    else 0
  }

  lemma ValueOfChar(v: Sextet)
    ensures Value(Char(v)) == v
  {
  }

  /** Three bytes, 24 bits, as four 6-bit characters. */
  function EncodeGroup(b0: Byte, b1: Byte, b2: Byte): seq<char>
  {
    [Char(b0 / 4), Char(b0 % 4 * 16 + b1 / 16), Char(b1 % 16 * 4 + b2 / 64), Char(b2 % 64)]
  }

  /** The number of `=` characters that end the encoding of n bytes. */
  function PadLength(n: nat): nat
  {
    if n % 3 == 0 then 0 else 3 - n % 3
  }

  /** One group fewer leaves the padding unchanged. */
  lemma PadLengthStep(n: nat)
    requires n >= 3
    ensures PadLength(n - 3) == PadLength(n)
  {
    assert (n - 3) % 3 == n % 3;
  }

  /** `b64encode`: the encoding is 4 characters for every started group of 3 bytes. */
  function Encode(bytes: seq<Byte>): (s: string)
    ensures |s| == 4 * ((|bytes| + 2) / 3)
    decreases |bytes|
  {
    if |bytes| == 0 then ""
    else if |bytes| == 1 then [Char(bytes[0] / 4), Char(bytes[0] % 4 * 16), '=', '=']
    else if |bytes| == 2 then [Char(bytes[0] / 4), Char(bytes[0] % 4 * 16 + bytes[1] / 16), Char(bytes[1] % 16 * 4), '=']
    else EncodeGroup(bytes[0], bytes[1], bytes[2]) + Encode(bytes[3..])
  }

  predicate InAlphabet(c: char)
  {
    IsAlphanumeric(c) || c == '+' || c == '/'
  }

  /** `s` is alphabet characters followed by exactly `pad` padding characters. */
  ghost predicate Padded(s: string, pad: nat)
  {
    && pad <= |s|
    && (forall i :: 0 <= i < |s| - pad ==> InAlphabet(s[i]))
    && (forall i :: |s| - pad <= i < |s| ==> s[i] == '=')
  }

  /** Four alphabet characters in front keep the shape of what follows. */
  lemma PaddedPrepend(g: string, rest: string, pad: nat)
    requires |g| == 4 && InAlphabet(g[0]) && InAlphabet(g[1]) && InAlphabet(g[2]) && InAlphabet(g[3])
    requires Padded(rest, pad)
    ensures Padded(g + rest, pad)
  {
    var s := g + rest;
    forall i | 0 <= i < |s| ensures s[i] == if i < 4 then g[i] else rest[i - 4] {
    }
  }

  /** The shape of the encoding of a final group of 0, 1 or 2 bytes. */
  lemma EncodeShapeShort(bytes: seq<Byte>)
    requires |bytes| < 3
    ensures Padded(Encode(bytes), PadLength(|bytes|))
  {
    var s := Encode(bytes);
    if |bytes| == 1 {
      assert InAlphabet(s[0]) && InAlphabet(s[1]) && s[2] == '=' && s[3] == '=';
    } else if |bytes| == 2 {
      assert InAlphabet(s[0]) && InAlphabet(s[1]) && InAlphabet(s[2]) && s[3] == '=';
    }
  }

  /**
   * The shape of an encoding: alphabet characters, then exactly
   * `PadLength(|bytes|)` padding characters.
   */
  lemma {:induction false} EncodeShape(bytes: seq<Byte>)
    ensures Padded(Encode(bytes), PadLength(|bytes|))
    decreases |bytes|
  {
    if |bytes| < 3 {
      EncodeShapeShort(bytes);
    } else {
      var g, rest := EncodeGroup(bytes[0], bytes[1], bytes[2]), Encode(bytes[3..]);
      EncodeShape(bytes[3..]);
      PadLengthStep(|bytes|);
      PaddedPrepend(g, rest, PadLength(|bytes|));
      EncodeFullGroup(bytes);
    }
  }

  /** Four characters back to three bytes. */
  function DecodeGroup(c0: char, c1: char, c2: char, c3: char): seq<Byte>
  {
    var v0, v1, v2, v3 := Value(c0), Value(c1), Value(c2), Value(c3);
    [v0 * 4 + v1 / 16, v1 % 16 * 16 + v2 / 4, v2 % 4 * 64 + v3]
  }

  /** The inverse of `Encode` on its results: groups of four characters, the last one possibly padded. */
  function Decode(s: string): seq<Byte>
    decreases |s|
  {
    if |s| < 4 then []
    else if s[2] == '=' then [Value(s[0]) * 4 + Value(s[1]) / 16]
    else if s[3] == '=' then [Value(s[0]) * 4 + Value(s[1]) / 16, Value(s[1]) % 16 * 16 + Value(s[2]) / 4]
    else DecodeGroup(s[0], s[1], s[2], s[3]) + Decode(s[4..])
  }

  lemma GroupRoundTrip(b0: Byte, b1: Byte, b2: Byte)
    ensures var g := EncodeGroup(b0, b1, b2); DecodeGroup(g[0], g[1], g[2], g[3]) == [b0, b1, b2]
  {
    var s1: Sextet := b0 % 4 * 16 + b1 / 16;
    var s2: Sextet := b1 % 16 * 4 + b2 / 64;
    ValueOfChar(b0 / 4);
    ValueOfChar(s1);
    ValueOfChar(s2);
    ValueOfChar(b2 % 64);
    assert s1 / 16 == b0 % 4 && s1 % 16 == b1 / 16;
    assert s2 / 4 == b1 % 16 && s2 % 4 == b2 / 64;
  }

  lemma RoundTripOne(b0: Byte)
    ensures Decode(Encode([b0])) == [b0]
  {
    ValueOfChar(b0 / 4);
    ValueOfChar(b0 % 4 * 16);
  }

  lemma RoundTripTwo(b0: Byte, b1: Byte)
    ensures Decode(Encode([b0, b1])) == [b0, b1]
  {
    var s1: Sextet := b0 % 4 * 16 + b1 / 16;
    ValueOfChar(b0 / 4);
    ValueOfChar(s1);
    ValueOfChar(b1 % 16 * 4);
    assert s1 / 16 == b0 % 4 && s1 % 16 == b1 / 16;
  }

  /** Decoding a full group followed by more text decodes the group, then the rest. */
  lemma DecodeFullGroup(g: string, rest: string)
    requires |g| == 4 && g[2] != '=' && g[3] != '='
    ensures Decode(g + rest) == DecodeGroup(g[0], g[1], g[2], g[3]) + Decode(rest)
  {
    var s := g + rest;
    assert s[0] == g[0] && s[1] == g[1] && s[2] == g[2] && s[3] == g[3];
    assert s[4..] == rest;
  }

  /** Three or more bytes encode as their first group followed by the encoding of the rest. */
  lemma EncodeFullGroup(bytes: seq<Byte>)
    requires |bytes| >= 3
    ensures Encode(bytes) == EncodeGroup(bytes[0], bytes[1], bytes[2]) + Encode(bytes[3..])
  {
    assert |bytes| != 0 && |bytes| != 1 && |bytes| != 2;
  }

  /** The round trip for a final group of 0, 1 or 2 bytes. */
  lemma RoundTripShort(bytes: seq<Byte>)
    requires |bytes| < 3
    ensures Decode(Encode(bytes)) == bytes
  {
    if |bytes| == 1 {
      assert bytes == [bytes[0]];
      RoundTripOne(bytes[0]);
    } else if |bytes| == 2 {
      assert bytes == [bytes[0], bytes[1]];
      RoundTripTwo(bytes[0], bytes[1]);
    }
  }

  /** Decoding an encoding gives back the bytes. */
  lemma {:induction false} RoundTrip(bytes: seq<Byte>)
    ensures Decode(Encode(bytes)) == bytes
    decreases |bytes|
  {
    if |bytes| < 3 {
      RoundTripShort(bytes);
    } else {
      var b0, b1, b2, rest := bytes[0], bytes[1], bytes[2], bytes[3..];
      var g := EncodeGroup(b0, b1, b2);
      EncodeFullGroup(bytes);
      GroupRoundTrip(b0, b1, b2);
      DecodeFullGroup(g, Encode(rest));
      RoundTrip(rest);
      assert bytes == [b0, b1, b2] + rest;
    }
  }
}
