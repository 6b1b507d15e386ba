/** Base64 as specified in section 4 of RFC 4648 (the alphabet A-Z a-z 0-9 + /, with
    '=' padding), which is what PHP's `base64_encode` produces. The decoder is the
    strict one: it refuses characters outside the alphabet, misplaced padding and
    non-zero padding bits (section 3.5), so that it is exactly the inverse of the
    encoder. */
module Base64 {
  import opened Wrappers

  type Byte = x: int | 0 <= x < 256

  /** The character for a 6-bit value, per Table 1 of RFC 4648. */
  function SextetChar(d: int): (c: char)
    requires 0 <= d < 64
    ensures c != '='
  {
    if d < 26 then ('A' as int + d) as char
    else if d < 52 then ('a' as int + (d - 26)) as char
    else if d < 62 then ('0' as int + (d - 52)) as char
    else if d == 62 then '+'
    else '/'
  }

  /** The 6-bit value of an alphabet character; nothing for any other character,
      the padding character included. */
  function CharSextet(c: char): (r: Option<int>)
    ensures r.Some? ==> 0 <= r.value < 64 && SextetChar(r.value) == c
  {
    if 'A' <= c <= 'Z' then Some(c as int - 'A' as int)
    else if 'a' <= c <= 'z' then Some(c as int - 'a' as int + 26)
    else if '0' <= c <= '9' then Some(c as int - '0' as int + 52)
    else if c == '+' then Some(62)
    else if c == '/' then Some(63)
    else None
  }

  lemma CharSextetOfSextetChar(d: int)
    requires 0 <= d < 64
    ensures CharSextet(SextetChar(d)) == Some(d)
  {
  }

  /** Three bytes as four characters. */
  function EncodeGroup(b0: Byte, b1: Byte, b2: Byte): string
  {
    [SextetChar(b0 / 4), SextetChar((b0 % 4) * 16 + b1 / 16),
     SextetChar((b1 % 16) * 4 + b2 / 64), SextetChar(b2 % 64)]
  }

  /** `base64_encode($bytes)`. */
  function Encode(b: seq<Byte>): (s: string)
    ensures |s| % 4 == 0
    ensures s == [] <==> b == []
  {
    if |b| == 0 then ""
    else if |b| == 1 then
      [SextetChar(b[0] / 4), SextetChar((b[0] % 4) * 16), '=', '=']
    else if |b| == 2 then
      [SextetChar(b[0] / 4), SextetChar((b[0] % 4) * 16 + b[1] / 16),
       SextetChar((b[1] % 16) * 4), '=']
    else EncodeGroup(b[0], b[1], b[2]) + Encode(b[3..])
  }

  /** Every started group of three bytes becomes four characters. */
  lemma {:induction false} EncodedLength(b: seq<Byte>)
    ensures |Encode(b)| == 4 * ((|b| + 2) / 3)
    decreases |b|
  {
    if |b| >= 3 {
      EncodedLength(b[3..]);
      assert |Encode(b)| == 4 + |Encode(b[3..])|;
      assert (|b| + 2) / 3 == (|b[3..]| + 2) / 3 + 1;
    }
  }

  /** Four alphabet characters as three bytes. */
  function DecodeGroup(q: string): (r: Option<seq<Byte>>)
    requires |q| == 4
  {
    var c0, c1, c2, c3 := CharSextet(q[0]), CharSextet(q[1]), CharSextet(q[2]), CharSextet(q[3]);
    if c0.Some? && c1.Some? && c2.Some? && c3.Some? then
      var s0, s1, s2, s3 := c0.value, c1.value, c2.value, c3.value;
      Some([s0 * 4 + s1 / 16, (s1 % 16) * 16 + s2 / 4, (s2 % 4) * 64 + s3])
    else None
  }

  /** The last quantum: four characters, the last one or two of which may be padding;
      the bits that padding leaves over must be zero. */
  function DecodeLast(q: string): (r: Option<seq<Byte>>)
    requires |q| == 4
  {
    var c0, c1, c2 := CharSextet(q[0]), CharSextet(q[1]), CharSextet(q[2]);
    if q[2] == '=' && q[3] == '=' then
      if c0.Some? && c1.Some? && c1.value % 16 == 0 then
        Some([c0.value * 4 + c1.value / 16])
      else None
    else if q[3] == '=' then
      if c0.Some? && c1.Some? && c2.Some? && c2.value % 4 == 0 then
        Some([c0.value * 4 + c1.value / 16, (c1.value % 16) * 16 + c2.value / 4])
      else None
    else DecodeGroup(q)
  }

  /** Strict Base64 decoding; nothing for text that no byte string encodes to. */
  function Decode(s: string): (r: Option<seq<Byte>>)
  {
    if |s| == 0 then Some([])
    else if |s| < 4 then None
    else if |s| == 4 then DecodeLast(s)
    else match DecodeGroup(s[..4])
      case None => None
      case Some(g) =>
        match Decode(s[4..])
        case None => None
        case Some(rest) => if rest == [] then None else Some(g + rest)
  }

  lemma DivMod(a: int, b: int, m: int)
    requires m == 4 || m == 16 || m == 64
    requires 0 <= b < m
    ensures (a * m + b) / m == a && (a * m + b) % m == b
  {
  }

  /** Regrouping three bytes as four sextets and back loses nothing. */
  lemma BytesThroughSextets(b0: Byte, b1: Byte, b2: Byte)
    ensures var s1, s2 := (b0 % 4) * 16 + b1 / 16, (b1 % 16) * 4 + b2 / 64;
            (b0 / 4) * 4 + s1 / 16 == b0 && (s1 % 16) * 16 + s2 / 4 == b1 && (s2 % 4) * 64 + b2 % 64 == b2
  {
    DivMod(b0 % 4, b1 / 16, 16);
    DivMod(b1 % 16, b2 / 64, 4);
  }

  /** Regrouping four sextets as three bytes and back loses nothing. */
  lemma SextetsThroughBytes(s0: int, s1: int, s2: int, s3: int)
    requires 0 <= s0 < 64 && 0 <= s1 < 64 && 0 <= s2 < 64 && 0 <= s3 < 64
    ensures var x, y, z := s0 * 4 + s1 / 16, (s1 % 16) * 16 + s2 / 4, (s2 % 4) * 64 + s3;
            x / 4 == s0 && (x % 4) * 16 + y / 16 == s1 && (y % 16) * 4 + z / 64 == s2 && z % 64 == s3
  {
    DivMod(s0, s1 / 16, 4);
    DivMod(s1 % 16, s2 / 4, 16);
    DivMod(s2 % 4, s3, 64);
  }

  lemma DecodeEncodeGroup(b0: Byte, b1: Byte, b2: Byte)
    ensures DecodeGroup(EncodeGroup(b0, b1, b2)) == Some([b0, b1, b2])
  {
    var s0, s1, s2, s3 := b0 / 4, (b0 % 4) * 16 + b1 / 16, (b1 % 16) * 4 + b2 / 64, b2 % 64;
    var q := EncodeGroup(b0, b1, b2);
    assert q == [SextetChar(s0), SextetChar(s1), SextetChar(s2), SextetChar(s3)];
    CharSextetOfSextetChar(s0);
    CharSextetOfSextetChar(s1);
    CharSextetOfSextetChar(s2);
    CharSextetOfSextetChar(s3);
    BytesThroughSextets(b0, b1, b2);
  }

  lemma DecodeEncodeOne(b0: Byte)
    ensures Decode(Encode([b0])) == Some([b0])
  {
    var s0, s1 := b0 / 4, (b0 % 4) * 16;
    CharSextetOfSextetChar(s0);
    CharSextetOfSextetChar(s1);
    DivMod(b0 % 4, 0, 16);
    var s := Encode([b0]);
    assert s == [SextetChar(s0), SextetChar(s1), '=', '='];
    assert DecodeLast(s) == Some([s0 * 4 + s1 / 16]);
  }

  lemma DecodeEncodeTwo(b0: Byte, b1: Byte)
    ensures Decode(Encode([b0, b1])) == Some([b0, b1])
  {
    var s0, s1, s2 := b0 / 4, (b0 % 4) * 16 + b1 / 16, (b1 % 16) * 4;
    CharSextetOfSextetChar(s0);
    CharSextetOfSextetChar(s1);
    CharSextetOfSextetChar(s2);
    BytesThroughSextets(b0, b1, 0);
    DivMod(b1 % 16, 0, 4);
    var s := Encode([b0, b1]);
    assert s == [SextetChar(s0), SextetChar(s1), SextetChar(s2), '='];
    assert DecodeLast(s) == Some([s0 * 4 + s1 / 16, (s1 % 16) * 16 + s2 / 4]);
  }

  lemma Front<T>(b: seq<T>)
    ensures |b| == 1 ==> b == [b[0]]
    ensures |b| == 2 ==> b == [b[0], b[1]]
    ensures |b| >= 3 ==> b == [b[0], b[1], b[2]] + b[3..]
  {
    if |b| >= 3 {
      assert b[..3] == [b[0], b[1], b[2]];
      assert b == b[..3] + b[3..];
    }
  }

  lemma EncodeFront(b0: Byte, b1: Byte, b2: Byte, rest: seq<Byte>)
    ensures Encode([b0, b1, b2] + rest) == EncodeGroup(b0, b1, b2) + Encode(rest)
  {
    var b := [b0, b1, b2] + rest;
    assert b[3..] == rest;
  }

  /** A quantum without padding in front of a non-empty encoding. */
  lemma DecodeFront(q: string, t: string)
    requires |q| == 4 && |t| >= 4
    ensures Decode(q + t) == match DecodeGroup(q)
                             case None => None
                             case Some(g) =>
                               match Decode(t)
                               case None => None
                               case Some(rest) => if rest == [] then None else Some(g + rest)
  {
    assert (q + t)[..4] == q && (q + t)[4..] == t;
  }

  /** One full quantum in front of an encoding that decodes. */
  lemma DecodeEncodeStep(b0: Byte, b1: Byte, b2: Byte, rest: seq<Byte>)
    requires Decode(Encode(rest)) == Some(rest)
    ensures Decode(Encode([b0, b1, b2] + rest)) == Some([b0, b1, b2] + rest)
  {
    var q := EncodeGroup(b0, b1, b2);
    var t := Encode(rest);
    EncodeFront(b0, b1, b2, rest);
    DecodeEncodeGroup(b0, b1, b2);
    if rest == [] {
      assert q + t == q;
      assert Decode(q) == DecodeGroup(q);
      assert [b0, b1, b2] + rest == [b0, b1, b2];
    } else {
      EncodedLength(rest);
      DecodeFront(q, t);
    }
  }

  /** Decoding what was encoded gives the bytes back. */
  lemma {:induction false} DecodeEncode(b: seq<Byte>)
    ensures Decode(Encode(b)) == Some(b)
    decreases |b|
  {
    Front(b);
    if |b| == 1 {
      DecodeEncodeOne(b[0]);
    } else if |b| == 2 {
      DecodeEncodeTwo(b[0], b[1]);
    } else if |b| >= 3 {
      DecodeEncode(b[3..]);
      DecodeEncodeStep(b[0], b[1], b[2], b[3..]);
    }
  }

  lemma EncodeDecodeGroup(q: string)
    requires |q| == 4 && DecodeGroup(q).Some?
    ensures var g := DecodeGroup(q).value; |g| == 3 && EncodeGroup(g[0], g[1], g[2]) == q
  {
    var s0, s1, s2, s3 := CharSextet(q[0]).value, CharSextet(q[1]).value, CharSextet(q[2]).value, CharSextet(q[3]).value;
    SextetsThroughBytes(s0, s1, s2, s3);
  }

  lemma EncodeDecodeLast(q: string)
    requires |q| == 4 && DecodeLast(q).Some?
    ensures Encode(DecodeLast(q).value) == q
  {
    if q[2] == '=' && q[3] == '=' {
      EncodeDecodeTwoPads(q);
    } else if q[3] == '=' {
      EncodeDecodeOnePad(q);
    } else {
      EncodeDecodeGroup(q);
      var g := DecodeGroup(q).value;
      assert g[3..] == [];
    }
  }

  lemma EncodeDecodeTwoPads(q: string)
    requires |q| == 4 && q[2] == '=' && q[3] == '=' && DecodeLast(q).Some?
    ensures Encode(DecodeLast(q).value) == q
  {
    var s0, s1 := CharSextet(q[0]).value, CharSextet(q[1]).value;
    var b0 := s0 * 4 + s1 / 16;
    assert DecodeLast(q).value == [b0];
    SextetsThroughBytes(s0, s1, 0, 0);
    DivMod(s1 / 16, 0, 16);
    assert Encode([b0]) == [SextetChar(s0), SextetChar(s1), '=', '='];
  }

  lemma EncodeDecodeOnePad(q: string)
    requires |q| == 4 && q[2] != '=' && q[3] == '=' && DecodeLast(q).Some?
    ensures Encode(DecodeLast(q).value) == q
  {
    var s0, s1, s2 := CharSextet(q[0]).value, CharSextet(q[1]).value, CharSextet(q[2]).value;
    var b0, b1 := s0 * 4 + s1 / 16, (s1 % 16) * 16 + s2 / 4;
    assert DecodeLast(q).value == [b0, b1];
    SextetsThroughBytes(s0, s1, s2, 0);
    DivMod(s2 / 4, 0, 4);
    assert Encode([b0, b1]) == [SextetChar(s0), SextetChar(s1), SextetChar(s2), '='];
  }

  /** Only the encoding of a byte string decodes, and it decodes to that string. */
  lemma {:induction false} EncodeDecode(s: string)
    requires Decode(s).Some?
    ensures Encode(Decode(s).value) == s
    decreases |s|
  {
    if |s| == 4 {
      EncodeDecodeLast(s);
    } else if |s| > 4 {
      var g := DecodeGroup(s[..4]).value;
      var rest := Decode(s[4..]).value;
      EncodeDecodeGroup(s[..4]);
      EncodeDecode(s[4..]);
      var b := g + rest;
      assert b[3..] == rest && b[0] == g[0] && b[1] == g[1] && b[2] == g[2];
      assert s == s[..4] + s[4..];
    }
  }

  /** Decoding is the inverse of encoding, in both directions. */
  lemma DecodeIffEncode(s: string, b: seq<Byte>)
    ensures Decode(s) == Some(b) <==> Encode(b) == s
  {
    if Decode(s) == Some(b) {
      EncodeDecode(s);
    }
    if Encode(b) == s {
      DecodeEncode(b);
    }
  }
}
