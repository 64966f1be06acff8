/** Base64 with the standard alphabet and padding (section 4 of RFC 4648), in its
    canonical form: the text is a whole number of four-character groups, `=` appears
    only as one or two padding characters at the very end, and the bits that padding
    discards must be zero. Encoding and decoding are inverse to each other in both
    directions (DecodeEncode, EncodeDecode). */
module Base64 {
  import opened Results
  import opened Bytes

  /** A Base64 digit value. */
  type Sextet = v: int | 0 <= v < 64

  const Pad: char := '='

  /** The character of a digit value in the standard alphabet (table 1 of RFC 4648). */
  function CharOf(v: Sextet): (c: char)
    ensures c != Pad
  {
    if v < 26 then ('A' as int + v) as char
    else if v < 52 then ('a' as int + (v - 26)) as char
    else if v < 62 then ('0' as int + (v - 52)) as char
    else if v == 62 then '+'
    else '/'
  }

  /** The digit value of an alphabet character; None for every other character,
      including the padding character. */
  function ValueOf(c: char): (r: Option<Sextet>)
    ensures r.Some? ==> CharOf(r.value) == c
    ensures c == Pad ==> r.None?
  {
    if 'A' <= c <= 'Z' then Some(c as int - 'A' as int)
    else if 'a' <= c <= 'z' then Some(c as int - 'a' as int + 26)
    else if '0' <= c <= '9' then Some(c as int - '0' as int + 52)
    else if c == '+' then Some(62)
    else if c == '/' then Some(63)
    else None
  }

  /** Every digit value is read back from its character. */
  lemma ValueOfCharOf(v: Sextet)
    ensures ValueOf(CharOf(v)) == Some(v)
  {
  }

  /** A character that can appear in encoded text. */
  predicate IsEncodingChar(c: char) {
    ValueOf(c).Some? || c == Pad
  }

  /** The four characters of a complete three-byte group. */
  function EncodeGroup(b0: Byte, b1: Byte, b2: Byte): string {
    [CharOf(b0 / 4), CharOf(b0 % 4 * 16 + b1 / 16), CharOf(b1 % 16 * 4 + b2 / 64), CharOf(b2 % 64)]
  }

  /** Encoding: four characters per started group of three bytes. */
  function Encode(b: seq<Byte>): (s: string)
    ensures |s| == 4 * ((|b| + 2) / 3)
    decreases |b|
  {
    if |b| == 0 then []
    else if |b| == 1 then [CharOf(b[0] / 4), CharOf(b[0] % 4 * 16), Pad, Pad]
    else if |b| == 2 then [CharOf(b[0] / 4), CharOf(b[0] % 4 * 16 + b[1] / 16), CharOf(b[1] % 16 * 4), Pad]
    else EncodeGroup(b[0], b[1], b[2]) + Encode(b[3..])
  }

  /** Encoded text is made of alphabet characters and the padding character only. */
  lemma {:induction false} EncodedChars(b: seq<Byte>)
    ensures forall i :: 0 <= i < |Encode(b)| ==> IsEncodingChar(Encode(b)[i])
    decreases |b|
  {
    if |b| > 0 {
      ValueOfCharOf(b[0] / 4);
      if |b| == 1 {
        ValueOfCharOf(b[0] % 4 * 16);
      } else if |b| == 2 {
        ValueOfCharOf(b[0] % 4 * 16 + b[1] / 16);
        ValueOfCharOf(b[1] % 16 * 4);
      } else {
        ValueOfCharOf(b[0] % 4 * 16 + b[1] / 16);
        ValueOfCharOf(b[1] % 16 * 4 + b[2] / 64);
        ValueOfCharOf(b[2] % 64);
        EncodedChars(b[3..]);
        var g, rest := EncodeGroup(b[0], b[1], b[2]), Encode(b[3..]);
        assert Encode(b) == g + rest;
        assert forall i :: 4 <= i < |Encode(b)| ==> Encode(b)[i] == rest[i - 4];
      }
    }
  }

  /** The bytes that four digit values stand for, the first `n` of which are kept. */
  function GroupBytes(v0: Sextet, v1: Sextet, v2: Sextet, v3: Sextet, n: nat): (g: seq<Byte>)
    requires 1 <= n <= 3
    ensures |g| == n
    ensures g[0] == v0 as int * 4 + v1 as int / 16
    ensures n >= 2 ==> g[1] == v1 as int % 16 * 16 + v2 as int / 4
    ensures n == 3 ==> g[2] == v2 as int % 4 * 64 + v3 as int
  {
    var a: int, b: int, c: int, d: int := v0, v1, v2, v3;
    var all: seq<Byte> := [a * 4 + b / 16, b % 16 * 16 + c / 4, c % 4 * 64 + d];
    all[..n]
  }

  /** The three bytes of four alphabet characters, or None if one of them is not in the
      alphabet. */
  function DecodeGroup(c0: char, c1: char, c2: char, c3: char): (r: Option<seq<Byte>>)
    ensures r.Some? ==> |r.value| == 3
  {
    match (ValueOf(c0), ValueOf(c1), ValueOf(c2), ValueOf(c3))
    case (Some(v0), Some(v1), Some(v2), Some(v3)) =>
      Some(GroupBytes(v0, v1, v2, v3, 3))
    case _ => None
  }

  /** The final group, which may end in one or two padding characters; the bits that
      the padding leaves over must be zero. */
  function DecodeFinalGroup(c0: char, c1: char, c2: char, c3: char): (r: Option<seq<Byte>>)
    ensures r.Some? ==> 1 <= |r.value| <= 3
  {
    if c2 == Pad && c3 == Pad then
      match (ValueOf(c0), ValueOf(c1))
      case (Some(v0), Some(v1)) =>
        if v1 % 16 == 0 then Some(GroupBytes(v0, v1, 0, 0, 1)) else None
      case _ => None
    else if c3 == Pad then
      match (ValueOf(c0), ValueOf(c1), ValueOf(c2))
      case (Some(v0), Some(v1), Some(v2)) =>
        if v2 % 4 == 0 then Some(GroupBytes(v0, v1, v2, 0, 2)) else None
      case _ => None
    else DecodeGroup(c0, c1, c2, c3)
  }

  /** Decoding: None for any text that is not canonical Base64. Accepted text is a whole
      number of groups, and decodes to no bytes exactly when it is empty. */
  function Decode(s: string): (r: Option<seq<Byte>>)
    ensures r.Some? ==> |s| % 4 == 0
    ensures r.Some? ==> (r.value == [] <==> s == [])
    decreases |s|
  {
    if |s| == 0 then Some([])
    else if |s| < 4 then None
    else if |s| == 4 then DecodeFinalGroup(s[0], s[1], s[2], s[3])
    else
      match DecodeGroup(s[0], s[1], s[2], s[3])
      case None => None
      case Some(g) =>
        match Decode(s[4..])
        case None => None
        case Some(rest) => Some(g + rest)
  }

  /** The digit values of a complete group give back its three bytes. */
  lemma GroupArithmetic(b0: Byte, b1: Byte, b2: Byte)
    ensures b0 / 4 * 4 + (b0 % 4 * 16 + b1 / 16) / 16 == b0
    ensures (b0 % 4 * 16 + b1 / 16) % 16 * 16 + (b1 % 16 * 4 + b2 / 64) / 4 == b1
    ensures (b1 % 16 * 4 + b2 / 64) % 4 * 64 + b2 % 64 == b2
  {
  }

  /** The bytes of a group give back its digit values. */
  lemma DigitArithmetic(v0: int, v1: int, v2: int, v3: int)
    requires 0 <= v0 < 64 && 0 <= v1 < 64 && 0 <= v2 < 64 && 0 <= v3 < 64
    ensures (v0 * 4 + v1 / 16) / 4 == v0
    ensures (v0 * 4 + v1 / 16) % 4 * 16 + (v1 % 16 * 16 + v2 / 4) / 16 == v1
    ensures (v1 % 16 * 16 + v2 / 4) % 16 * 4 + (v2 % 4 * 64 + v3) / 64 == v2
    ensures (v2 % 4 * 64 + v3) % 64 == v3
  {
  }

  /** A complete group decodes back to its three bytes. */
  lemma DecodeEncodeGroup(b0: Byte, b1: Byte, b2: Byte)
    ensures var g := EncodeGroup(b0, b1, b2);
      DecodeGroup(g[0], g[1], g[2], g[3]) == Some([b0, b1, b2])
  {
    var v0, v1, v2, v3 := b0 / 4, b0 % 4 * 16 + b1 / 16, b1 % 16 * 4 + b2 / 64, b2 % 64;
    ValueOfCharOf(v0);
    ValueOfCharOf(v1);
    ValueOfCharOf(v2);
    ValueOfCharOf(v3);
    GroupArithmetic(b0, b1, b2);
    var g := GroupBytes(v0, v1, v2, v3, 3);
    assert g[0] == b0 && g[1] == b1 && g[2] == b2;
    assert g == [b0, b1, b2];
  }

  /** A final group holding one byte decodes back to it. */
  lemma DecodeEncodeOne(b0: Byte)
    ensures DecodeFinalGroup(CharOf(b0 / 4), CharOf(b0 % 4 * 16), Pad, Pad) == Some([b0])
  {
    ValueOfCharOf(b0 / 4);
    ValueOfCharOf(b0 % 4 * 16);
    GroupArithmetic(b0, 0, 0);
    var v0, v1 := ValueOf(CharOf(b0 / 4)), ValueOf(CharOf(b0 % 4 * 16));
    assert v0 == Some(b0 / 4);
    assert v1 == Some(b0 % 4 * 16);
    assert v1.value % 16 == 0;
    var g := GroupBytes(v0.value, v1.value, 0, 0, 1);
    assert g[0] == b0;
    assert g == [b0];
  }

  /** A final group holding two bytes decodes back to them. */
  lemma DecodeEncodeTwo(b0: Byte, b1: Byte)
    ensures DecodeFinalGroup(CharOf(b0 / 4), CharOf(b0 % 4 * 16 + b1 / 16), CharOf(b1 % 16 * 4), Pad)
      == Some([b0, b1])
  {
    ValueOfCharOf(b0 / 4);
    ValueOfCharOf(b0 % 4 * 16 + b1 / 16);
    ValueOfCharOf(b1 % 16 * 4);
    GroupArithmetic(b0, b1, 0);
    var v0, v1, v2 := b0 / 4, b0 % 4 * 16 + b1 / 16, b1 % 16 * 4;
    assert v2 % 4 == 0;
    var g := GroupBytes(v0, v1, v2, 0, 2);
    assert g[0] == b0 && g[1] == b1;
    assert g == [b0, b1];
  }

  /** Decoding undoes encoding. */
  lemma {:induction false} DecodeEncode(b: seq<Byte>)
    ensures Decode(Encode(b)) == Some(b)
    decreases |b|
  {
    if |b| == 1 {
      DecodeEncodeOne(b[0]);
      assert b == [b[0]];
    } else if |b| == 2 {
      DecodeEncodeTwo(b[0], b[1]);
      assert b == [b[0], b[1]];
    } else if |b| == 3 {
      DecodeEncodeSingleGroup(b);
    } else if |b| > 3 {
      DecodeEncode(b[3..]);
      DecodeEncodeCons(b[..3], b[3..]);
      assert b == b[..3] + b[3..];
    }
  }

  /** Exactly one complete group decodes back to itself. */
  lemma DecodeEncodeSingleGroup(b: seq<Byte>)
    requires |b| == 3
    ensures Decode(Encode(b)) == Some(b)
  {
    DecodeEncodeGroupOf(b);
    assert Encode(b) == EncodeGroup(b[0], b[1], b[2]) by {
      assert b[3..] == [];
    }
  }

  /** Decoding the encoding of more than one group: the first group, then the rest. */
  lemma DecodeEncodeCons(head: seq<Byte>, tail: seq<Byte>)
    requires |head| == 3 && tail != []
    requires Decode(Encode(tail)) == Some(tail)
    ensures Decode(Encode(head + tail)) == Some(head + tail)
  {
    EncodeCons(head, tail);
    DecodeGroupThen(head, Encode(tail));
  }

  /** Decoding the encoding of a complete group followed by decodable text. */
  lemma DecodeGroupThen(h: seq<Byte>, t: string)
    requires |h| == 3 && t != [] && Decode(t).Some?
    ensures Decode(EncodeGroup(h[0], h[1], h[2]) + t) == Some(h + Decode(t).value)
  {
    DecodeEncodeGroupOf(h);
    DecodeAppend(EncodeGroup(h[0], h[1], h[2]), t);
  }

  /** A complete group, given as a sequence, decodes back to it. */
  lemma DecodeEncodeGroupOf(h: seq<Byte>)
    requires |h| == 3
    ensures var g := EncodeGroup(h[0], h[1], h[2]);
      DecodeGroup(g[0], g[1], g[2], g[3]) == Some(h)
  {
    DecodeEncodeGroup(h[0], h[1], h[2]);
    assert [h[0], h[1], h[2]] == h;
  }

  /** Decoding a complete group followed by more text: the group's bytes, then the rest. */
  lemma DecodeAppend(g: string, t: string)
    requires |g| == 4 && t != []
    requires DecodeGroup(g[0], g[1], g[2], g[3]).Some? && Decode(t).Some?
    ensures Decode(g + t) == Some(DecodeGroup(g[0], g[1], g[2], g[3]).value + Decode(t).value)
  {
    var s := g + t;
    assert s[4..] == t;
    assert s[0] == g[0] && s[1] == g[1] && s[2] == g[2] && s[3] == g[3];
  }

  /** A group of four alphabet characters is the encoding of the three bytes it decodes to. */
  lemma EncodeDecodeGroup(c0: char, c1: char, c2: char, c3: char)
    requires DecodeGroup(c0, c1, c2, c3).Some?
    ensures var g := DecodeGroup(c0, c1, c2, c3).value;
      EncodeGroup(g[0], g[1], g[2]) == [c0, c1, c2, c3]
  {
    var v0: int, v1: int, v2: int, v3: int := ValueOf(c0).value, ValueOf(c1).value, ValueOf(c2).value, ValueOf(c3).value;
    var b0, b1, b2 := v0 * 4 + v1 / 16, v1 % 16 * 16 + v2 / 4, v2 % 4 * 64 + v3;
    assert DecodeGroup(c0, c1, c2, c3).value == [b0, b1, b2];
    DigitArithmetic(v0, v1, v2, v3);
    assert b0 / 4 == v0 && b0 % 4 * 16 + b1 / 16 == v1;
    assert b1 % 16 * 4 + b2 / 64 == v2 && b2 % 64 == v3;
  }

  /** A final group is the encoding of the one, two or three bytes it decodes to. */
  lemma EncodeDecodeFinalGroup(c0: char, c1: char, c2: char, c3: char)
    requires DecodeFinalGroup(c0, c1, c2, c3).Some?
    ensures Encode(DecodeFinalGroup(c0, c1, c2, c3).value) == [c0, c1, c2, c3]
  {
    if c2 == Pad && c3 == Pad {
      EncodeDecodeOne(c0, c1);
    } else if c3 == Pad {
      EncodeDecodeTwo(c0, c1, c2);
    } else {
      EncodeDecodeThree(c0, c1, c2, c3);
    }
  }

  /** A final group with two padding characters is the encoding of its one byte. */
  lemma EncodeDecodeOne(c0: char, c1: char)
    requires DecodeFinalGroup(c0, c1, Pad, Pad).Some?
    ensures Encode(DecodeFinalGroup(c0, c1, Pad, Pad).value) == [c0, c1, Pad, Pad]
  {
    var b := DecodeFinalGroup(c0, c1, Pad, Pad).value;
    var v0: int, v1: int := ValueOf(c0).value, ValueOf(c1).value;
    DigitArithmetic(v0, v1, 0, 0);
    assert b == [v0 * 4 + v1 / 16];
    assert Encode(b) == [CharOf(b[0] / 4), CharOf(b[0] % 4 * 16), Pad, Pad];
  }

  /** A final group with one padding character is the encoding of its two bytes. */
  lemma EncodeDecodeTwo(c0: char, c1: char, c2: char)
    requires c2 != Pad
    requires DecodeFinalGroup(c0, c1, c2, Pad).Some?
    ensures Encode(DecodeFinalGroup(c0, c1, c2, Pad).value) == [c0, c1, c2, Pad]
  {
    var b := DecodeFinalGroup(c0, c1, c2, Pad).value;
    var v0: int, v1: int, v2: int := ValueOf(c0).value, ValueOf(c1).value, ValueOf(c2).value;
    DigitArithmetic(v0, v1, v2, 0);
    assert b == [v0 * 4 + v1 / 16, v1 % 16 * 16 + v2 / 4];
    assert Encode(b) == [CharOf(b[0] / 4), CharOf(b[0] % 4 * 16 + b[1] / 16), CharOf(b[1] % 16 * 4), Pad];
  }

  /** A final group without padding is the encoding of its three bytes. */
  lemma EncodeDecodeThree(c0: char, c1: char, c2: char, c3: char)
    requires c3 != Pad
    requires DecodeGroup(c0, c1, c2, c3).Some?
    ensures Encode(DecodeGroup(c0, c1, c2, c3).value) == [c0, c1, c2, c3]
  {
    var b := DecodeGroup(c0, c1, c2, c3).value;
    EncodeDecodeGroup(c0, c1, c2, c3);
    assert Encode(b) == EncodeGroup(b[0], b[1], b[2]) + Encode([]) by {
      assert b[3..] == [];
    }
  }

  /** Encoding a complete group followed by more bytes. */
  lemma EncodeCons(g: seq<Byte>, rest: seq<Byte>)
    requires |g| == 3 && rest != []
    ensures Encode(g + rest) == EncodeGroup(g[0], g[1], g[2]) + Encode(rest)
  {
    assert (g + rest)[3..] == rest;
  }

  /** Decoding text longer than one group: the first group, then the rest. */
  lemma DecodeCons(s: string)
    requires |s| > 4 && Decode(s).Some?
    ensures DecodeGroup(s[0], s[1], s[2], s[3]).Some? && Decode(s[4..]).Some?
    ensures Decode(s).value == DecodeGroup(s[0], s[1], s[2], s[3]).value + Decode(s[4..]).value
  {
  }

  /** Encoding undoes decoding: canonical text is the only encoding of its bytes. */
  lemma {:induction false} EncodeDecode(s: string)
    requires Decode(s).Some?
    ensures Encode(Decode(s).value) == s
    decreases |s|
  {
    if |s| == 4 {
      EncodeDecodeFinalGroup(s[0], s[1], s[2], s[3]);
      assert s == [s[0], s[1], s[2], s[3]];
    } else if |s| > 4 {
      DecodeCons(s);
      EncodeDecode(s[4..]);
      EncodeDecodeCons(s);
    }
  }

  /** Encoding what text longer than one group decodes to: the first group, then the rest. */
  lemma EncodeDecodeCons(s: string)
    requires |s| > 4 && Decode(s).Some? && Decode(s[4..]).Some?
    requires Encode(Decode(s[4..]).value) == s[4..]
    ensures Encode(Decode(s).value) == s
  {
    DecodeCons(s);
    var g := DecodeGroup(s[0], s[1], s[2], s[3]).value;
    var rest := Decode(s[4..]).value;
    EncodeDecodeGroup(s[0], s[1], s[2], s[3]);
    EncodeCons(g, rest);
    assert Encode(Decode(s).value) == [s[0], s[1], s[2], s[3]] + s[4..];
    FirstGroup(s);
  }

  /** Text of at least four characters is its first group followed by the rest. */
  lemma FirstGroup(s: string)
    requires |s| >= 4
    ensures s == [s[0], s[1], s[2], s[3]] + s[4..]
  {
  }
}
