/** UTF-8 as section 4 of RFC 3629 defines it, the check `String::from_utf8` makes:
    well-formed sequences of one to four bytes, no overlong forms, no surrogates and
    nothing above U+10FFFF. A Dafny `char` is a Unicode scalar value, so a string is
    always encodable, and decoding and encoding are inverse to each other. */
module Utf8 {
  import opened Results
  import opened Bytes

  predicate IsContinuation(b: Byte) {
    0x80 <= b <= 0xBF
  }

  /** The range RFC 3629 allows for the second byte of a three-byte sequence. */
  predicate SecondOfThree(b0: Byte, b1: Byte) {
    if b0 == 0xE0 then 0xA0 <= b1 <= 0xBF
    else if b0 == 0xED then 0x80 <= b1 <= 0x9F
    else IsContinuation(b1)
  }

  /** The range RFC 3629 allows for the second byte of a four-byte sequence. */
  predicate SecondOfFour(b0: Byte, b1: Byte) {
    if b0 == 0xF0 then 0x90 <= b1 <= 0xBF
    else if b0 == 0xF4 then 0x80 <= b1 <= 0x8F
    else IsContinuation(b1)
  }

  /** The character of a two-byte sequence. */
  function Char2(b0: Byte, b1: Byte): char
    requires 0xC2 <= b0 <= 0xDF && IsContinuation(b1)
  {
    ((b0 - 0xC0) * 64 + (b1 - 0x80)) as char
  }

  /** The character of a three-byte sequence. */
  function Char3(b0: Byte, b1: Byte, b2: Byte): char
    requires 0xE0 <= b0 <= 0xEF && SecondOfThree(b0, b1) && IsContinuation(b2)
  {
    ((b0 - 0xE0) * 4096 + (b1 - 0x80) * 64 + (b2 - 0x80)) as char
  }

  /** The character of a four-byte sequence. */
  function Char4(b0: Byte, b1: Byte, b2: Byte, b3: Byte): char
    requires 0xF0 <= b0 <= 0xF4 && SecondOfFour(b0, b1) && IsContinuation(b2) && IsContinuation(b3)
  {
    ((b0 - 0xF0) * 0x40000 + (b1 - 0x80) * 4096 + (b2 - 0x80) * 64 + (b3 - 0x80)) as char
  }

  /** The character that the well-formed sequence at the start of `s` encodes, with the
      sequence's length; None when `s` does not start with a well-formed sequence. */
  function DecodeFirst(s: seq<Byte>): (r: Option<(char, nat)>)
    ensures r.Some? ==> 1 <= r.value.1 <= |s|
  {
    if |s| == 0 then None
    else if s[0] <= 0x7F then Some((s[0] as char, 1))
    else if 0xC2 <= s[0] <= 0xDF then
      if |s| >= 2 && IsContinuation(s[1]) then Some((Char2(s[0], s[1]), 2)) else None
    else if 0xE0 <= s[0] <= 0xEF then
      if |s| >= 3 && SecondOfThree(s[0], s[1]) && IsContinuation(s[2])
      then Some((Char3(s[0], s[1], s[2]), 3))
      else None
    else if 0xF0 <= s[0] <= 0xF4 then
      if |s| >= 4 && SecondOfFour(s[0], s[1]) && IsContinuation(s[2]) && IsContinuation(s[3])
      then Some((Char4(s[0], s[1], s[2], s[3]), 4))
      else None
    else None
  }

  /** `String::from_utf8`: the text the bytes encode, or None if they are not UTF-8.
      Valid input never yields more characters than it has bytes. */
  function Decode(s: seq<Byte>): (r: Option<string>)
    ensures r.Some? ==> |r.value| <= |s|
    decreases |s|
  {
    if s == [] then Some([])
    else
      match DecodeFirst(s)
      case None => None
      case Some((c, n)) =>
        match Decode(s[n..])
        case None => None
        case Some(t) => Some([c] + t)
  }

  /** The shortest UTF-8 sequence of one character. */
  function EncodeChar(c: char): (r: seq<Byte>)
    ensures 1 <= |r| <= 4
  {
    var n := c as int;
    if n < 0x80 then [n]
    else if n < 0x800 then [0xC0 + n / 64, 0x80 + n % 64]
    else if n < 0x10000 then [0xE0 + n / 4096, 0x80 + n / 64 % 64, 0x80 + n % 64]
    else [0xF0 + n / 0x40000, 0x80 + n / 4096 % 64, 0x80 + n / 64 % 64, 0x80 + n % 64]
  }

  /** `str::as_bytes` / `String::into_bytes`: the UTF-8 encoding of a string; each
      character takes at least one byte. */
  function Encode(t: string): (r: seq<Byte>)
    ensures |r| >= |t|
    decreases |t|
  {
    if t == [] then [] else EncodeChar(t[0]) + Encode(t[1..])
  }

  /** ASCII text encodes as one byte per character, each byte the character's code. */
  lemma {:induction false} EncodeAscii(t: string)
    requires forall i :: 0 <= i < |t| ==> t[i] as int < 0x80
    ensures |Encode(t)| == |t|
    ensures forall i :: 0 <= i < |t| ==> Encode(t)[i] == t[i] as int
    decreases |t|
  {
    if t != [] {
      EncodeAscii(t[1..]);
      assert Encode(t) == [t[0] as int] + Encode(t[1..]);
    }
  }

  /** A two-byte encoding decodes back to its character. */
  lemma DecodeChar2(c: char)
    requires 0x80 <= c as int < 0x800
    ensures var e := EncodeChar(c); 0xC2 <= e[0] <= 0xDF && IsContinuation(e[1]) && Char2(e[0], e[1]) == c
  {
    var n := c as int;
    assert (n / 64) * 64 + n % 64 == n;
  }

  /** A three-byte encoding decodes back to its character. */
  lemma DecodeChar3(c: char)
    requires 0x800 <= c as int < 0x10000
    ensures var e := EncodeChar(c);
      0xE0 <= e[0] <= 0xEF && SecondOfThree(e[0], e[1]) && IsContinuation(e[2])
      && Char3(e[0], e[1], e[2]) == c
  {
    var n := c as int;
    assert (n / 4096) * 4096 + (n / 64 % 64) * 64 + n % 64 == n;
  }

  /** A four-byte encoding decodes back to its character. */
  lemma DecodeChar4(c: char)
    requires 0x10000 <= c as int
    ensures var e := EncodeChar(c);
      0xF0 <= e[0] <= 0xF4 && SecondOfFour(e[0], e[1]) && IsContinuation(e[2]) && IsContinuation(e[3])
      && Char4(e[0], e[1], e[2], e[3]) == c
  {
    var n := c as int;
    assert (n / 0x40000) * 0x40000 + (n / 4096 % 64) * 4096 + (n / 64 % 64) * 64 + n % 64 == n;
  }

  /** The bytes of a one-character encoding determine the character: decoding reads it
      back whatever follows it. */
  lemma DecodeFirstEncodeChar(c: char, rest: seq<Byte>)
    ensures DecodeFirst(EncodeChar(c) + rest) == Some((c, |EncodeChar(c)|))
  {
    var n := c as int;
    var e := EncodeChar(c);
    var s := e + rest;
    assert s[..|e|] == e;
    if n < 0x80 {
    } else if n < 0x800 {
      DecodeChar2(c);
    } else if n < 0x10000 {
      DecodeChar3(c);
    } else {
      DecodeChar4(c);
    }
  }

  /** Decoding undoes encoding: every string survives the trip through its bytes. */
  lemma {:induction false} DecodeEncode(t: string)
    ensures Decode(Encode(t)) == Some(t)
    decreases |t|
  {
    if t != [] {
      var e, rest := EncodeChar(t[0]), Encode(t[1..]);
      assert Encode(t) == e + rest;
      DecodeFirstEncodeChar(t[0], rest);
      assert (e + rest)[|e|..] == rest;
      DecodeEncode(t[1..]);
      assert t == [t[0]] + t[1..];
    }
  }

  /** A well-formed two-byte sequence is the encoding of its character. */
  lemma EncodeChar2(b0: Byte, b1: Byte)
    requires 0xC2 <= b0 <= 0xDF && IsContinuation(b1)
    ensures EncodeChar(Char2(b0, b1)) == [b0, b1]
  {
    var n := (b0 as int - 0xC0) * 64 + (b1 as int - 0x80);
    assert n / 64 == b0 - 0xC0 && n % 64 == b1 - 0x80;
  }

  /** A well-formed three-byte sequence is the encoding of its character. */
  lemma EncodeChar3(b0: Byte, b1: Byte, b2: Byte)
    requires 0xE0 <= b0 <= 0xEF && SecondOfThree(b0, b1) && IsContinuation(b2)
    ensures EncodeChar(Char3(b0, b1, b2)) == [b0, b1, b2]
  {
    var hi := (b0 as int - 0xE0) * 64 + (b1 as int - 0x80);
    var n := hi * 64 + (b2 as int - 0x80);
    assert n / 64 == hi && n % 64 == b2 - 0x80;
    assert n / 4096 == b0 - 0xE0;
    assert hi % 64 == b1 - 0x80;
  }

  /** A well-formed four-byte sequence is the encoding of its character. */
  lemma EncodeChar4(b0: Byte, b1: Byte, b2: Byte, b3: Byte)
    requires 0xF0 <= b0 <= 0xF4 && SecondOfFour(b0, b1) && IsContinuation(b2) && IsContinuation(b3)
    ensures EncodeChar(Char4(b0, b1, b2, b3)) == [b0, b1, b2, b3]
  {
    var top := (b0 as int - 0xF0) * 64 + (b1 as int - 0x80);
    var hi := top * 64 + (b2 as int - 0x80);
    var n := hi * 64 + (b3 as int - 0x80);
    assert n / 64 == hi && n % 64 == b3 - 0x80;
    assert n / 4096 == top && hi % 64 == b2 - 0x80;
    assert n / 0x40000 == b0 - 0xF0 && top % 64 == b1 - 0x80;
  }

  /** The well-formed sequence at the start of `s` is the encoding of its character. */
  lemma EncodeCharDecodeFirst(s: seq<Byte>)
    requires DecodeFirst(s).Some?
    ensures EncodeChar(DecodeFirst(s).value.0) == s[..DecodeFirst(s).value.1]
  {
    var len := DecodeFirst(s).value.1;
    if len == 2 {
      EncodeChar2(s[0], s[1]);
      assert s[..2] == [s[0], s[1]];
    } else if len == 3 {
      EncodeChar3(s[0], s[1], s[2]);
      assert s[..3] == [s[0], s[1], s[2]];
    } else if len == 4 {
      EncodeChar4(s[0], s[1], s[2], s[3]);
      assert s[..4] == [s[0], s[1], s[2], s[3]];
    }
  }

  /** Encoding undoes decoding: valid UTF-8 is the only encoding of its text. */
  lemma {:induction false} EncodeDecode(s: seq<Byte>)
    requires Decode(s).Some?
    ensures Encode(Decode(s).value) == s
    decreases |s|
  {
    if s != [] {
      var (c, len) := DecodeFirst(s).value;
      var t := Decode(s[len..]).value;
      assert Decode(s).value == [c] + t;
      assert EncodeChar(c) == s[..len] by {
        EncodeCharDecodeFirst(s);
      }
      assert Encode(t) == s[len..] by {
        EncodeDecode(s[len..]);
      }
      assert ([c] + t)[1..] == t;
      assert s == s[..len] + s[len..];
    }
  }
}
