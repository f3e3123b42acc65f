/** UTF-8 as RFC 3629 defines it (section 3 for the encoding, section 4 for
    the well-formed byte sequences). A Rust `String` is a sequence of Unicode
    scalar values, which is exactly Dafny's `seq<char>`; its bytes are the
    UTF-8 encoding, and `String::from_utf8` accepts a byte buffer iff it is
    well-formed UTF-8. */
module Utf8 {
  import opened Wrappers

  predicate IsContinuation(b: Byte) {
    0x80 <= b < 0xC0
  }

  /** The one, two, three or four bytes of a scalar value (RFC 3629, section 3). */
  function EncodeChar(c: char): (r: seq<Byte>)
    ensures 1 <= |r| <= 4
    ensures |r| == 1 <==> c as int < 0x80
    ensures forall i :: 1 <= i < |r| ==> IsContinuation(r[i])
  {
    var cp := c as int;
    if cp < 0x80 then [cp]
    else if cp < 0x800 then [0xC0 + cp / 0x40, 0x80 + cp % 0x40]
    else if cp < 0x1_0000 then [0xE0 + cp / 0x1000, 0x80 + cp / 0x40 % 0x40, 0x80 + cp % 0x40]
    else [0xF0 + cp / 0x4_0000, 0x80 + cp / 0x1000 % 0x40, 0x80 + cp / 0x40 % 0x40, 0x80 + cp % 0x40]
  }

  /** The bytes of a whole string: the encodings of its scalar values, in order. */
  function Encode(s: seq<char>): seq<Byte>
  {
    if |s| == 0 then [] else EncodeChar(s[0]) + Encode(s[1..])
  }

  /** The allowed second byte of a sequence, by its first byte
      (the UTF8-3 and UTF8-4 rules of RFC 3629, section 4). */
  predicate SecondByteOk(b0: Byte, b1: Byte) {
    if b0 == 0xE0 then 0xA0 <= b1 < 0xC0
    else if b0 == 0xED then 0x80 <= b1 < 0xA0
    else if b0 == 0xF0 then 0x90 <= b1 < 0xC0
    else if b0 == 0xF4 then 0x80 <= b1 < 0x90
    else IsContinuation(b1)
  }

  /** The scalar value at the head of `b` and the number of bytes it takes,
      or None when `b` does not start with a well-formed sequence. */
  function DecodeChar(b: seq<Byte>): (r: Option<(char, nat)>)
    requires |b| > 0
    ensures r.Some? ==> 1 <= r.value.1 <= |b|
  {
    var b0: int := b[0];
    if b0 < 0x80 then
      Some((b0 as char, 1))
    else if 0xC2 <= b0 < 0xE0 then
      if |b| >= 2 && IsContinuation(b[1])
      then Some((Scalar2(b0, b[1]) as char, 2))
      else None
    else if 0xE0 <= b0 < 0xF0 then
      if |b| >= 3 && SecondByteOk(b0, b[1]) && IsContinuation(b[2])
      then Some((Scalar3(b0, b[1], b[2]) as char, 3))
      else None
    else if 0xF0 <= b0 < 0xF5 then
      if |b| >= 4 && SecondByteOk(b0, b[1]) && IsContinuation(b[2]) && IsContinuation(b[3])
      then Some((Scalar4(b0, b[1], b[2], b[3]) as char, 4))
      else None
    else
      None
  }

  /** The code point carried by a well-formed two-byte sequence. */
  function Scalar2(b0: Byte, b1: Byte): (cp: int)
    requires 0xC2 <= b0 < 0xE0 && IsContinuation(b1)
    ensures 0x80 <= cp < 0x800
  {
    (b0 - 0xC0) as int * 0x40 + (b1 - 0x80) as int
  }

  /** The code point carried by a well-formed three-byte sequence; never a surrogate. */
  function Scalar3(b0: Byte, b1: Byte, b2: Byte): (cp: int)
    requires 0xE0 <= b0 < 0xF0 && SecondByteOk(b0, b1) && IsContinuation(b2)
    ensures 0x800 <= cp < 0xD800 || 0xE000 <= cp < 0x1_0000
  {
    (b0 - 0xE0) as int * 0x1000 + (b1 - 0x80) as int * 0x40 + (b2 - 0x80) as int
  }

  /** The code point carried by a well-formed four-byte sequence. */
  function Scalar4(b0: Byte, b1: Byte, b2: Byte, b3: Byte): (cp: int)
    requires 0xF0 <= b0 < 0xF5 && SecondByteOk(b0, b1) && IsContinuation(b2) && IsContinuation(b3)
    ensures 0x1_0000 <= cp < 0x11_0000
  {
    (b0 - 0xF0) as int * 0x4_0000 + (b1 - 0x80) as int * 0x1000 + (b2 - 0x80) as int * 0x40 + (b3 - 0x80) as int
  }

  /** `String::from_utf8`: the scalar values of a well-formed buffer, None otherwise. */
  function Decode(b: seq<Byte>): Option<seq<char>>
    decreases |b|
  {
    if |b| == 0 then Some([])
    else match DecodeChar(b)
      case None => None
      case Some((c, n)) =>
        match Decode(b[n..])
        case None => None
        case Some(rest) => Some([c] + rest)
  }

  /** Decoding the encoding of one scalar value gives it back, whatever follows. */
  lemma DecodeEncodeChar(c: char, rest: seq<Byte>)
    ensures DecodeChar(EncodeChar(c) + rest) == Some((c, |EncodeChar(c)|))
  {
    var cp := c as int;
    var b := EncodeChar(c) + rest;
    if cp < 0x80 {
    } else if cp < 0x800 {
      assert b[0] == 0xC0 + cp / 0x40 && b[1] == 0x80 + cp % 0x40;
      assert Scalar2(b[0], b[1]) == cp;
    } else if cp < 0x1_0000 {
      assert b[0] == 0xE0 + cp / 0x1000 && b[1] == 0x80 + cp / 0x40 % 0x40 && b[2] == 0x80 + cp % 0x40;
      ThreeByteFields(cp);
    } else {
      assert b[0] == 0xF0 + cp / 0x4_0000 && b[1] == 0x80 + cp / 0x1000 % 0x40;
      assert b[2] == 0x80 + cp / 0x40 % 0x40 && b[3] == 0x80 + cp % 0x40;
      FourByteFields(cp);
    }
  }

  lemma ThreeByteFields(cp: int)
    requires 0x800 <= cp < 0xD800 || 0xE000 <= cp < 0x1_0000
    ensures SecondByteOk(0xE0 + cp / 0x1000, 0x80 + cp / 0x40 % 0x40)
    ensures Scalar3(0xE0 + cp / 0x1000, 0x80 + cp / 0x40 % 0x40, 0x80 + cp % 0x40) == cp
  {
  }

  lemma FourByteFields(cp: int)
    requires 0x1_0000 <= cp < 0x11_0000
    ensures 0xF0 + cp / 0x4_0000 < 0xF5
    ensures SecondByteOk(0xF0 + cp / 0x4_0000, 0x80 + cp / 0x1000 % 0x40)
    ensures Scalar4(0xF0 + cp / 0x4_0000, 0x80 + cp / 0x1000 % 0x40, 0x80 + cp / 0x40 % 0x40, 0x80 + cp % 0x40) == cp
  {
  }

  /** The decoder accepts only canonical encodings: what it reads is exactly
      the encoding of the scalar value it returns. */
  lemma DecodeCharCanonical(b: seq<Byte>)
    requires |b| > 0 && DecodeChar(b).Some?
    ensures b[..DecodeChar(b).value.1] == EncodeChar(DecodeChar(b).value.0)
  {
    var b0 := b[0];
    if b0 < 0x80 {
    } else if b0 < 0xE0 {
      TwoByteCanonical(b0, b[1]);
    } else if b0 < 0xF0 {
      ThreeByteCanonical(b0, b[1], b[2]);
    } else {
      FourByteCanonical(b0, b[1], b[2], b[3]);
    }
  }

  lemma TwoByteCanonical(b0: Byte, b1: Byte)
    requires 0xC2 <= b0 < 0xE0 && IsContinuation(b1)
    ensures EncodeChar(Scalar2(b0, b1) as char) == [b0, b1]
  {
    var cp := Scalar2(b0, b1);
    assert cp / 0x40 == b0 - 0xC0 && cp % 0x40 == b1 - 0x80;
  }

  lemma ThreeByteCanonical(b0: Byte, b1: Byte, b2: Byte)
    requires 0xE0 <= b0 < 0xF0 && SecondByteOk(b0, b1) && IsContinuation(b2)
    ensures EncodeChar(Scalar3(b0, b1, b2) as char) == [b0, b1, b2]
  {
    var cp := Scalar3(b0, b1, b2);
    assert cp / 0x40 == (b0 - 0xE0) * 0x40 + (b1 - 0x80);
    assert cp / 0x1000 == b0 - 0xE0 && cp / 0x40 % 0x40 == b1 - 0x80 && cp % 0x40 == b2 - 0x80;
  }

  lemma FourByteCanonical(b0: Byte, b1: Byte, b2: Byte, b3: Byte)
    requires 0xF0 <= b0 < 0xF5 && SecondByteOk(b0, b1) && IsContinuation(b2) && IsContinuation(b3)
    ensures EncodeChar(Scalar4(b0, b1, b2, b3) as char) == [b0, b1, b2, b3]
  {
    var cp := Scalar4(b0, b1, b2, b3);
    assert cp / 0x40 == (b0 - 0xF0) * 0x1000 + (b1 - 0x80) * 0x40 + (b2 - 0x80);
    assert cp / 0x1000 == (b0 - 0xF0) * 0x40 + (b1 - 0x80);
    assert cp / 0x4_0000 == b0 - 0xF0 && cp / 0x1000 % 0x40 == b1 - 0x80;
    assert cp / 0x40 % 0x40 == b2 - 0x80 && cp % 0x40 == b3 - 0x80;
  }

  /** Round trip: every string's bytes are well-formed and decode to it. */
  lemma {:induction false} DecodeEncode(s: seq<char>)
    ensures Decode(Encode(s)) == Some(s)
  {
    if s != [] {
      var e := EncodeChar(s[0]);
      DecodeEncodeChar(s[0], Encode(s[1..]));
      assert (e + Encode(s[1..]))[|e|..] == Encode(s[1..]);
      DecodeEncode(s[1..]);
      assert [s[0]] + s[1..] == s;
    }
  }

  /** The converse: a buffer the decoder accepts is the encoding of what it
      decodes to, so `Encode` and `Decode` are inverse bijections between
      strings and well-formed buffers. */
  lemma {:induction false} EncodeDecode(b: seq<Byte>)
    requires Decode(b).Some?
    ensures Encode(Decode(b).value) == b
    decreases |b|
  {
    if b != [] {
      var n := DecodeChar(b).value.1;
      DecodeCharCanonical(b);
      DecodeStep(b);
      EncodeDecode(b[n..]);
      EncodeJoin(b, n, DecodeChar(b).value.0, Decode(b[n..]).value, Decode(b).value);
    }
  }

  /** A well-formed buffer decodes to its first scalar value followed by
      what the bytes after it decode to. */
  lemma DecodeStep(b: seq<Byte>)
    requires |b| > 0 && Decode(b).Some?
    ensures DecodeChar(b).Some? && Decode(b[DecodeChar(b).value.1..]).Some?
    ensures Decode(b).value == [DecodeChar(b).value.0] + Decode(b[DecodeChar(b).value.1..]).value
  {
  }

  /** A buffer made of the encoding of `c` and then that of `t` is the
      encoding of `c` followed by `t`. */
  lemma EncodeJoin(b: seq<Byte>, n: nat, c: char, t: seq<char>, s: seq<char>)
    requires n <= |b| && b[..n] == EncodeChar(c) && b[n..] == Encode(t) && s == [c] + t
    ensures Encode(s) == b
  {
    assert s[1..] == t;
    assert b == b[..n] + b[n..];
  }
}
