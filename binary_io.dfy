/** The byte primitives the lookup key is written and read with
    (`write_binary`, `write_scalar`, `write_string` on a growable buffer;
    `read_uuid`, `advance`, `read_string` on a cursor). Their library code is
    not part of this model; each is stated by the field layout it produces
    or consumes:
    - a UUID: its sixteen bytes as they stand, most significant first (RFC 4122);
    - a `char`: four bytes holding its code point, least significant first;
    - a string: its UTF-8 byte count as a uvarint, then the UTF-8 bytes (RFC 3629). */
module BinaryIo {
  import opened Wrappers
  import opened Varint
  import Utf8

  const UuidWidth: nat := 16
  const CharWidth: nat := 4

  /** A 128-bit UUID (RFC 4122) as its sixteen bytes. */
  type Uuid = b: seq<Byte> | |b| == UuidWidth
    witness [0, 0, 0, 0, 0, 0, 0, 0, 0, 0, 0, 0, 0, 0, 0, 0]

  // ---- writing: each primitive appends one field and cannot fail ----

  /** `write_binary` of a UUID: its sixteen bytes after what was written. */
  function WriteBinary(buf: seq<Byte>, u: Uuid): (r: seq<Byte>)
    ensures |r| == |buf| + UuidWidth && r[..|buf|] == buf
  {
    buf + u
  }

  /** The four bytes of a code point, least significant first. */
  function CodePointBytes(c: char): (r: seq<Byte>)
    ensures |r| == CharWidth
  {
    var cp := c as int;
    [cp % 0x100, cp / 0x100 % 0x100, cp / 0x1_0000 % 0x100, cp / 0x100_0000]
  }

  /** `write_scalar` of a `char`: four bytes after what was written. */
  function WriteScalar(buf: seq<Byte>, c: char): (r: seq<Byte>)
    ensures |r| == |buf| + CharWidth && r[..|buf|] == buf
  {
    buf + CodePointBytes(c)
  }

  /** A byte string framed by its length: the uvarint byte count, then the bytes. */
  function LengthPrefixed(bytes: seq<Byte>): (r: seq<Byte>)
    ensures |r| > |bytes|
  {
    EncodeUvarint(|bytes|) + bytes
  }

  /** `write_string`: the length prefix and the UTF-8 bytes after what was
      written; at least one byte, even for the empty string. */
  function WriteString(buf: seq<Byte>, s: string): (r: seq<Byte>)
    ensures |r| > |buf| && r[..|buf|] == buf
  {
    buf + LengthPrefixed(Utf8.Encode(s))
  }

  // ---- reading: the value at a position and the position after it ----

  /** `read_uuid`: sixteen bytes, or `Eof` when fewer remain. */
  function UuidAt(data: seq<Byte>, pos: nat): (r: Result<(Uuid, nat), ReadError>)
    requires pos <= |data|
    ensures r.Ok? <==> |data| - pos >= UuidWidth
    ensures r.Ok? ==> r.value.1 == pos + UuidWidth && r.value.0 == data[pos..pos + UuidWidth]
    ensures r.Err? ==> r.error == Eof
  {
    if |data| - pos < UuidWidth then Err(Eof)
    else Ok((data[pos..pos + UuidWidth], pos + UuidWidth))
  }

  /** The code point held by four bytes, least significant first. */
  function CodePointOf(b: seq<Byte>): int
    requires |b| == CharWidth
  {
    b[0] as int + 0x100 * b[1] as int + 0x1_0000 * b[2] as int + 0x100_0000 * b[3] as int
  }

  /** `read_string`: a uvarint byte count, then that many bytes, which must
      be UTF-8. */
  function StringAt(data: seq<Byte>, pos: nat): (r: Result<(string, nat), ReadError>)
    requires pos <= |data|
    ensures r.Ok? ==> pos < r.value.1 <= |data|
  {
    match UvarintAt(data, pos)
    case Err(e) => Err(e)
    case Ok((len, p)) =>
      if len > |data| - p then Err(Eof)
      else match Utf8.Decode(data[p..p + len])
        case None => Err(InvalidUtf8)
        case Some(s) => Ok((s, p + len))
  }

  // ---- each primitive reads back what its writer wrote ----

  lemma UuidRoundTrip(buf: seq<Byte>, u: Uuid, rest: seq<Byte>)
    ensures UuidAt(WriteBinary(buf, u) + rest, |buf|) == Ok((u, |buf| + UuidWidth))
  {
    assert (buf + u + rest)[|buf|..|buf| + UuidWidth] == u;
  }

  lemma CodePointRoundTrip(c: char)
    ensures CodePointOf(CodePointBytes(c)) == c as int
  {
    var cp := c as int;
    assert cp / 0x100_0000 < 0x100;
    assert cp == cp % 0x100 + 0x100 * (cp / 0x100);
    assert cp / 0x100 == cp / 0x100 % 0x100 + 0x100 * (cp / 0x1_0000);
    assert cp / 0x1_0000 == cp / 0x1_0000 % 0x100 + 0x100 * (cp / 0x100_0000);
  }

  /** A string written after any prefix, and followed by anything, reads back
      as itself, provided its byte count fits the `u64` length prefix. */
  lemma StringRoundTrip(buf: seq<Byte>, s: string, rest: seq<Byte>)
    requires |Utf8.Encode(s)| < TwoTo64
    ensures StringAt(WriteString(buf, s) + rest, |buf|) == Ok((s, |WriteString(buf, s)|))
  {
    Utf8.DecodeEncode(s);
    WrittenString(buf, s);
    PrefixedBytesRoundTrip(buf, Utf8.Encode(s), s, rest);
  }

  lemma WrittenString(buf: seq<Byte>, s: string)
    ensures WriteString(buf, s) == buf + LengthPrefixed(Utf8.Encode(s))
  {
  }

  /** Bytes that decode to `s`, written after their length prefix, read back
      as `s`. */
  lemma PrefixedBytesRoundTrip(buf: seq<Byte>, bytes: seq<Byte>, s: string, rest: seq<Byte>)
    requires |bytes| < TwoTo64 && Utf8.Decode(bytes) == Some(s)
    ensures StringAt(buf + LengthPrefixed(bytes) + rest, |buf|)
         == Ok((s, |buf| + |LengthPrefixed(bytes)|))
  {
    MiddleSlice(buf, LengthPrefixed(bytes), rest);
    StringAfterPrefix(buf + LengthPrefixed(bytes) + rest, |buf|, bytes, s);
  }

  /** Where a length-prefixed byte string stands at `pos`, the string read
      is what its bytes decode to. */
  lemma StringAfterPrefix(data: seq<Byte>, pos: nat, bytes: seq<Byte>, s: string)
    requires |bytes| < TwoTo64 && Utf8.Decode(bytes) == Some(s)
    requires pos + |LengthPrefixed(bytes)| <= |data|
    requires data[pos..pos + |LengthPrefixed(bytes)|] == LengthPrefixed(bytes)
    ensures StringAt(data, pos) == Ok((s, pos + |LengthPrefixed(bytes)|))
  {
    FramedSlices(data, pos, bytes);
    UvarintAtEncoded(data, pos, |bytes|);
    var p := UvarintAt(data, pos).value.1;
    assert p + |bytes| == pos + |LengthPrefixed(bytes)|;
    StringAtFields(data, pos, bytes, p, pos + |LengthPrefixed(bytes)|, s);
  }

  lemma MiddleSlice(a: seq<Byte>, b: seq<Byte>, c: seq<Byte>)
    ensures (a + b + c)[|a|..|a| + |b|] == b
  {
    assert (a + b + c)[|a|..|a| + |b|] == b;
  }

  /** Where the prefix and where the bytes of a length-prefixed byte string stand. */
  lemma FramedSlices(data: seq<Byte>, pos: nat, bytes: seq<Byte>)
    requires pos + |LengthPrefixed(bytes)| <= |data|
    requires data[pos..pos + |LengthPrefixed(bytes)|] == LengthPrefixed(bytes)
    ensures pos + |EncodeUvarint(|bytes|)| + |bytes| <= |data|
    ensures data[pos..pos + |EncodeUvarint(|bytes|)|] == EncodeUvarint(|bytes|)
    ensures data[pos + |EncodeUvarint(|bytes|)|..pos + |EncodeUvarint(|bytes|)| + |bytes|] == bytes
  {
    var e := EncodeUvarint(|bytes|);
    assert data[pos..pos + |e|] == data[pos..pos + |LengthPrefixed(bytes)|][..|e|];
    assert data[pos + |e|..pos + |e| + |bytes|] == data[pos..pos + |LengthPrefixed(bytes)|][|e|..];
  }

  /** A string read whose length prefix and bytes both read successfully. */
  lemma StringAtFields(data: seq<Byte>, pos: nat, bytes: seq<Byte>, p: nat, end: nat, s: string)
    requires pos <= |data| && UvarintAt(data, pos) == Ok((|bytes|, p))
    requires end == p + |bytes| <= |data| && data[p..end] == bytes
    requires Utf8.Decode(bytes) == Some(s)
    ensures StringAt(data, pos) == Ok((s, end))
  {
  }

  /** A buffer that ends inside a written string fails to read, whether it
      ends inside the length prefix or inside the bytes. */
  lemma StringTruncated(buf: seq<Byte>, s: string, m: nat)
    requires |Utf8.Encode(s)| < TwoTo64
    requires |buf| <= m < |WriteString(buf, s)|
    ensures StringAt(WriteString(buf, s)[..m], |buf|).Err?
  {
    var bytes := Utf8.Encode(s);
    var e := EncodeUvarint(|bytes|);
    var w := WriteString(buf, s);
    WrittenStringFrame(buf, s);
    FramedSlices(w, |buf|, bytes);
    if m < |buf| + |e| {
      CutSlice(w, |buf|, m, e);
      StringCutInPrefix(w[..m], |buf|, |bytes|);
    } else {
      KeptSlice(w, |buf|, m, e);
      StringCutInBytes(w[..m], |buf|, |bytes|);
    }
  }

  lemma WrittenStringFrame(buf: seq<Byte>, s: string)
    ensures |WriteString(buf, s)| == |buf| + |LengthPrefixed(Utf8.Encode(s))|
    ensures WriteString(buf, s)[|buf|..|buf| + |LengthPrefixed(Utf8.Encode(s))|]
         == LengthPrefixed(Utf8.Encode(s))
  {
    WrittenString(buf, s);
    assert WriteString(buf, s)[|buf|..] == LengthPrefixed(Utf8.Encode(s));
  }

  /** A buffer that ends inside the length prefix of `n` bytes: the read fails. */
  lemma StringCutInPrefix(data: seq<Byte>, pos: nat, n: nat)
    requires pos <= |data| && |data| - pos < |EncodeUvarint(n)|
    requires data[pos..] == EncodeUvarint(n)[..|data| - pos]
    ensures StringAt(data, pos).Err?
  {
    UvarintFromTruncated(n, |data| - pos, 0);
  }

  /** A buffer that holds the length prefix of `n` bytes but fewer than `n`
      bytes after it: the read fails. */
  lemma StringCutInBytes(data: seq<Byte>, pos: nat, n: nat)
    requires n < TwoTo64
    requires pos + |EncodeUvarint(n)| <= |data| < pos + |EncodeUvarint(n)| + n
    requires data[pos..pos + |EncodeUvarint(n)|] == EncodeUvarint(n)
    ensures StringAt(data, pos).Err?
  {
    UvarintAtEncoded(data, pos, n);
  }

  lemma CutSlice(w: seq<Byte>, pos: nat, m: nat, e: seq<Byte>)
    requires pos <= m < pos + |e| <= |w| && w[pos..pos + |e|] == e
    ensures w[..m][pos..] == e[..m - pos]
  {
    assert w[..m][pos..] == w[pos..pos + |e|][..m - pos];
  }

  lemma KeptSlice(w: seq<Byte>, pos: nat, m: nat, e: seq<Byte>)
    requires pos + |e| <= m <= |w| && w[pos..pos + |e|] == e
    ensures w[..m][pos..pos + |e|] == e
  {
    assert w[..m][pos..pos + |e|] == w[pos..pos + |e|];
  }

  /** Reading a string only looks at the bytes from its position on. */
  lemma StringAtSuffix(v: seq<Byte>, w: seq<Byte>, pos: nat)
    requires pos <= |v| && pos <= |w| && v[pos..] == w[pos..]
    ensures StringAt(v, pos) == StringAt(w, pos)
  {
    assert |v| == |w| by { assert |v[pos..]| == |w[pos..]|; }
    UvarintAtShift(v, pos);
    UvarintAtShift(w, pos);
    var r := UvarintAt(v, pos);
    if r.Ok? {
      var len, p := r.value.0, r.value.1;
      if len <= |v| - p {
        SliceOfSuffix(v, pos, p - pos, p - pos + len);
        SliceOfSuffix(w, pos, p - pos, p - pos + len);
        assert v[p..p + len] == w[p..p + len];
      }
    }
  }

  lemma SliceOfSuffix(v: seq<Byte>, pos: nat, a: nat, b: nat)
    requires pos <= |v| && a <= b <= |v| - pos
    ensures v[pos..][a..b] == v[pos + a..pos + b]
  {
    assert v[pos..][a..b] == v[pos + a..pos + b];
  }

  // ---- the cursor the decoder advances through a buffer ----

  /** The value the reader returns once the groups still to come, read as
      `r`, are placed above `x`, each of their units worth `scale`; the
      position is the one `r` ends at. */
  function Accumulated(r: Result<(nat, nat), ReadError>, x: nat, scale: nat): Result<(nat, nat), ReadError>
  {
    match r
    case Ok((m, p)) => Ok((x + Weighted(m, scale), p))
    case Err(e) => Err(e)
  }

  /** One byte of the reader: a continuation byte puts its group at `scale`
      above `x` and moves on; a last byte completes the value or, as the
      tenth byte holding more than one bit, overflows. */
  lemma ReadStep(data: seq<Byte>, pos: nat, i: nat, x: nat, scale: nat)
    requires pos < |data| && i < MaxVarintLen
    ensures Accumulated(Shifted(UvarintFrom(data[pos..], i), pos), x, scale)
         == if data[pos] >= 0x80 then
              Accumulated(Shifted(UvarintFrom(data[pos + 1..], i + 1), pos + 1),
                          x + Weighted(data[pos] - 0x80, scale), 0x80 * scale)
            else if i == MaxVarintLen - 1 && data[pos] > 1 then Err(Overflow)
            else Ok((x + Weighted(data[pos], scale), pos + 1))
  {
    if data[pos] >= 0x80 {
      assert data[pos..][1..] == data[pos + 1..];
      var r := UvarintFrom(data[pos + 1..], i + 1);
      if r.Ok? {
        var m, g := r.value.0, data[pos] - 0x80;
        ScaleGroup(scale, g, m);
      }
    }
  }

  /** What the reader's loop returns from byte `i` of a prefix, standing at
      `pos`, with `x` the value of the groups read so far and `scale` the
      weight of the next group: the loop, one iteration per call. */
  function ReadLoop(data: seq<Byte>, pos: nat, i: nat, x: nat, scale: nat): Result<(nat, nat), ReadError>
    requires i <= MaxVarintLen
    decreases MaxVarintLen - i
  {
    if i == MaxVarintLen then Err(Overflow)
    else if pos >= |data| then Err(Eof)
    else if data[pos] < 0x80 then
      if i == MaxVarintLen - 1 && data[pos] > 1 then Err(Overflow)
      else Ok((x + Weighted(data[pos], scale), pos + 1))
    else ReadLoop(data, pos + 1, i + 1, x + Weighted(data[pos] - 0x80, scale), 0x80 * scale)
  }

  /** The loop computes what the decoder specifies. */
  /** The loop from its first byte reads what `read_uvarint` reads. */
  lemma ReadLoopStart(data: seq<Byte>, pos: nat)
    requires pos <= |data|
    ensures ReadLoop(data, pos, 0, 0, 1) == UvarintAt(data, pos)
  {
    ReadLoopDecodes(data, pos, 0, 0, 1);
    assert data[pos..][0..] == data[pos..];
  }

  lemma {:induction false} ReadLoopDecodes(data: seq<Byte>, pos: nat, i: nat, x: nat, scale: nat)
    requires i <= MaxVarintLen && pos <= |data|
    ensures ReadLoop(data, pos, i, x, scale) == Accumulated(Shifted(UvarintFrom(data[pos..], i), pos), x, scale)
    decreases MaxVarintLen - i
  {
    if i < MaxVarintLen && pos < |data| {
      ReadStep(data, pos, i, x, scale);
      if data[pos] >= 0x80 {
        ReadLoopDecodes(data, pos + 1, i + 1, x + Weighted(data[pos] - 0x80, scale), 0x80 * scale);
      }
    }
  }

  /** `g` units worth `scale` each. */
  function Weighted(g: nat, scale: nat): nat
  {
    g * scale
  }

  lemma ScaleGroup(scale: nat, g: nat, m: nat)
    ensures Weighted(g + 0x80 * m, scale) == Weighted(g, scale) + Weighted(m, 0x80 * scale)
  {
  }

  /** A reader's outcome with the position the cursor stands at; after an
      error the position says nothing. */
  function Positioned<T>(r: Result<T, ReadError>, pos: nat): Result<(T, nat), ReadError>
  {
    match r
    case Ok(v) => Ok((v, pos))
    case Err(e) => Err(e)
  }

  /** `std::io::Cursor` over an immutable buffer: the buffer and a position. */
  class Cursor {
    const data: seq<Byte>
    var pos: nat

    ghost predicate Valid()
      reads this
    {
      pos <= |data|
    }

    constructor (data: seq<Byte>)
      ensures Valid() && this.data == data && pos == 0
    {
      this.data := data;
      pos := 0;
    }

    /** `read_uuid`: on success the cursor is past the sixteen bytes. */
    method ReadUuid() returns (r: Result<Uuid, ReadError>)
      requires Valid()
      modifies this
      ensures Valid()
      ensures match UuidAt(data, old(pos))
        case Ok((u, p)) => r == Ok(u) && pos == p
        case Err(e) => r == Err(e)
    {
      if |data| - pos < UuidWidth {
        return Err(Eof);
      }
      r := Ok(data[pos..pos + UuidWidth]);
      pos := pos + UuidWidth;
    }

    /** `advance`: moves the position without looking at the bytes; the
        library panics when `n` bytes do not remain. */
    method Advance(n: nat)
      requires Valid() && pos + n <= |data|
      modifies this
      ensures Valid() && pos == old(pos) + n
    {
      pos := pos + n;
    }

    /** The length prefix's reader: one byte per iteration, at most ten, as
        the modelled decoder `UvarintAt` specifies. */
    method ReadUvarint() returns (r: Result<nat, ReadError>)
      requires Valid()
      modifies this
      ensures Valid()
      ensures UvarintAt(data, old(pos)) == Positioned(r, pos)
    {
      var x: nat, i: nat, scale: nat := 0, 0, 1;
      ghost var target := UvarintAt(data, pos);
      ReadLoopStart(data, pos);
      while i < MaxVarintLen
        invariant Valid() && i <= MaxVarintLen
        invariant ReadLoop(data, pos, i, x, scale) == target
        decreases MaxVarintLen - i
      {
        if pos >= |data| {
          return Err(Eof);
        }
        var b: nat := data[pos];
        pos := pos + 1;
        if b < 0x80 {
          if i == MaxVarintLen - 1 && b > 1 {
            return Err(Overflow);
          }
          return Ok(x + Weighted(b, scale));
        }
        x := x + Weighted(b - 0x80, scale);
        i, scale := i + 1, 0x80 * scale;
      }
      return Err(Overflow);
    }

    /** `read_string`: the length prefix, then `String::from_utf8` of that
        many bytes. */
    method ReadString() returns (r: Result<string, ReadError>)
      requires Valid()
      modifies this
      ensures Valid()
      ensures match StringAt(data, old(pos))
        case Ok((s, p)) => r == Ok(s) && pos == p
        case Err(e) => r == Err(e)
    {
      var len := ReadUvarint();
      if len.Err? {
        return Err(len.error);
      }
      if len.value > |data| - pos {
        return Err(Eof);
      }
      var bytes := data[pos..pos + len.value];
      pos := pos + len.value;
      match Utf8.Decode(bytes)
      case None => r := Err(InvalidUtf8);
      case Some(s) => r := Ok(s);
    }
  }
}
