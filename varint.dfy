/** The unsigned variable-length integer (LEB128: seven bits per byte, least
    significant group first, high bit set on every byte but the last) that
    the byte codec puts in front of a string's bytes. The decoder modelled
    here accepts at most ten bytes and, in the tenth, only the value 0 or 1,
    so that what it returns fits in a `u64`; that choice on malformed
    prefixes is this model's, not taken from the library. */
module Varint {
  import opened Wrappers

  const MaxVarintLen: nat := 10

  function Pow128(i: nat): (r: nat)
    ensures r >= 1
  {
    if i == 0 then 1 else 128 * Pow128(i - 1)
  }

  lemma Pow128Nine()
    ensures 2 * Pow128(MaxVarintLen - 1) == TwoTo64
  {
    assert Pow128(9) == 0x8000_0000_0000_0000;
  }

  /** The bytes `write_uvarint` emits for `n`. */
  function EncodeUvarint(n: nat): (r: seq<Byte>)
    ensures |r| >= 1 && r[|r| - 1] < 0x80
    ensures n < 0x80 <==> |r| == 1
    decreases n
  {
    if n < 0x80 then [n] else [n % 0x80 + 0x80] + EncodeUvarint(n / 0x80)
  }

  /** Every byte of an encoding but the last has the continuation bit, so
      the last byte is the first one without it. */
  lemma {:induction false} EncodeUvarintContinuation(n: nat)
    ensures forall j :: 0 <= j < |EncodeUvarint(n)| - 1 ==> EncodeUvarint(n)[j] >= 0x80
    decreases n
  {
    if n >= 0x80 {
      EncodeUvarintContinuation(n / 0x80);
      assert EncodeUvarint(n) == [n % 0x80 + 0x80] + EncodeUvarint(n / 0x80);
    }
  }

  /** Why a read from a byte buffer fails: the buffer ends too early, a
      length prefix runs past ten bytes or past 64 bits, or a string's
      bytes are not UTF-8. */
  datatype ReadError = Eof | Overflow | InvalidUtf8

  /** `g` as the low seven-bit group below the value read after it, one
      byte earlier. */
  function WithLowGroup(g: nat, r: Result<(nat, nat), ReadError>): Result<(nat, nat), ReadError>
  {
    match r
    case Ok((m, k)) => Ok((g + 0x80 * m, k + 1))
    case Err(e) => Err(e)
  }

  /** The modelled decoder on the bytes `s` that remain when `i` bytes of the
      prefix have been read: the value of the groups in `s` and how many
      bytes of `s` they take, or the error the read stops with. */
  function UvarintFrom(s: seq<Byte>, i: nat): (r: Result<(nat, nat), ReadError>)
    requires i <= MaxVarintLen
    ensures r.Ok? ==> 0 < r.value.1 <= |s| && r.value.1 <= MaxVarintLen - i
    decreases MaxVarintLen - i
  {
    if i == MaxVarintLen then Err(Overflow)
    else if |s| == 0 then Err(Eof)
    else if s[0] < 0x80 then
      if i == MaxVarintLen - 1 && s[0] > 1 then Err(Overflow)
      else Ok((s[0] as nat, 1))
    else WithLowGroup(s[0] - 0x80, UvarintFrom(s[1..], i + 1))
  }

  /** A read result whose end position is moved `d` bytes further on. */
  function Shifted<T>(r: Result<(T, nat), ReadError>, d: nat): Result<(T, nat), ReadError>
  {
    match r
    case Ok((value, p)) => Ok((value, p + d))
    case Err(e) => Err(e)
  }

  /** `read_uvarint` from position `pos`: the value read and the new position. */
  function UvarintAt(s: seq<Byte>, pos: nat): (r: Result<(nat, nat), ReadError>)
    ensures r.Ok? ==> pos < r.value.1 <= |s| && r.value.0 < TwoTo64
  {
    if pos > |s| then Err(Eof)
    else
      UvarintFromBound(s[pos..], 0);
      Pow128Nine();
      Shifted(UvarintFrom(s[pos..], 0), pos)
  }

  /** A group lands in the value at `128^i` times its own weight, so what
      the groups from the `i`-th on can hold is below `2 * 128^(9-i)`. */
  lemma {:induction false} UvarintFromBound(s: seq<Byte>, i: nat)
    requires i <= MaxVarintLen
    ensures UvarintFrom(s, i).Ok? ==>
      i < MaxVarintLen && UvarintFrom(s, i).value.0 < 2 * Pow128(MaxVarintLen - 1 - i)
    decreases MaxVarintLen - i
  {
    if i < MaxVarintLen && |s| > 0 {
      if s[0] >= 0x80 {
        UvarintFromBound(s[1..], i + 1);
      } else if i < MaxVarintLen - 1 {
        assert Pow128(MaxVarintLen - 1 - i) == 0x80 * Pow128(MaxVarintLen - 2 - i);
      }
    }
  }

  /** Round trip on the remaining bytes: where they start with
      `EncodeUvarint(n)`, the reader returns `n` and takes exactly those
      bytes, provided `n` fits in the groups still to be read. */
  lemma {:induction false} UvarintFromEncoded(n: nat, i: nat, rest: seq<Byte>)
    requires i < MaxVarintLen && n < 2 * Pow128(MaxVarintLen - 1 - i)
    ensures UvarintFrom(EncodeUvarint(n) + rest, i) == Ok((n, |EncodeUvarint(n)|))
    decreases n
  {
    var e := EncodeUvarint(n);
    if n < 0x80 {
      assert (e + rest)[0] == n;
      if i == MaxVarintLen - 1 {
        assert Pow128(0) == 1;
      }
    } else {
      var q := n / 0x80;
      var e' := EncodeUvarint(q);
      assert e == [n % 0x80 + 0x80] + e';
      TailOfConcat(e, rest);
      assert i < MaxVarintLen - 1 && q < 2 * Pow128(MaxVarintLen - 2 - i) by {
        assert Pow128(MaxVarintLen - 1 - i) == 0x80 * Pow128(MaxVarintLen - 2 - i);
      }
      UvarintFromEncoded(q, i + 1, rest);
      LowGroupSplit(n, |e'|);
    }
  }

  /** A value is its low group below its value shifted down by seven bits. */
  lemma LowGroupSplit(n: nat, k: nat)
    ensures WithLowGroup(n % 0x80, Ok((n / 0x80, k))) == Ok((n, k + 1))
  {
  }

  /** Where the encoding of a `u64` stands in a buffer, it is read back. */
  lemma UvarintAtEncoded(s: seq<Byte>, pos: nat, n: nat)
    requires n < TwoTo64
    requires pos + |EncodeUvarint(n)| <= |s| && s[pos..pos + |EncodeUvarint(n)|] == EncodeUvarint(n)
    ensures UvarintAt(s, pos) == Ok((n, pos + |EncodeUvarint(n)|))
  {
    var e := EncodeUvarint(n);
    SuffixSplit(s, pos, e);
    Pow128Nine();
    UvarintFromEncoded(n, 0, s[pos + |e|..]);
  }

  /** Bytes that stop inside the encoding of a value make the reader fail. */
  lemma {:induction false} UvarintFromTruncated(n: nat, k: nat, i: nat)
    requires i <= MaxVarintLen && k < |EncodeUvarint(n)|
    ensures UvarintFrom(EncodeUvarint(n)[..k], i).Err?
    decreases n
  {
    var e := EncodeUvarint(n);
    if i < MaxVarintLen && k > 0 {
      var e' := EncodeUvarint(n / 0x80);
      assert e == [n % 0x80 + 0x80] + e';
      assert e[..k][0] >= 0x80;
      TailOfPrefix(e, k);
      assert e[1..] == e';
      UvarintFromTruncated(n / 0x80, k - 1, i + 1);
    }
  }

  lemma TailOfConcat(a: seq<Byte>, b: seq<Byte>)
    requires |a| > 0
    ensures (a + b)[1..] == a[1..] + b
  {
    assert (a + b)[1..] == a[1..] + b;
  }

  lemma SuffixSplit(s: seq<Byte>, pos: nat, e: seq<Byte>)
    requires pos + |e| <= |s| && s[pos..pos + |e|] == e
    ensures s[pos..] == e + s[pos + |e|..]
  {
    assert s[pos..] == s[pos..pos + |e|] + s[pos + |e|..];
  }

  lemma TailOfPrefix(a: seq<Byte>, k: nat)
    requires 0 < k <= |a|
    ensures a[..k][1..] == a[1..][..k - 1]
  {
    assert a[..k][1..] == a[1..][..k - 1];
  }

  /** Reading a uvarint only looks at the bytes from its position on. */
  lemma UvarintAtShift(v: seq<Byte>, pos: nat)
    requires pos <= |v|
    ensures UvarintAt(v, pos) == Shifted(UvarintAt(v[pos..], 0), pos)
  {
    assert v[pos..][0..] == v[pos..];
  }
}
