/** The tenant-scoped database lookup key and value of the meta store's
    state machine. A key is a tenant id, a fixed delimiter and a database
    name; it is stored as the bytes
      tenant (16) ++ delimiter code point (4) ++ uvarint name length ++ UTF-8 name
    and decoded with a forward cursor that skips the delimiter bytes
    without looking at them. */
module DatabaseLookup {
  import opened Wrappers
  import opened Varint
  import opened BinaryIo
  import Utf8
  import Decimal

  /** `DB_LOOKUP_KEY_DELIMITER`: the whale, U+1F40B. */
  const Delimiter: char := '\U{1F40B}'

  /** Bytes before the name: the tenant field and the delimiter field. */
  const HeaderWidth: nat := UuidWidth + CharWidth

  datatype ErrorCode = MetaStoreDamaged(message: string)

  const InvalidKey: string := "invalid key IVec"

  /** Field-wise equality of this datatype is the derived `PartialEq`,
      delimiter included. */
  datatype DatabaseLookupKey = DatabaseLookupKey(tenantId: Uuid, delimiter: char, databaseName: string)

  /** `DatabaseLookupKey::new`: the caller gives tenant and name; the
      delimiter is always the whale. */
  function New(tenantId: Uuid, databaseName: string): (k: DatabaseLookupKey)
    ensures k.tenantId == tenantId && k.databaseName == databaseName
    ensures k.delimiter == Delimiter
  {
    DatabaseLookupKey(tenantId, Delimiter, databaseName)
  }

  /** `get_database_name`: a copy of the stored name. */
  function GetDatabaseName(k: DatabaseLookupKey): (name: string)
    ensures name == k.databaseName
  {
    k.databaseName
  }

  /** The name handed to `new` is the name `get_database_name` returns. */
  lemma GetDatabaseNameOfNew(tenantId: Uuid, databaseName: string)
    ensures GetDatabaseName(New(tenantId, databaseName)) == databaseName
  {
  }

  /** A Rust string's byte count is a `usize`, so it fits the `u64` length prefix. */
  predicate NameFits(name: string) {
    |Utf8.Encode(name)| < TwoTo64
  }

  /** `ser`: tenant, delimiter and name written one after the other into an
      empty buffer. The writes into a growable buffer never fail, so the
      `MetaStoreDamaged` branch of the source is never taken. */
  function Ser(k: DatabaseLookupKey): (r: Result<seq<Byte>, ErrorCode>)
    ensures r.Ok?
    ensures |r.value| > HeaderWidth
    ensures r.value[..UuidWidth] == k.tenantId
    ensures r.value[UuidWidth..HeaderWidth] == CodePointBytes(k.delimiter)
    ensures r.value[HeaderWidth..] == WriteString([], k.databaseName)
  {
    var buf := WriteBinary([], k.tenantId);
    var buf := WriteScalar(buf, k.delimiter);
    var buf := WriteString(buf, k.databaseName);
    assert buf == k.tenantId + CodePointBytes(k.delimiter) + WriteString([], k.databaseName);
    Ok(buf)
  }

  /** `advance(4)` panics when the tenant was read but four bytes do not
      follow it; callers of `de` must not hand it such a buffer. */
  predicate DelimiterInBounds(v: seq<Byte>) {
    |v| >= UuidWidth ==> |v| >= HeaderWidth
  }

  /** What `de` returns for the buffer `v`. */
  function Decode(v: seq<Byte>): (r: Result<DatabaseLookupKey, ErrorCode>)
    requires DelimiterInBounds(v)
    ensures r.Ok? <==> |v| >= UuidWidth && StringAt(v, HeaderWidth).Ok?
    ensures r.Ok? ==> r.value.delimiter == Delimiter && r.value.tenantId == v[..UuidWidth]
    ensures r.Err? ==> r.error == MetaStoreDamaged(InvalidKey)
  {
    match UuidAt(v, 0)
    case Err(_) => Err(MetaStoreDamaged(InvalidKey))
    case Ok((tenantId, p)) =>
      match StringAt(v, p + CharWidth)
      case Err(_) => Err(MetaStoreDamaged(InvalidKey))
      case Ok((name, _)) => Ok(DatabaseLookupKey(tenantId, Delimiter, name))
  }

  /** `de`: a cursor reads the tenant, skips the delimiter, reads the name. */
  method De(v: seq<Byte>) returns (r: Result<DatabaseLookupKey, ErrorCode>)
    requires DelimiterInBounds(v)
    ensures r == Decode(v)
  {
    var cursor := new Cursor(v);
    var tenantId := cursor.ReadUuid();
    if tenantId.Ok? {
      cursor.Advance(CharWidth);
      var databaseName := cursor.ReadString();
      if databaseName.Ok? {
        return Ok(DatabaseLookupKey(tenantId.value, Delimiter, databaseName.value));
      }
    }
    return Err(MetaStoreDamaged(InvalidKey));
  }

  // ---- laws of the key codec ----

  /** Round trip, with anything after the key: `de` does not require the
      cursor to reach the end of the buffer. */
  lemma DecodeSerWithTrailing(k: DatabaseLookupKey, extra: seq<Byte>)
    requires k.delimiter == Delimiter && NameFits(k.databaseName)
    ensures DelimiterInBounds(Ser(k).value + extra)
    ensures Decode(Ser(k).value + extra) == Ok(k)
  {
    var v := Ser(k).value + extra;
    var header := k.tenantId + CodePointBytes(k.delimiter);
    assert v == WriteString(header, k.databaseName) + extra;
    assert v[..UuidWidth] == k.tenantId;
    StringRoundTrip(header, k.databaseName, extra);
    assert StringAt(v, HeaderWidth).value.0 == k.databaseName;
  }

  /** Round trip: every key `new` builds is decoded back field for field,
      its whale delimiter included. */
  lemma DecodeSer(tenantId: Uuid, databaseName: string)
    requires NameFits(databaseName)
    ensures DelimiterInBounds(Ser(New(tenantId, databaseName)).value)
    ensures Decode(Ser(New(tenantId, databaseName)).value) == Ok(New(tenantId, databaseName))
  {
    var k := New(tenantId, databaseName);
    DecodeSerWithTrailing(k, []);
    assert Ser(k).value + [] == Ser(k).value;
  }

  /** Keys with the whale delimiter serialise to the same bytes only when
      they are the same key. */
  lemma SerInjective(k1: DatabaseLookupKey, k2: DatabaseLookupKey)
    requires k1.delimiter == Delimiter && NameFits(k1.databaseName)
    requires k2.delimiter == Delimiter && NameFits(k2.databaseName)
    ensures Ser(k1) == Ser(k2) <==> k1 == k2
  {
    DecodeSerWithTrailing(k1, []);
    DecodeSerWithTrailing(k2, []);
    assert Ser(k1).value + [] == Ser(k1).value;
    assert Ser(k2).value + [] == Ser(k2).value;
  }

  /** The delimiter bytes are never inspected: whatever four bytes stand
      after the tenant field, the decoded key is the same. */
  lemma DecodeIgnoresDelimiter(v: seq<Byte>, d: seq<Byte>)
    requires |v| >= HeaderWidth && |d| == CharWidth
    ensures DelimiterInBounds(v[..UuidWidth] + d + v[HeaderWidth..])
    ensures Decode(v[..UuidWidth] + d + v[HeaderWidth..]) == Decode(v)
  {
    var w := v[..UuidWidth] + d + v[HeaderWidth..];
    assert w[..UuidWidth] == v[..UuidWidth];
    assert w[HeaderWidth..] == v[HeaderWidth..];
    StringAtSuffix(v, w, HeaderWidth);
  }

  /** Corruption is detected: a serialised key cut short inside the tenant
      field or inside the name decodes to `MetaStoreDamaged`. (A cut inside
      the delimiter makes the source panic in `advance` and is excluded.) */
  lemma DecodeTruncated(k: DatabaseLookupKey, m: nat)
    requires NameFits(k.databaseName)
    requires m < |Ser(k).value| && (m < UuidWidth || m >= HeaderWidth)
    ensures DelimiterInBounds(Ser(k).value[..m])
    ensures Decode(Ser(k).value[..m]) == Err(MetaStoreDamaged(InvalidKey))
  {
    var v := Ser(k).value;
    if m >= HeaderWidth {
      var header := k.tenantId + CodePointBytes(k.delimiter);
      assert v == WriteString(header, k.databaseName);
      StringTruncated(header, k.databaseName, m);
    }
  }

  /** Tenant grouping: keys of one tenant share their first twenty bytes. */
  lemma SameTenantSharedPrefix(k1: DatabaseLookupKey, k2: DatabaseLookupKey)
    requires k1.tenantId == k2.tenantId && k1.delimiter == k2.delimiter
    ensures Ser(k1).value[..HeaderWidth] == Ser(k2).value[..HeaderWidth]
  {
    assert Ser(k1).value[..HeaderWidth] == Ser(k1).value[..UuidWidth] + Ser(k1).value[UuidWidth..HeaderWidth];
    assert Ser(k2).value[..HeaderWidth] == Ser(k2).value[..UuidWidth] + Ser(k2).value[UuidWidth..HeaderWidth];
  }

  /** Keys of different tenants differ within the tenant field. */
  lemma DifferentTenantsDiffer(k1: DatabaseLookupKey, k2: DatabaseLookupKey)
    requires k1.tenantId != k2.tenantId
    ensures exists i :: 0 <= i < UuidWidth && Ser(k1).value[i] != Ser(k2).value[i]
  {
    var a, b := Ser(k1).value, Ser(k2).value;
    assert a[..UuidWidth] != b[..UuidWidth];
    var i :| 0 <= i < UuidWidth && a[..UuidWidth][i] != b[..UuidWidth][i];
    assert a[i] != b[i];
  }

  /** Unsigned byte-wise order, the order of the store's keys. */
  predicate ByteLess(a: seq<Byte>, b: seq<Byte>) {
    if a == [] then b != []
    else b != [] && (a[0] < b[0] || (a[0] == b[0] && ByteLess(a[1..], b[1..])))
  }

  /** A strict order between equal-length prefixes decides the order of
      anything that extends them. */
  lemma {:induction false} ByteLessExtend(a: seq<Byte>, b: seq<Byte>, x: seq<Byte>, y: seq<Byte>)
    requires |a| == |b| && ByteLess(a, b)
    ensures ByteLess(a + x, b + y)
  {
    if a[0] == b[0] {
      assert (a + x)[1..] == a[1..] + x && (b + y)[1..] == b[1..] + y;
      ByteLessExtend(a[1..], b[1..], x, y);
    }
  }

  /** Across tenants, the store orders keys by the tenant field's bytes,
      whatever the names. */
  lemma TenantOrderDecides(k1: DatabaseLookupKey, k2: DatabaseLookupKey)
    requires ByteLess(k1.tenantId, k2.tenantId)
    ensures ByteLess(Ser(k1).value, Ser(k2).value)
  {
    var a, b := Ser(k1).value, Ser(k2).value;
    assert a == k1.tenantId + a[UuidWidth..];
    assert b == k2.tenantId + b[UuidWidth..];
    ByteLessExtend(k1.tenantId, k2.tenantId, a[UuidWidth..], b[UuidWidth..]);
  }

  /** Within a tenant the byte order is not the order of the names: the
      length prefix comes first, so "b" (one byte) sorts before "aa". */
  lemma NameOrderNotPreserved(tenantId: Uuid)
    ensures ByteLess(Utf8.Encode("aa"), Utf8.Encode("b"))
    ensures ByteLess(Ser(New(tenantId, "b")).value, Ser(New(tenantId, "aa")).value)
  {
    var a, b := Ser(New(tenantId, "b")).value, Ser(New(tenantId, "aa")).value;
    assert Utf8.Encode("b") == [0x62];
    assert Utf8.Encode("aa") == [0x61, 0x61];
    assert a[HeaderWidth..] == [1, 0x62];
    assert b[HeaderWidth..] == [2, 0x61, 0x61];
    SameTenantSharedPrefix(New(tenantId, "b"), New(tenantId, "aa"));
    assert a == a[..HeaderWidth] + [1, 0x62];
    assert b == a[..HeaderWidth] + [2, 0x61, 0x61];
    ByteLessCommonPrefix(a[..HeaderWidth], [1, 0x62], [2, 0x61, 0x61]);
  }

  /** Nor does the shorter name always sort first: the length is written
      least significant group first, so a 256-byte name (`0x80 0x02`) sorts
      before a 255-byte name (`0xFF 0x01`). */
  lemma LongerNameMaySortFirst(tenantId: Uuid, n1: string, n2: string)
    requires |Utf8.Encode(n1)| == 256 && |Utf8.Encode(n2)| == 255
    ensures ByteLess(Ser(New(tenantId, n1)).value, Ser(New(tenantId, n2)).value)
  {
    var a, b := Ser(New(tenantId, n1)).value, Ser(New(tenantId, n2)).value;
    assert EncodeUvarint(256) == [0x80, 0x02];
    assert EncodeUvarint(255) == [0xFF, 0x01];
    SameTenantSharedPrefix(New(tenantId, n1), New(tenantId, n2));
    var x, y := [0x80, 0x02] + Utf8.Encode(n1), [0xFF, 0x01] + Utf8.Encode(n2);
    assert a == a[..HeaderWidth] + x;
    assert b == a[..HeaderWidth] + y;
    ByteLessCommonPrefix(a[..HeaderWidth], x, y);
  }

  lemma {:induction false} ByteLessCommonPrefix(p: seq<Byte>, x: seq<Byte>, y: seq<Byte>)
    requires ByteLess(x, y)
    ensures ByteLess(p + x, p + y)
  {
    if p == [] {
      assert p + x == x && p + y == y;
    } else {
      assert (p + x)[1..] == p[1..] + x && (p + y)[1..] == p[1..] + y;
      ByteLessCommonPrefix(p[1..], x, y);
    }
  }

  // ---- the value ----

  /** `DatabaseLookupValue`: the database id as a `u64`. */
  datatype DatabaseLookupValue = DatabaseLookupValue(id: U64)

  /** The derived `Default`. */
  function Default(): (v: DatabaseLookupValue)
    ensures v.id == 0
  {
    DatabaseLookupValue(0)
  }

  /** `Display`: the id in decimal. */
  function Display(v: DatabaseLookupValue): (s: string)
    ensures |s| >= 1 && forall i :: 0 <= i < |s| ==> Decimal.IsDigit(s[i])
    ensures Decimal.Value(s) == v.id
    ensures s[0] == '0' ==> |s| == 1
  {
    Decimal.ValueShow(v.id);
    Decimal.Show(v.id)
  }
}
