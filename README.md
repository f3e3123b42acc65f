# Database lookup key codec and null arrays

This project models two small pieces of databend in Dafny and proves properties about them.

**The database lookup key.** This is the meta store's tenant-scoped index key, which maps a database name to its id.

- `new` builds a key from a tenant UUID and a database name. The delimiter is always the whale `'🐋'` (U+1F40B).
- `ser` writes the key into a byte buffer as
  `tenant (16 bytes) ++ delimiter code point (4 bytes) ++ uvarint length of the UTF-8 name ++ UTF-8 name`.
- `de` reads it back with a forward cursor:
  - it reads the UUID;
  - it skips four bytes without looking at them;
  - it reads the string.

  Any failed read becomes `MetaStoreDamaged("invalid key IVec")`.
- The value is a `u64` id. It defaults to 0 and displays in decimal.

The library code for the byte primitives (`write_binary`, `write_scalar`, `write_string`, `read_uuid`, `read_string`, `advance`) is not part of this model. Module `BinaryIo` states each one by the field layout it writes or reads:

- UUIDs are raw bytes (RFC 4122).
- Code points are four bytes, least significant first.
- Strings are a LEB128 uvarint byte count (module `Varint`) followed by UTF-8 (RFC 3629, module `Utf8`).

Each primitive gets its own round-trip lemma, and the key-level laws are built on those.

- `Ser` is a function, because it only appends to a fresh buffer.
- `De` is a method that drives a `Cursor` object. Its contract ties it to the pure function `Decode`.
- The lemmas about `Decode` cover:
  - the round trip;
  - injectivity;
  - the delimiter bytes being ignored;
  - errors on truncation;
  - tenant grouping and ordering.

Within one tenant, keys do not sort by the bytes of their names. The uvarint byte count of the name comes before the name, so the length is compared first. For names under 128 bytes the length is a single byte, and the shorter name sorts first. In general the order follows the LEB128 bytes of the length, least significant group first. A 256-byte name (length bytes `0x80 0x02`) therefore sorts before a 255-byte name (`0xFF 0x01`). `DatabaseLookup.NameOrderNotPreserved` proves that under any tenant the key for `"b"` sorts before the key for `"aa"`, while `"aa"` sorts before `"b"` as bytes. The model follows the code. What holds across tenants is proved: the tenant field decides the order (`TenantOrderDecides`), and each tenant's keys share a prefix (`SameTenantSharedPrefix`).

**Arrow's `NullArray` and `MutableNullArray`.**

- `NullArray` is a class with a `dataType` and a `length`. Its `Valid()` invariant is the check `try_new` makes: the physical type of the data type is `Null`.
- `ArrowDatatypes` gives the logical data types, including extension types, and their physical layout.
- `MutableNullArray` wraps a `NullArray`. Its `push_null` adds one to the inner length.
- `reserve` and `shrink_to_fit` change nothing. Their methods have no `modifies` clause.
- `SliceUnchecked` takes the bound that `slice` checks, `offset + length <= len()`. The `# Safety` comment of `slice_unchecked` states the stricter `<`, but `slice` itself passes `<=`.

## Model

| member | source | states |
|---|---|---|
| DatabaseLookup.New | common/meta/raft-store/src/state_machine/database_lookup.rs:15-31 | the key keeps the tenant and name it was given; the delimiter is always U+1F40B |
| DatabaseLookup.GetDatabaseName | common/meta/raft-store/src/state_machine/database_lookup.rs:33-35 | returns the key's stored name; `GetDatabaseNameOfNew` ties it to `new` |
| DatabaseLookup.GetDatabaseNameOfNew | common/meta/raft-store/src/state_machine/database_lookup.rs:25-35 | `get_database_name` returns exactly the name passed to `new` |
| DatabaseLookup.Ser | common/meta/raft-store/src/state_machine/database_lookup.rs:39-49 | always `Ok` (the `MetaStoreDamaged` branch is unreachable); the bytes are the tenant's 16 bytes, then the delimiter's 4 code-point bytes, then the length-prefixed name, in that order |
| DatabaseLookup.Decode | common/meta/raft-store/src/state_machine/database_lookup.rs:51-67 | succeeds iff at least 16 bytes are present and a string can be read at offset 20; on success it has the whale delimiter and the first 16 bytes as tenant; every failure is `MetaStoreDamaged("invalid key IVec")` |
| DatabaseLookup.De | common/meta/raft-store/src/state_machine/database_lookup.rs:51-67 | the cursor-driven decoder (read UUID, skip 4, read string) returns what `Decode` specifies |
| DatabaseLookup.DecodeSerWithTrailing | common/meta/raft-store/src/state_machine/database_lookup.rs:39-67 | `de(ser(k) ++ extra) == k` for any trailing bytes, because `de` does not require the whole buffer to be consumed |
| DatabaseLookup.DecodeSer | common/meta/raft-store/src/state_machine/database_lookup.rs:17-67 | round trip: a key built by `new` decodes back equal field for field (derived equality, delimiter included) |
| DatabaseLookup.SerInjective | common/meta/raft-store/src/state_machine/database_lookup.rs:39-49 | two keys with the whale delimiter serialise to the same bytes iff they are equal |
| DatabaseLookup.DecodeIgnoresDelimiter | common/meta/raft-store/src/state_machine/database_lookup.rs:56-63 | replacing the 4 bytes after the tenant field by any 4 bytes does not change the decoded result |
| DatabaseLookup.DecodeTruncated | common/meta/raft-store/src/state_machine/database_lookup.rs:54-66 | a serialised key cut inside the tenant field or inside the name decodes to `MetaStoreDamaged("invalid key IVec")` |
| DatabaseLookup.SameTenantSharedPrefix | common/meta/raft-store/src/state_machine/database_lookup.rs:42-43 | keys with the same tenant (and delimiter) share their first 20 serialised bytes |
| DatabaseLookup.DifferentTenantsDiffer | common/meta/raft-store/src/state_machine/database_lookup.rs:42 | keys with different tenants differ at some byte among the first 16 |
| DatabaseLookup.TenantOrderDecides | common/meta/raft-store/src/state_machine/database_lookup.rs:42-44 | if one tenant's bytes sort before another's, every key of the first sorts before every key of the second, whatever the names |
| DatabaseLookup.NameOrderNotPreserved | common/meta/raft-store/src/state_machine/database_lookup.rs:42-44 | under one tenant the key for "b" sorts before the key for "aa", although "aa" sorts before "b" as UTF-8 bytes |
| DatabaseLookup.LongerNameMaySortFirst | common/meta/raft-store/src/state_machine/database_lookup.rs:44 | under one tenant a 256-byte name's key sorts before a 255-byte name's key, since the length prefix is least significant group first |
| DatabaseLookup.Default | common/meta/raft-store/src/state_machine/database_lookup.rs:80-81 | the derived default value has id 0 |
| DatabaseLookup.Display | common/meta/raft-store/src/state_machine/database_lookup.rs:83-87 | the display is a non-empty string of decimal digits whose value is the id, with no leading zero (a `0` first only for id 0, alone) |
| Decimal.ValueShow | common/meta/raft-store/src/state_machine/database_lookup.rs:85 | reading the decimal rendering of a number gives the number back |
| Decimal.ShowInjective | common/meta/raft-store/src/state_machine/database_lookup.rs:85 | distinct ids display differently |
| BinaryIo.UuidAt | common/meta/raft-store/src/state_machine/database_lookup.rs:54 | `read_uuid` succeeds iff 16 bytes remain; it yields those bytes and the position after them; otherwise end of input |
| BinaryIo.WriteBinary | common/meta/raft-store/src/state_machine/database_lookup.rs:42 | appends exactly 16 bytes and keeps what was written before; `UuidRoundTrip` says they are the UUID |
| BinaryIo.WriteScalar | common/meta/raft-store/src/state_machine/database_lookup.rs:43 | appends exactly 4 bytes and keeps what was written before; `CodePointRoundTrip` says they hold the code point |
| BinaryIo.WriteString | common/meta/raft-store/src/state_machine/database_lookup.rs:44 | appends at least one byte (even for the empty string) and keeps what was written before; `StringRoundTrip` says they read back as the string |
| BinaryIo.UuidRoundTrip | common/meta/raft-store/src/state_machine/database_lookup.rs:42-54 | a UUID written after any prefix reads back as itself, followed by anything |
| BinaryIo.CodePointRoundTrip | common/meta/raft-store/src/state_machine/database_lookup.rs:43 | the 4 delimiter bytes hold the character's code point |
| BinaryIo.StringAt | common/meta/raft-store/src/state_machine/database_lookup.rs:57 | a successful `read_string` ends strictly after its start and within the buffer |
| BinaryIo.StringRoundTrip | common/meta/raft-store/src/state_machine/database_lookup.rs:44-57 | a string written after any prefix reads back as itself, ending exactly where the write ended, whatever follows |
| BinaryIo.StringTruncated | common/meta/raft-store/src/state_machine/database_lookup.rs:57 | a buffer ending inside a written string (in the length prefix or in the bytes) fails to read |
| BinaryIo.StringAtSuffix | common/meta/raft-store/src/state_machine/database_lookup.rs:57 | reading a string looks only at the bytes from its position on |
| BinaryIo.Cursor.constructor | common/meta/raft-store/src/state_machine/database_lookup.rs:53 | a new cursor is at position 0 of the buffer |
| BinaryIo.Cursor.ReadUuid | common/meta/raft-store/src/state_machine/database_lookup.rs:54 | returns what `UuidAt` specifies; on success the position moves past the 16 bytes |
| BinaryIo.Cursor.Advance | common/meta/raft-store/src/state_machine/database_lookup.rs:56 | moves the position by exactly `n`; callers must leave `n` bytes (the library panics otherwise) |
| BinaryIo.ReadLoopStart | common/meta/raft-store/src/state_machine/database_lookup.rs:57 | accumulating the groups byte by byte, low group first and each weighted 128 times the one before, reads what the decoder `UvarintAt` specifies |
| BinaryIo.Cursor.ReadUvarint | common/meta/raft-store/src/state_machine/database_lookup.rs:57 | the byte loop returns what `UvarintAt` specifies and leaves the position after the last byte read on success |
| BinaryIo.Cursor.ReadString | common/meta/raft-store/src/state_machine/database_lookup.rs:57 | returns what `StringAt` specifies and leaves the position after the string on success |
| Varint.EncodeUvarint | common/meta/raft-store/src/state_machine/database_lookup.rs:44 | at least one byte, the last without the continuation bit; a single byte exactly for values below 128 |
| Varint.EncodeUvarintContinuation | common/meta/raft-store/src/state_machine/database_lookup.rs:44 | every byte of an encoding but the last has the continuation bit |
| Varint.UvarintAt | common/meta/raft-store/src/state_machine/database_lookup.rs:57 | a decoded length is below 2^64 (the tenth byte may hold at most one bit) |
| Varint.UvarintAtEncoded | common/meta/raft-store/src/state_machine/database_lookup.rs:44-57 | wherever the encoding of a `u64` stands in a buffer, whatever precedes or follows it, reading at its start returns that value and the position just past the encoding |
| Varint.UvarintFromTruncated | common/meta/raft-store/src/state_machine/database_lookup.rs:57 | a proper prefix of an encoding fails to decode |
| Varint.UvarintAtShift | common/meta/raft-store/src/state_machine/database_lookup.rs:57 | decoding at a position equals decoding the suffix from there, with positions shifted |
| Utf8.EncodeChar | common/meta/raft-store/src/state_machine/database_lookup.rs:44 | one to four bytes; one byte exactly for ASCII; continuation bytes after the first |
| Utf8.DecodeEncode | common/meta/raft-store/src/state_machine/database_lookup.rs:44-57 | decoding the UTF-8 encoding of any string gives the string back |
| Utf8.EncodeDecode | common/meta/raft-store/src/state_machine/database_lookup.rs:57 | bytes that decode as UTF-8 are exactly the encoding of what they decode to (no overlong forms or surrogates are accepted) |
| Utf8.DecodeCharCanonical | common/meta/raft-store/src/state_machine/database_lookup.rs:57 | a decoded character's encoding is exactly the bytes consumed |
| ArrowDatatypes.ToPhysicalType | src/common/arrow/src/arrow/array/null.rs:39 | the physical type `try_new` compares against: a data type has physical type `Null` iff it is `Null` under its extension wrappers |
| NullArrays.NullArray.TryNew | src/common/arrow/src/arrow/array/null.rs:38-46 | fails (out of spec, with the source's message) iff the physical type is not `Null`; on success a fresh valid array with the given data type and length |
| NullArrays.NullArray.New | src/common/arrow/src/arrow/array/null.rs:52-54 | callable only with a null-layout type (it panics otherwise); keeps data type and length |
| NullArrays.NullArray.NewEmpty | src/common/arrow/src/arrow/array/null.rs:57-59 | length 0 and the given data type |
| NullArrays.NullArray.NewNull | src/common/arrow/src/arrow/array/null.rs:62-64 | length `n` and the given data type |
| NullArrays.NullArray.Len | src/common/arrow/src/arrow/array/null.rs:90-92 | the length is the stored `length` |
| NullArrays.NullArray.Validity | src/common/arrow/src/arrow/array/null.rs:98-100 | there is never a validity bitmap |
| NullArrays.NullArray.Slice | src/common/arrow/src/arrow/array/null.rs:74-80 | requires `offset + length <= len()`; afterwards `len() == length` whatever the offset, the data type is unchanged and the array stays valid |
| NullArrays.NullArray.SliceUnchecked | src/common/arrow/src/arrow/array/null.rs:85-87 | under the caller's bound, sets the length and keeps the data type |
| NullArrays.MutableNullArray.constructor | src/common/arrow/src/arrow/array/null.rs:119-122 | callable only with a null-layout type; a fresh inner array with the given data type and length |
| NullArrays.MutableNullArray.DataTypeOf | src/common/arrow/src/arrow/array/null.rs:132-134 | always `DataType::Null`, whatever the inner type |
| NullArrays.MutableNullArray.Len | src/common/arrow/src/arrow/array/null.rs:136-138 | equals the inner array's length |
| NullArrays.MutableNullArray.Validity | src/common/arrow/src/arrow/array/null.rs:140-142 | there is never a validity bitmap |
| NullArrays.MutableNullArray.PushNull | src/common/arrow/src/arrow/array/null.rs:156-158 | the length grows by exactly one; the data type and validity are kept |
| NullArrays.MutableNullArray.Reserve | src/common/arrow/src/arrow/array/null.rs:160-162 | nothing changes |
| NullArrays.MutableNullArray.ShrinkToFit | src/common/arrow/src/arrow/array/null.rs:164-166 | nothing changes |
| NullArrays.MutableNullArray.IntoNullArray | src/common/arrow/src/arrow/array/null.rs:125-129 | the result is the inner array itself, so its length and data type are preserved |

## Left out

- The library code of the `common_io` byte primitives and of sled's `IVec` is not part of this model. The primitives are stated by the layout they produce: raw UUID bytes, a 4-byte code point, and a uvarint length followed by UTF-8.
- The byte order of the 4-byte delimiter field is taken as least significant first. Nothing decoded depends on it, because `de` skips those bytes.
- DatabaseLookup.Decode: requires that four bytes follow a complete tenant field. `advance(4)` panics there instead of returning an error, so such buffers are excluded rather than given an error result.
- DatabaseLookup.NameFits: the round-trip lemmas assume the name's UTF-8 byte count fits a `u64`. A Rust `String` always satisfies this.
- The library's behaviour on malformed length prefixes is assumed, not taken from its code. The modelled decoder fails with `Overflow` after ten continuation bytes, or when the tenth byte holds more than one bit.
- The position of the cursor after a failed read is left unspecified, because `de` drops the cursor on failure.
- The `Display` of `DatabaseLookupKey` is not modelled. It depends on the UUID crate's text formatting.
- Serde's derived `Serialize`/`Deserialize` and `Debug` output are not modelled.
- The lookup index itself is not part of this model: get, put, delete, prefix scan and the apply path.
- The bodies of the `impl_sliced!`, `impl_into_array!` and `impl_common_array!` macros are not part of this model.
- `with_validity` is not modelled. It only panics.
- `as_box`, `as_any` and `as_mut_any` are not modelled. They are dynamic-dispatch plumbing.
- The `arrow` feature's `to_data` and `from_data` are not modelled. They call into the external `arrow_data` crate.
- The `Debug` formatting of `NullArray` is not modelled.
- The data type of arrow is modelled only in part. Timestamps, times, durations, intervals, decimals, maps, unions, dictionaries and fixed-size lists are omitted. Each has a non-null physical layout, so leaving them out does not change which data types a null array accepts.
- The error text of `try_new` is kept as written. It says "Boolean" where the check is for `Null`.
- NullArrays.MutableNullArray.IntoNullArray: the conversion consumes the mutable array by move in the source. Move semantics are not modelled: the result aliases `inner`, and the `MutableNullArray` stays usable, so a later `PushNull` on it would also change the returned array.
- NullArrays.MutableNullArray.PushNull: lengths are unbounded naturals. The `usize` overflow of `length += 1` is not modelled.
- NullArrays.NullArray.Slice: lengths are unbounded naturals. The `usize` overflow of `offset + length` is not modelled.
