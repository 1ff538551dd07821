# MVUtils in Dafny

A model of the serialization core of MVUtils, a Rust utility crate, together with its small
self-contained utilities, and proofs of what they promise.

**The `Savable` derive macros** (`Proc/src/savable.rs`, `Proc/src/savable2.rs`, `Proc/src/lib.rs`).
The macro input is a type shape: a struct with named, positional or no fields, or an enum whose
variants are each of those kinds. Each field carries its attributes (`#[unsaved]`,
`#[custom(save = f, load = g)]`), and the item may carry `#[varint]`. Each generator is a
function from that shape to the emitted impl, or to the panic that aborts the expansion.

The emitted code is a small syntax tree (module `Generated`):
- a `save` body of writes, possibly under a `match self`;
- a `load` body of `let` statements and a constructor, possibly under a `match` on the
  discriminant;
- for the second generator's structs, a `load_into` body of in-place assignments.

Generated code runs over an environment of per-type codecs. The lemmas prove:
- saving writes the saved fields in declaration order and loading reads them back in the same
  order;
- unsaved fields are never written and come back as `Default`;
- custom fields go through their own functions, at their own position;
- the discriminant is the narrowest of `u8`/`u16`/`u32` for the variant count, or a varint;
- an unknown discriminant gives the "Failed to load" error;
- positional names `key(n)` are bijective base-26;
- `TryFromString` matches exactly the spellings each included variant's casing allows.

**The buffer and the glue.**
- `Save.ByteBuffer` is a class holding a byte sequence and a read cursor. Its `push_*` and
  `pop_*` methods are specified by byte-layout functions in either endianness, and a read past
  the end gives `None`.
- `Save2` is the blanket `Savable2` impl, with `load_into` overwriting a place in place.
- `LibTests` holds the triple-redundant `hello`/`world` codec and the byte counts the tests
  assert. `LibDerives` runs the derive on the tests' own types A, B, C, D and E.

**Utilities.**
- `Version`: Vulkan packing, dotted and GLSL `#version` parsing, ordering.
- `Utils`: `plural`, `overlap`, `yn`, `split_into`, `split_sized`, `Verify`, `IncDec`.
- `StaticVector`: an array-backed fixed-length vector and its three iterators.
- `Print`: the ANSI SGR string builder.
- `UnsafeUtils`: `Nullable`, `HeapNullable` and `UnsafeRc` reference counting, as logical state.
- `Hashers`: the identity hashers.
- `OrDefaults` and `Remakes`.

Panics are values: `Fallible<T>` is `Returns(v)` or `Panics(message)`, with the source's
message. Where `Result::unwrap` appends the `Debug` text of a `syn` parse error to its message
(`Proc/src/savable2.rs:31`), only the fixed part of the message is modelled. Several things are parameters of the model rather than fixed by it:
- the codecs of the field types (`<T as Savable>`, custom functions, the discriminant and
  varint codecs), which are the functions of a `Generated.Env`;
- `T::default()`;
- the buffer's endianness.

Integer widths are explicit: `u8` … `u64` and `i8` … `i64` are subset types of `int`, using
two's complement where the source casts, and debug-build overflow panics where the source can
overflow.

Where the source files disagree with one another, the model follows the code:
- `Proc/src/lib.rs:3` imports the generators of `savable.rs`, but `lib.rs:32` calls
  `enumerator` with the four arguments of `savable2.rs:219`. The model dispatches structs to
  the `savable.rs` generators as written and enums to the `savable2.rs` enumerator. Both
  generators are modelled, except the tuple-struct path of `savable2.rs` (see Left out).
- So a named struct whose fields are all `#[unsaved]` gets the uncompilable `Self { , .. }`
  literal of `savable.rs:69-72` (`ProcMacro.DeriveSavableNamed`; see Findings).
- With that dispatch, deriving `Savable` for `struct B(String, #[unsaved] u32, ..)`
  (`src/lib.rs:42-43`) aborts the expansion (`LibDerives.DeriveBPanics`).
- The struct generators ignore `#[custom]` (`LibDerives.DeriveC`), so the derive on
  `ShortString` (`src/lib.rs:188-192`) does not call its string8 functions
  (`LibDerives.DeriveShortString`; see Findings).
- `Version`'s `Ord` ignores the variant while the derived equality compares it, so two
  versions can compare `Equal` and still be different (`Version.CmpEqualNotEq`).
- `Nullable::take_replace` stores the new value before it panics on a null holder.
- `split_sized` drops a trailing remainder shorter than the chunk size.
- `src/save.rs:169-172` names the trait methods `serialize`/`deserialize`, while the generated
  code and `src/save2.rs` call `save`/`load`. The model uses `save`/`load`.
- `string8_save`/`string8_load` are defined in `mvutils::save::custom`, whose code is not
  modelled here. The codec is modelled from the test's assertions: a length byte, then at most
  255 bytes.

## Model

| member | source | states |
|---|---|---|
| Wrappers.Unwrap | Proc/src/savable2.rs:31 | `unwrap()` returns the value exactly when there is one, and panics otherwise |
| Wrappers.Expect | src/remake.rs:23 | `expect(msg)` returns the value exactly when there is one, and otherwise panics with msg |
| Wrappers.Collect | Proc/src/savable.rs:293-308 | expanding a repetition of generated pieces succeeds exactly when no piece panics, keeping every piece in order; otherwise it panics with the message of the first piece that panics |
| Wrappers.FirstPanic | Proc/src/savable.rs:293-308 | an expansion that panics has a first panicking piece, carrying its message, with every piece before it generated |
| Bytes.Reverse | src/save.rs:69-88 | reversing a byte string keeps its length and mirrors the positions |
| Bytes.ReverseReverse | src/save.rs:69-88 | reversing twice gives the bytes back, so big- and little-endian layouts are mirror images |
| Bytes.LeDigits | src/save.rs:74-88 | the n little-endian base-256 digits of a value; `Bytes.LeValueOfDigits` and `Bytes.DigitsOfLeValue` state that they spell it |
| Bytes.DecodeUInt | src/save.rs:124-138 | the value of n bytes in either byte order; `Bytes.DecodeEncode` and `Bytes.EncodeDecode` state that it inverts the encoding |
| Bytes.ToSigned | src/save.rs:140-154 | the signed reading of an n-byte pattern; `Bytes.SignedRoundTrip` states that it inverts `Bytes.ToUnsigned` |
| Bytes.LeValueBound | src/save.rs:119-138 | n bytes hold a value below 256^n |
| Bytes.LeValueOfDigits | src/save.rs:69-88 | the n base-256 digits of a value below 256^n spell that value |
| Bytes.DigitsOfLeValue | src/save.rs:119-138 | every byte string is the digit string of the value it spells |
| Bytes.EncodeUInt | src/save.rs:74-88 | the n-byte encoding of a value has n bytes |
| Bytes.DecodeEncode | src/save.rs:74-88 | decoding the n-byte encoding of a value below 256^n gives the value, in either endianness |
| Bytes.EncodeDecode | src/save.rs:124-138 | every byte string decodes to a value below 256^n and is that value's encoding |
| Bytes.HalfPow256 | src/save.rs:90-104 | half of 256^n, the count of non-negative n-byte signed values |
| Bytes.ToUnsigned | src/save.rs:90-104 | the bit pattern of a signed value lies below 256^n |
| Bytes.SignedRoundTrip | src/save.rs:90-104 | reinterpreting an in-range signed value as unsigned and back is the identity, and so is the other way round; every bit pattern reads as an in-range signed value |
| Save.Pow256Widths | src/save.rs:5-12 | the 1-, 2-, 4- and 8-byte widths hold 2^8, 2^16, 2^32 and 2^64 values |
| Save.WriteUInt | src/save.rs:74-88 | `write_uN` gives n bytes that decode to the value |
| Save.WriteInt | src/save.rs:90-104 | `write_iN` gives n bytes whose signed reading is the value's |
| Save.ReadBytes | src/save.rs:120-122 | `read_bytes(n)` succeeds iff n bytes remain, and then splits off exactly the first n |
| Save.ReadUInt | src/save.rs:124-138 | `read_uN` succeeds iff n bytes remain, and then the value read is below 256^n and its encoding is the front of the input |
| Save.ReadInt | src/save.rs:140-154 | `read_iN` succeeds iff n bytes remain, and then the value read is in range and its encoding is the front of the input |
| Save.WriteString | src/save.rs:114-116 | `write_string` is a 4-byte length prefix followed by the string's bytes |
| Save.ReadString | src/save.rs:164-166 | `read_string` succeeds iff the 4-byte prefix is there, that many bytes follow and they are valid UTF-8 (the result is a `String`); then the input is the prefix, the string and the rest |
| Save.ReadWriteUInt | src/save.rs:74-88 | reading back an unsigned integer that was written gives it and leaves what followed |
| Save.ReadWriteInt | src/save.rs:90-104 | reading back a signed integer that was written gives it and leaves what followed |
| Save.ReadWriteString | src/save.rs:114-116 | reading back a UTF-8 string shorter than 2^32 bytes that was written gives it and leaves what followed |
| Save.ReadWriteText | src/save.rs:114-116 | `push_string` of any Rust string shorter than 2^32 bytes reads back with `pop_string` as the same string, leaving what followed |
| Save.ReadStringRejects | src/save.rs:164-166 | a length prefix of 1 followed by the byte 0xFF does not read as a string |
| Utf8.FirstCharLen | src/save.rs:164-166 | the length of the well-formed UTF-8 sequence at the front (Table 3-7 of the Unicode Standard), 0 when there is none: at most 4, 1 for ASCII, a valid lead byte followed by continuation bytes |
| Utf8.AsciiValid | src/save.rs:164-166 | ASCII bytes are valid UTF-8 |
| Utf8.FirstCharLenPrefix | src/save.rs:164-166 | what follows a complete first character does not change its length |
| Utf8.ValidConcat | src/save.rs:164-166 | two valid UTF-8 strings joined are valid |
| Utf8.InvalidByte | src/save.rs:164-166 | a byte 0xC0, 0xC1 or 0xF5 and above makes a string invalid wherever it stands |
| Utf8.EncodeChar | src/save.rs:114-116 | a character encodes to 1 to 4 bytes that form exactly one well-formed sequence |
| Utf8.Encode3 | src/save.rs:114-116 | the three-byte encoding of a non-surrogate code point has a valid lead byte and first continuation byte |
| Utf8.Encode4 | src/save.rs:114-116 | the four-byte encoding of a supplementary code point has a valid lead byte and first continuation byte |
| Utf8.EncodeValid | src/save.rs:114-116 | the bytes of every Rust string are valid UTF-8 |
| Save.StringPrefix | src/save.rs:114-116 | the first four bytes of a written string read as its length |
| Save.ReadStringGivenPrefix | src/save.rs:164-166 | a length prefix followed by that many bytes reads as that string when they are UTF-8, and is rejected when they are not |
| Save.WriteStringLongPrefix | src/save.rs:114-116 | a string of 2^32 bytes or more gets a length prefix that is too small |
| Save.ByteBuffer.New | src/bytebuffer.rs:14-32 | `new_le`, `new_be` and `new_ne` give an empty buffer with the cursor at 0 in the chosen endianness |
| Save.ByteBuffer.FromBytes | src/bytebuffer.rs:34-52 | `from_vec_le`, `from_vec_be` and `from_vec_ne` give a buffer whose unread bytes are exactly the given ones |
| Save.ByteBuffer.PushBytes | src/save.rs:70-72 | `push_bytes` appends the bytes verbatim and leaves the cursor |
| Save.ByteBuffer.PushUInt | src/save.rs:74-88 | an unsigned push appends the value's encoding and leaves the cursor |
| Save.ByteBuffer.PushInt | src/save.rs:90-104 | a signed push appends the value's two's-complement encoding and leaves the cursor |
| Save.ByteBuffer.PushU8 | src/save.rs:74-76 | `push_u8` delegates to `write_u8`: the 1-byte encoding is appended and the cursor stays |
| Save.ByteBuffer.PushU16 | src/save.rs:78-80 | `push_u16` delegates to `write_u16`: the 2-byte encoding is appended and the cursor stays |
| Save.ByteBuffer.PushU32 | src/save.rs:82-84 | `push_u32` delegates to `write_u32`: the 4-byte encoding is appended and the cursor stays |
| Save.ByteBuffer.PushU64 | src/save.rs:86-88 | `push_u64` delegates to `write_u64`: the 8-byte encoding is appended and the cursor stays |
| Save.ByteBuffer.PushI8 | src/save.rs:90-92 | `push_i8` delegates to `write_i8`: the 1-byte encoding is appended and the cursor stays |
| Save.ByteBuffer.PushI16 | src/save.rs:94-96 | `push_i16` delegates to `write_i16`: the 2-byte encoding is appended and the cursor stays |
| Save.ByteBuffer.PushI32 | src/save.rs:98-100 | `push_i32` delegates to `write_i32`: the 4-byte encoding is appended and the cursor stays |
| Save.ByteBuffer.PushI64 | src/save.rs:102-104 | `push_i64` delegates to `write_i64`: the 8-byte encoding is appended and the cursor stays |
| Save.ByteBuffer.PushF32 | src/save.rs:106-108 | `push_f32` appends the float's 4-byte bit pattern and leaves the cursor |
| Save.ByteBuffer.PushF64 | src/save.rs:110-112 | `push_f64` appends the float's 8-byte bit pattern and leaves the cursor |
| Save.ByteBuffer.PushString | src/save.rs:114-116 | `push_string` delegates to `write_string`: length prefix and bytes are appended and the cursor stays |
| Save.ByteBuffer.PopBytes | src/save.rs:120-122 | `pop_bytes(n)` gives the next n bytes and moves past them, or None and no move when fewer remain; the buffer's bytes never change |
| Save.ByteBuffer.PopUInt | src/save.rs:124-138 | an unsigned pop gives `read_uN` of the unread bytes and moves past them, or None and no move; read failures never panic |
| Save.ByteBuffer.PopInt | src/save.rs:140-154 | a signed pop gives `read_iN` of the unread bytes and moves past them, or None and no move |
| Save.ByteBuffer.PopU8 | src/save.rs:124-126 | `pop_u8` is `read_u8().ok()`: the 1-byte value and a move past it, or None and no move when fewer than 1 bytes remain |
| Save.ByteBuffer.PopU16 | src/save.rs:128-130 | `pop_u16` is `read_u16().ok()`: the 2-byte value and a move past it, or None and no move when fewer than 2 bytes remain |
| Save.ByteBuffer.PopU32 | src/save.rs:132-134 | `pop_u32` is `read_u32().ok()`: the 4-byte value and a move past it, or None and no move when fewer than 4 bytes remain |
| Save.ByteBuffer.PopU64 | src/save.rs:136-138 | `pop_u64` is `read_u64().ok()`: the 8-byte value and a move past it, or None and no move when fewer than 8 bytes remain |
| Save.ByteBuffer.PopI8 | src/save.rs:140-142 | `pop_i8` is `read_i8().ok()`: the 1-byte value and a move past it, or None and no move when fewer than 1 bytes remain |
| Save.ByteBuffer.PopI16 | src/save.rs:144-146 | `pop_i16` is `read_i16().ok()`: the 2-byte value and a move past it, or None and no move when fewer than 2 bytes remain |
| Save.ByteBuffer.PopI32 | src/save.rs:148-150 | `pop_i32` is `read_i32().ok()`: the 4-byte value and a move past it, or None and no move when fewer than 4 bytes remain |
| Save.ByteBuffer.PopI64 | src/save.rs:152-154 | `pop_i64` is `read_i64().ok()`: the 8-byte value and a move past it, or None and no move when fewer than 8 bytes remain |
| Save.ByteBuffer.PopF32 | src/save.rs:156-158 | `pop_f32` gives the next 4-byte bit pattern, or None and no move |
| Save.ByteBuffer.PopF64 | src/save.rs:160-162 | `pop_f64` gives the next 8-byte bit pattern, or None and no move |
| Save.ByteBuffer.PopString | src/save.rs:164-166 | `pop_string` gives `read_string` of the unread bytes and moves past prefix and string; with no prefix it does not move; with the prefix but too few bytes it stays after the prefix; with bytes that are not UTF-8 it stays after them |
| Save.ByteBuffer.PopBytesUnchecked | src/save.rs:20-22 | `pop_bytes_unchecked` is `pop_bytes(n).unwrap()`: the same bytes and move, and a panic where `pop_bytes` gives None |
| Save.ByteBuffer.PopU8Unchecked | src/save.rs:24-26 | `pop_u8_unchecked` returns iff 1 bytes remain, and then the value `pop_u8` gives; otherwise it panics |
| Save.ByteBuffer.PopU16Unchecked | src/save.rs:28-30 | `pop_u16_unchecked` returns iff 2 bytes remain, and then the value `pop_u16` gives; otherwise it panics |
| Save.ByteBuffer.PopU32Unchecked | src/save.rs:32-34 | `pop_u32_unchecked` returns iff 4 bytes remain, and then the value `pop_u32` gives; otherwise it panics |
| Save.ByteBuffer.PopU64Unchecked | src/save.rs:36-38 | `pop_u64_unchecked` returns iff 8 bytes remain, and then the value `pop_u64` gives; otherwise it panics |
| Save.ByteBuffer.PopI8Unchecked | src/save.rs:40-42 | `pop_i8_unchecked` returns iff 1 bytes remain, and then the value `pop_i8` gives; otherwise it panics |
| Save.ByteBuffer.PopI16Unchecked | src/save.rs:44-46 | `pop_i16_unchecked` returns iff 2 bytes remain, and then the value `pop_i16` gives; otherwise it panics |
| Save.ByteBuffer.PopI32Unchecked | src/save.rs:48-50 | `pop_i32_unchecked` returns iff 4 bytes remain, and then the value `pop_i32` gives; otherwise it panics |
| Save.ByteBuffer.PopI64Unchecked | src/save.rs:52-54 | `pop_i64_unchecked` returns iff 8 bytes remain, and then the value `pop_i64` gives; otherwise it panics |
| Save.ByteBuffer.PopF32Unchecked | src/save.rs:56-58 | `pop_f32_unchecked` returns iff 4 bytes remain, and then the value `pop_f32` gives; otherwise it panics |
| Save.ByteBuffer.PopF64Unchecked | src/save.rs:60-62 | `pop_f64_unchecked` returns iff 8 bytes remain, and then the value `pop_f64` gives; otherwise it panics |
| Save.ByteBuffer.PopStringUnchecked | src/save.rs:64-66 | `pop_string_unchecked` is `pop_string().unwrap()`: it panics whenever `pop_string` gives `None`, including on bytes that are not UTF-8 |
| Save2.Place.constructor | src/save2.rs:9 | a place of a `Savable + Default` type holds its value |
| Save2.Place.Save | src/save2.rs:10-12 | `Savable2::save` appends exactly the bytes of `Savable::save` and moves nothing else |
| Save2.Place.LoadInto | src/save2.rs:14-18 | `load_into` returns `Ok(())` iff `Savable::load` succeeds and then holds the loaded value; on failure it returns the loader's error unchanged and keeps its old value; the cursor ends where `load` left it |
| Save2.SaveThenLoadInto | src/save2.rs:9-18 | saving a value and loading it into another place leaves that place holding the value, returns `Ok(())` and consumes every byte |
| Save2.FailedLoadInto | src/save2.rs:15 | `load_into` over bytes that `load` rejects returns that error and leaves the place as it was |
| LibTests.Hello | src/lib.rs:69-73 | `hello` appends three copies of the value's four-byte encoding and leaves the cursor |
| LibTests.Agree | src/lib.rs:79-87 | the vote is an error iff all three values differ, with the fixed message, and otherwise the value two of them agree on |
| LibTests.LoadI32 | src/lib.rs:76-78 | `i32::load` succeeds iff four bytes remain, reading an `i32` that re-encodes to the front; otherwise it returns the error and consumes nothing |
| LibTests.PopI32Loaded | src/lib.rs:76-78 | one `i32::load` on the buffer gives `LoadI32` of the unread bytes and moves to its rest |
| LibTests.World | src/lib.rs:75-88 | `world` gives the first failing read's error or the vote of three `i32`s, and leaves the cursor accordingly |
| LibTests.WorldOfCopies | src/lib.rs:75-88 | three written `i32`s read back as their vote, leaving what followed |
| LibTests.LoadI32Written | src/lib.rs:76 | `i32::load` reads back a written `i32` and leaves what followed |
| LibTests.WorldAfterHello | src/lib.rs:69-88 | `hello` writes 12 bytes, and `world` after `hello` returns the original value and consumes exactly them |
| LibTests.WorldToleratesOneCorruption | src/lib.rs:79-84 | any one of the three copies may be replaced by another value and `world` still returns the original |
| LibTests.WorldFailsOnlyIfAllDiffer | src/lib.rs:79-87 | on three complete copies `world` errs iff all three differ |
| LibTests.HelloThenWorld | src/lib.rs:69-88 | `hello` into a fresh buffer then `world` gives `Ok(v)` with nothing left over |
| LibTests.String8Len | src/lib.rs:227-246 | a string8 keeps at most 255 bytes, and all of a shorter string |
| LibTests.LenByte | src/lib.rs:221 | the length byte of a string8 is the kept length |
| LibTests.String8Bytes | src/lib.rs:188-192 | `string8_save` writes the kept length as one byte, then that many bytes of the string |
| LibTests.String8Read | src/lib.rs:188-192 | `string8_load` succeeds iff a length byte is there and that many bytes follow |
| LibTests.String8RoundTrip | src/lib.rs:214-246 | reading back a saved string8 gives the string cut to its first 255 bytes, leaving what followed |
| LibTests.String8Save | src/lib.rs:188-192 | `string8_save` called directly appends the string8 bytes of the string to the buffer |
| LibTests.String8Load | src/lib.rs:188-192 | `string8_load` called directly gives the string8 read of the unread bytes and moves past it |
| LibTests.TestShortString | src/lib.rs:214-247 | with the string8 codec called directly, "Hello" saves to 6 bytes and loads back equal; 260 'c's save to 256 bytes and load back as exactly 255 'c's |
| LibTests.I32ArrayBytes | src/lib.rs:257-259 | an `[i32; N]` saves to 4N bytes, with no length prefix |
| LibTests.I32ArrayRead | src/lib.rs:261 | reading an `[i32; N]` yields N elements |
| LibTests.I32ArrayReadStep | src/lib.rs:261 | reading N elements is reading the first and then N - 1 more |
| LibTests.I32ArrayHead | src/lib.rs:257-261 | the first element of an encoded array reads back, leaving the encoding of the others |
| LibTests.I32ArrayRoundTripStep | src/lib.rs:257-261 | if the array without its first element reads back, so does the whole array |
| LibTests.I32ArrayRoundTrip | src/lib.rs:257-262 | an array of `i32`s reads back from its bytes, leaving what followed |
| LibTests.I32ArrayBytesAppend | src/lib.rs:257 | appending an element to the array appends its encoding to the bytes |
| LibTests.SaveI32Array | src/lib.rs:257 | saving an `[i32; N]` appends each element's encoding in order and leaves the cursor |
| LibTests.I32ArrayBytesStep | src/lib.rs:257 | one more element written after the first i extends the bytes to those of the first i + 1 |
| LibTests.CountingArray | src/lib.rs:251-254 | the test array holds 1..15 after `test[i] = i + 1` for each i |
| LibTests.TestArray | src/lib.rs:249-263 | `[1, .., 15]` as `[i32; 15]` saves to 60 bytes and loads back equal |
| LibTests.TestByteBufferFeatures | src/lib.rs:265-273 | on a little-endian buffer `push_u16(0x1000)` writes `[0x00, 0x10]`, and popping them gives `Some(0x1000)` |
| Shape.Filter | Proc/src/savable.rs:19 | keeping the elements that pass a test never makes a list longer |
| Shape.FilterCons | Proc/src/savable.rs:19 | the filter keeps a head that passes and drops one that fails, then goes on with the tail |
| Shape.FilterAppend | Proc/src/savable.rs:19 | filtering distributes over concatenation, so it keeps the relative order of the elements |
| Shape.PartitionComplete | Proc/src/savable.rs:19 | `partition` puts every element in exactly one half: the first half passes, the second fails, and together they are a permutation of the input |
| Shape.FilterMembership | Proc/src/savable.rs:19 | an element is kept iff it is in the input and passes |
| Shape.FilterKeysDistinct | Proc/src/savable.rs:19 | filtering a list with distinct keys keeps them distinct |
| Shape.FilterKeysDisjoint | Proc/src/savable.rs:19 | with distinct keys, no key is in both halves of a partition |
| Shape.FilterAll | Proc/src/savable.rs:19 | when every element passes, the first half is the whole list and the second is empty |
| Shape.SavedUnsavedPartition | Proc/src/savable.rs:6-19 | a field is in the saved half iff none of its attributes is a bare path with an `unsaved` segment, and in the unsaved half otherwise; each field is in exactly one |
| Shape.Names | Proc/src/savable.rs:146-151 | the field names, one per field, in order |
| Shape.Letter | Proc/src/savable.rs:316-317 | the digit d is pushed as the letter `b'a' + d` |
| Shape.LetterIndex | Proc/src/savable.rs:316-317 | each lowercase letter is the letter of exactly one digit |
| Shape.KeyName | Proc/src/savable.rs:313-326 | the name of n is a non-empty lowercase word |
| Shape.KeyIndexOfKeyName | Proc/src/savable.rs:313-326 | reading the name of n as a bijective base-26 numeral gives n back |
| Shape.KeyNameOfKeyIndex | Proc/src/savable.rs:313-326 | every lowercase word is the name of the number it spells |
| Shape.KeyNameInjective | Proc/src/savable.rs:313-326 | `key` gives distinct numbers distinct names |
| Shape.KeyNameSurjective | Proc/src/savable.rs:313-326 | every lowercase word is the name of some number |
| Shape.KeyNameExamples | Proc/src/savable.rs:313-326 | 0 is "a", 25 is "z", 26 is "aa", 27 is "ab", 701 is "zz" and 702 is "aaa" |
| Shape.Key | Proc/src/savable.rs:313-326 | the `key` loop, which pushes the least significant digit first, decrements after each division and reverses at the end, computes the bijective base-26 name of n (the same loop is Proc/src/savable2.rs:457-470) |
| Generated.DiscRange | Proc/src/savable.rs:133-140 | the discriminant type the enum derive picks (`u8`, `u16`, `u32`, or the varint's `u64`) has at least 256 values |
| Generated.StructLocals | Proc/src/savable.rs:146-163 | the pattern `Name::V { a, b }` binds exactly the listed names, each to the field of that name |
| Generated.FindSaveArm | Proc/src/savable.rs:296-298 | `match self` takes the first arm whose pattern names the value's variant, and no arm before it names that variant; None exactly when no arm does |
| Generated.CommaList | Proc/src/savable.rs:70-71 | `#( #xs ),*` emits the names with a comma between consecutive names and none at either end |
| Generated.FieldListWellFormed | Proc/src/savable.rs:69-72 | the tokens of `Self { #( names ),*, #( defaults ),* }` form a field list Rust accepts exactly when the separating comma is not first and is present when there are names on both sides |
| Generated.SeparatedAlternates | Proc/src/savable.rs:70-71 | with at least one saved name, names, the separating comma and the defaults alternate name/comma, so the literal is accepted |
| Generated.UnseparatedAlternates | Proc/src/savable2.rs:361-370 | without the separating comma (the `t1` of the enum generator when there are no saved fields), the list is accepted when one of the two name lists is empty |
| Generated.StructFields | Proc/src/savable.rs:69-72 | the struct literal `Self { n1, .., nk }` has exactly the fields n1..nk, each holding the local of that name |
| Generated.StructFieldAt | Proc/src/savable.rs:69-72 | each name of the literal is one of the built value's fields and holds that local |
| Generated.TupleFields | Proc/src/savable.rs:279 | the tuple literal `Name::V(a, b, ..)` has exactly fields 0..k-1, field j holding the local named by the j-th argument |
| Generated.BindTuple | Proc/src/savable.rs:176-191 | the pattern `Name::V(a, b, ..)` over distinct names binds the j-th name to field j |
| Generated.BuildStruct | Proc/src/savable.rs:69-72 | a struct literal that compiles, over bound names, builds the value whose fields are those names and their locals |
| Generated.ExecBodyLets | Proc/src/savable.rs:65-73 | a `load` body of `let` statements then a literal returns the literal built over the names the lets bound, and leaves what they did not consume |
| Generated.FindLoadArm | Proc/src/savable.rs:302-305 | the `match` on the widened discriminant takes the first arm whose literal equals it; None exactly when no arm's literal does |
| Generated.SaveStmts | Proc/src/savable.rs:20-25 | `#( #save_fields )*` emits one write per saved field, in field order, each with its field's codec and place |
| Generated.LetLoads | Proc/src/savable.rs:27-33 | `#( #load_fields )*` emits one `let x = <T as Savable>::load(loader)?;` per saved field, in field order |
| Generated.LetDefaults | Proc/src/savable.rs:35-41 | `#( #load_default_fields )*` emits one `let x = <T as Default>::default();` per unsaved field, in field order |
| Generated.ExecSaveStmts | Proc/src/savable.rs:61-63 | running the emitted writes appends each field's encoding, in field order |
| Generated.ExecSaveAppend | Proc/src/savable.rs:163-166 | two write lists run one after the other append their outputs in order, as the discriminant write followed by the field writes does |
| Generated.ExecLetLoads | Proc/src/savable.rs:65-67 | loading name by name, through codecs that invert the saving ones, what was saved value by value binds each name to its value and leaves the bytes after them |
| Generated.LetLoadHead | Proc/src/savable.rs:31 | one `let x = <T as Savable>::load(loader)?;` over what the matching save wrote binds x to the saved value and consumes exactly its bytes |
| Generated.ExecLetDefaults | Proc/src/savable.rs:35-41 | the `Default::default()` lets bind each name to its type's default and consume no bytes |
| Generated.BindSeqLookup | Proc/src/savable.rs:65-67 | after the lets bind distinct names, each name holds the value bound to it and every other local is unchanged |
| Generated.ExecTupleLoadsInverse | Proc/src/savable.rs:92-108 | `Self(<T1>::load(loader)?, ..)` over what the tuple's save wrote succeeds, consumes exactly those bytes and puts the j-th saved value in field j |
| Generated.SaveOf | Proc/src/savable.rs:60-63 | what an emitted `save` writes; `Generated.ExecSaveStmts` and `Generated.SaveOfMatch` state it for a field list and a `match self` |
| Generated.LoadOf | Proc/src/savable.rs:65-73 | what an emitted `load` returns and where it leaves the loader; `Generated.LoadOfMatch` and `Generated.LoadOfUnknown` state the `match` form |
| Generated.LoadIntoOf | Proc/src/savable2.rs:121-126 | what an emitted `load_into` leaves in the value; `Savable2.NamedAsWrittenUnsavedField` and `Savable2.NamedLoadIntoRuns` state its contract |
| Generated.SaveOfMatch | Proc/src/savable.rs:295-299 | the emitted `save` of an enum value runs the body of the first arm naming its variant, under the names that arm's pattern binds |
| Generated.LoadOfMatch | Proc/src/savable.rs:301-303 | the emitted `load` reads the discriminant, widens it to `u32` and runs the first arm whose literal equals it, on the bytes after the discriminant |
| Generated.LoadOfUnknown | Proc/src/savable.rs:304 | a discriminant no arm's literal equals makes `load` return the error "Failed to load <Name> from loader!" after consuming the discriminant |
| Layout.NamedSaveRuns | Proc/src/savable.rs:20-25 | the writes of the saved named fields, from `self.x` or from the pattern-bound names, append each field's encoding in declaration order |
| Layout.SavedPos | Proc/src/savable.rs:19 | `partition(filter)` keeps every saved field in the list of saved fields |
| Layout.UnsavedPos | Proc/src/savable.rs:19 | `partition(filter)` keeps every unsaved field in the list of unsaved fields |
| Layout.SavedOrigin | Proc/src/savable.rs:19 | every entry of the saved list is a field of the type that is saved |
| Layout.UnsavedOrigin | Proc/src/savable.rs:19 | every entry of the unsaved list is a field of the type marked unsaved |
| Layout.SplitNamesDistinct | Proc/src/savable.rs:19-72 | the saved names followed by the unsaved names are pairwise distinct when the struct's field names are |
| Layout.BindBoth | Proc/src/savable.rs:66-67 | binding the saved names to the loaded values and then the unsaved names to their defaults leaves each name holding its own value |
| Layout.NamedLetsRun | Proc/src/savable.rs:27-67 | the lets of a named body read back, in order, what the saved fields wrote, then bind the defaults, and leave the bytes after them |
| Layout.NamedLocalsLookup | Proc/src/savable.rs:65-67 | after those lets each field's name holds its saved value or its type's default, and no other name is bound |
| Layout.NamedKeys | Proc/src/savable.rs:19-72 | the saved and unsaved names together are exactly the type's field names |
| Layout.NamedBuild | Proc/src/savable.rs:69-72 | the struct literal over those locals (with the separating comma emitted only when there are saved names) builds x with its unsaved fields defaulted |
| Layout.NamedRestoredFields | Proc/src/savable.rs:69-72 | a literal over locals holding each field's saved value or default is x restored |
| Layout.NamedLoadRuns | Proc/src/savable.rs:65-73 | loading what the saved named fields wrote rebuilds x with its unsaved fields defaulted and leaves exactly the bytes after them |
| Layout.KeyInjective | Proc/src/savable.rs:313-326 | `key` gives different identifiers to different `u32` positions |
| Layout.SavedPairPos | Proc/src/savable2.rs:272-275 | the enumerated partition keeps each saved positional field with its position |
| Layout.UnsavedPairPos | Proc/src/savable2.rs:376-379 | the enumerated partition keeps each unsaved positional field with its position |
| Layout.SavedPairOrigin | Proc/src/savable2.rs:272-275 | each saved (position, field) pair is the field at that position, and it is saved |
| Layout.UnsavedPairOrigin | Proc/src/savable2.rs:376-379 | each unsaved (position, field) pair is the field at that position, and it is unsaved |
| Layout.PairPosBound | Proc/src/savable2.rs:376-379 | every position the partition keeps is a position of the field list |
| Layout.SplitKeysDistinct | Proc/src/savable2.rs:383-403 | the keys of the saved positions followed by those of the unsaved ones are distinct, for at most 2^32 fields |
| Layout.KeysOfDistinct | Proc/src/savable.rs:313-326 | distinct positions below 2^32 get distinct keys |
| Layout.TupleSaveRuns | Proc/src/savable2.rs:279-290 | the writes of a variant's saved positional fields, from the names `key(i)`, append their encodings in order |
| Layout.PairsSaveRuns | Proc/src/savable2.rs:279-290 | writes from locals holding x's positional values append those values' encodings in order |
| Layout.TupleLetsRun | Proc/src/savable2.rs:383-403 | the `let key(i) = ..load(loader)?;` statements read back, in order, what the saved positional fields wrote |
| Layout.TupleLocalsLookup | Proc/src/savable2.rs:383-411 | after those lets each `key(j)` holds field j's saved value or its default |
| Layout.TupleLoadRuns | Proc/src/savable2.rs:413-419 | loading what a variant's positional fields wrote rebuilds x with the unsaved ones defaulted and leaves the bytes after them |
| Layout.TupleBuild | Proc/src/savable2.rs:405-417 | `Name::V(key(0), .., key(n-1))` over those locals is x restored |
| Layout.AllSaved | Proc/src/savable.rs:172-174 | with no unsaved field the saved fields are all the fields, in order, at their own positions |
| Layout.ShapedFieldsPresent | Proc/src/savable.rs:142-203 | every saved field a variant's save arm reads is a field of a value of that variant |
| Layout.KeysDistinct | Proc/src/savable.rs:176-181 | `key(0), .., key(n-1)` are distinct for n up to 2^32 |
| Layout.SavedLocals | Proc/src/savable.rs:163 | the pattern over all of a variant's names binds each saved name to its field |
| Layout.NamedArmSaveRuns | Proc/src/savable.rs:162-167 | a named variant's save arm writes the index and then the saved fields, in order |
| Layout.NamedArmBody | Proc/src/savable.rs:164-165 | the arm body writes the discriminant first and the saved fields after it |
| Layout.TupleArmLocals | Proc/src/savable2.rs:292-301 | `Name::V(key(0), ..)` binds `key(j)` to positional field j |
| Layout.TupleArmSaveRuns | Proc/src/savable2.rs:300-305 | a tuple variant's save arm writes the index and then the positional fields, in order |
| Layout.VariantSaveRuns | Proc/src/savable.rs:142-203 | for each variant shape, the arm's pattern binds the value's fields and its body writes the index then the saved fields |
| Layout.VariantLoadRuns | Proc/src/savable.rs:205-289 | for each variant shape, the load arm's body reads the saved fields back and rebuilds the value with the unsaved ones defaulted |
| Layout.ArmVariant | Proc/src/savable.rs:163-199 | the save arm of a variant names that variant |
| Layout.EnumSaveRuns | Proc/src/savable.rs:295-299 | saving a value of variant k writes the discriminant k and then the variant's saved fields |
| Layout.EnumLoadRuns | Proc/src/savable.rs:301-305 | loading bytes that start with the discriminant k runs variant k's load arm on what follows |
| Layout.EnumLoadBack | Proc/src/savable.rs:301-305 | loading the discriminant k followed by the saved fields of a value of variant k gives that value back with its unsaved fields defaulted |
| Layout.EnumRoundTrip | Proc/src/savable.rs:293-308 | an enum impl whose arms follow the variants in declaration order loads back what it saved, defaulting unsaved fields, and leaves the bytes after it |
| Savable.NamedAsWritten | Proc/src/savable.rs:18-78 | `named` as written; `Savable.NamedAsWrittenNoSavedField` states that with no saved field it emits `Self { , .. }`, which does not compile |
| Savable.Named | Proc/src/savable.rs:18-78 | `named` with the struct-literal comma corrected; `Savable.NamedRoundTrip` states its round trip and `Savable.NamedSaveIgnoresUnsaved` that unsaved fields are never written |
| Savable.Unnamed | Proc/src/savable.rs:80-114 | `unnamed`; `Savable.UnnamedPanics` states when it panics, `Savable.UnnamedSaves` what it writes and `Savable.UnnamedRoundTrip` that it reads it back |
| Savable.EnumeratorAsWritten | Proc/src/savable.rs:132-311 | `enumerator` as written; `Savable.EnumeratorAsWrittenNoSavedField` states the uncompilable arm it emits for a variant with no saved field |
| Savable.Enumerator | Proc/src/savable.rs:132-311 | `enumerator` with the comma corrected; `Savable.EnumeratorPanics`, `Savable.EnumeratorRoundTrip` and `Savable.EnumeratorUnknown` state its panics, its round trip and its unknown-discriminant error |
| Savable.DiscFor | Proc/src/savable.rs:133-140 | `id_ty` is `u8` below 256 variants, `u16` below 65536 and `u32` otherwise: the narrowest of the three that holds every variant index, never the varint |
| Savable.NamedRoundTrip | Proc/src/savable.rs:18-78 | the derived `save` of a named struct writes exactly its saved fields in declaration order, and `load` of those bytes returns the struct with every unsaved field set to its type's `Default`, leaving the bytes after them |
| Savable.NamedSaveIgnoresUnsaved | Proc/src/savable.rs:19-25 | two structs that agree on every saved field are saved to the same bytes: `#[unsaved]` fields never reach the saver |
| Savable.DefaultLetsRun | Proc/src/savable.rs:35-67 | with no saved field the body's lets only bind defaults, read nothing and cannot fail |
| Savable.NamedAsWrittenNoSavedField | Proc/src/savable.rs:69-72 | as written, the generator agrees with the corrected one whenever some field is saved; with no saved field its literal `Self { , d }` does not compile, so `load` has no behaviour |
| Savable.NamedNoSavedField | Proc/src/savable.rs:35-72 | the corrected `named` with every field unsaved reads nothing and returns the value whose every field is its type's default |
| Savable.DefaultsBody | Proc/src/savable.rs:35-55 | a body that binds the defaults and collects them in a literal with no leading comma builds the value holding the defaults |
| Savable.AllUnsaved | Proc/src/savable.rs:19 | with no saved field the partition puts every field among the unsaved ones |
| Savable.TypeCodecs | Proc/src/savable.rs:92-97 | the field codecs `<T as Savable>` of a tuple struct, one per field, in order |
| Savable.TupleOf | Proc/src/savable.rs:86-90 | the values `self.0, .., self.(n-1)` in position order |
| Savable.UnnamedPanics | Proc/src/savable.rs:80-84 | `unnamed` panics with "Unnamed fields cannot be marked as unsaved!" exactly when some field is `#[unsaved]` |
| Savable.UnnamedSaves | Proc/src/savable.rs:86-105 | the derived `save` of a tuple struct writes field 0, 1, .. in order, each through its type's `Savable` impl |
| Savable.TupleOfLoadsRuns | Proc/src/savable.rs:108 | `Ok(Self(<T0>::load(loader)?, ..))` over what the same codecs saved from the fields rebuilds the value and consumes exactly those bytes |
| Savable.UnnamedRoundTrip | Proc/src/savable.rs:80-114 | the derived tuple-struct `load` returns exactly the value saved and leaves the bytes after it |
| Savable.UnitRoundTrip | Proc/src/savable.rs:116-130 | a unit struct saves no bytes, and `load` returns the value without reading |
| Savable.SaveArmsOf | Proc/src/savable.rs:142-203 | the save arms are generated one per variant, in declaration order, variant i getting index i |
| Savable.LoadArmsOf | Proc/src/savable.rs:205-289 | the load arms are generated one per variant, in declaration order, variant i getting index i |
| Savable.EnumParts | Proc/src/savable.rs:293-308 | a non-panicking `enumerator` is a `match self` over the variants' save arms and a `match` on the `id_ty` discriminant over their load arms, arm i matching `i as u32` |
| Savable.LoadArmIndex | Proc/src/savable.rs:207-243 | the load arm of variant i matches the literal `i as u32` |
| Savable.EnumeratorPanics | Proc/src/savable.rs:172-174 | `enumerator` panics with "Unnamed fields cannot be marked as unsaved!" exactly when some tuple variant has an `#[unsaved]` field |
| Savable.ArmPanics | Proc/src/savable.rs:172-174 | a variant's save arm and load arm panic together, exactly for a tuple variant with an unsaved field |
| Savable.EnumeratorArms | Proc/src/savable.rs:142-289 | the arms `enumerator` emits are, variant by variant, the index write followed by the saved fields and the loads followed by the defaults and the variant's literal |
| Savable.EnumeratorRoundTrip | Proc/src/savable.rs:132-311 | saving a value of variant k writes k in the narrowest of `u8`/`u16`/`u32` and then its saved fields; `load` of those bytes returns the value with unsaved fields defaulted and leaves what follows |
| Savable.EnumeratorUnknown | Proc/src/savable.rs:302-304 | a discriminant that, after `as u32`, names no variant makes `load` return "Failed to load <Name> from loader!" |
| Savable.EnumeratorAsWrittenNoSavedField | Proc/src/savable.rs:247-250 | as written, a struct variant whose fields are all unsaved gets the arm `Name::V { , d }`, which does not compile, so that arm has no behaviour |
| Savable2.GetCustom | Proc/src/savable2.rs:26-46 | `get_custom` comes back empty exactly when no attribute is a list attribute whose path has a `custom` segment; otherwise the first such attribute decides, and a malformed one panics |
| Savable2.GetCustomFirst | Proc/src/savable2.rs:27-45 | the search is lazy: the first custom attribute's result (its pair of paths or its panic) is the result, whatever attributes follow it |
| Savable2.CustomAttrAccepted | Proc/src/savable2.rs:30-41 | a custom attribute yields its two paths exactly when it has two key-value pairs, the keys are `save` then `load`, and both values are paths |
| Savable2.CustomsOf | Proc/src/savable2.rs:63 | collecting `get_custom` over the saved fields panics exactly when some field's lookup does, and otherwise holds each field's lookup in order |
| Savable2.NamedPanics | Proc/src/savable2.rs:60-87 | `named` panics exactly when some saved field has a custom attribute, malformed or well-formed ("Custom not supported in Savable2 get rekt"); unsaved fields are never looked at |
| Savable2.CustomsFound | Proc/src/savable2.rs:63-83 | once every saved field's attributes parse, some field has custom functions exactly when some lookup is not empty |
| Savable2.CustomsPanic | Proc/src/savable2.rs:63 | a failing lookup of the list is a failing lookup of one field |
| Savable2.NamedCodecs | Proc/src/savable2.rs:65-87 | in an impl `named` returns every saved field is written with `Savable2::save` and read with `load_into` |
| Savable2.SetFieldsLookup | Proc/src/savable2.rs:85-93 | assigning distinct fields in place leaves each holding its new value, keeps the others and adds no field |
| Savable2.SetBothLookup | Proc/src/savable2.rs:121-123 | assigning the saved fields and then the unsaved ones, disjoint lists, leaves each field holding the value assigned to it |
| Savable2.LoadIntoStepsRun | Proc/src/savable2.rs:78-122 | `self.x.load_into(loader)?;` field after field, over what the fields' `save` wrote, assigns each field its saved value and leaves the bytes after them |
| Savable2.NamedAsWritten | Proc/src/savable2.rs:60-131 | `named` as written, with `*self.x = ..` for the unsaved fields; `Savable2.NamedAsWrittenUnsavedField` states its contract |
| Savable2.NamedImpl | Proc/src/savable2.rs:89-131 | the impl `named` emits, with the default steps corrected; `Savable2.NamedIsImpl` and `Savable2.NamedLoadIntoRoundTrip` state its contract |
| Savable2.Named | Proc/src/savable2.rs:60-131 | `named` with the default steps corrected; `Savable2.NamedPanics` states when it panics and `Savable2.NamedLoadIntoRoundTrip` its round trip |
| Savable2.NamedAsWrittenUnsavedField | Proc/src/savable2.rs:89-95 | `named` as written panics exactly when the corrected one does, is the same impl when no field is unsaved, and otherwise emits a `load_into` that does not compile, since `*self.x` dereferences the field itself |
| Savable2.DefaultStepsRun | Proc/src/savable2.rs:89-123 | the corrected default steps `self.x = <T as Default>::default();` assign every unsaved field its type's default and read nothing |
| Savable2.NamedLoadIntoRuns | Proc/src/savable2.rs:121-126 | the corrected `load_into` over what the saved fields wrote assigns them in order, then the defaults, and returns `Ok(())` |
| Savable2.UnsavedAfterSaved | Proc/src/savable2.rs:121-123 | assigning the saved fields keeps every unsaved field present for its default |
| Savable2.LoadedIntoRestored | Proc/src/savable2.rs:115-128 | the value the corrected `load_into` leaves has x's saved fields and its type's default in every unsaved field |
| Savable2.LoadedIntoSaved | Proc/src/savable2.rs:78-87 | `load_into` keeps the value's shape and leaves the k-th loaded value in the k-th saved field |
| Savable2.LoadedIntoUnsaved | Proc/src/savable2.rs:89-95 | the corrected `load_into` leaves its type's default in each unsaved field |
| Savable2.SameFields | Proc/src/savable2.rs:60-61 | two values of the same named struct have the same fields |
| Savable2.NamedLoadIntoRoundTrip | Proc/src/savable2.rs:60-131 | with the default steps corrected to `self.x = ..`, the derived `Savable2::save` writes the saved fields in declaration order; `load_into` of those bytes, on any value of the type, makes it equal to x with unsaved fields defaulted and returns `Ok(())`, leaving the bytes after them |
| Savable2.NamedIsImpl | Proc/src/savable2.rs:60-131 | an impl `named` returns writes the saved fields through `Savable2` and reads them with `load_into` |
| Savable2.NamedLoadIntoPartial | Proc/src/savable2.rs:85-123 | `load_into` is not all or nothing: when saved field k fails to load, the fields before it already hold their new values, the rest keep their old ones (field k too, its type loading through the blanket impl), and the error is returned |
| Savable2.LoadIntoPrefixFails | Proc/src/savable2.rs:85 | a run of `load_into` steps that meets a failing load after k good ones returns that error with the first k fields assigned |
| Savable2.StepsSplit | Proc/src/savable2.rs:121-123 | the `load_into` steps split after field k - 1, the next step reading field k |
| Savable2.FailingStep | Proc/src/savable2.rs:85 | a failing `?` stops the run with that error, leaving the value as it is when the field's type loads through the blanket `load_into` |
| Savable2.SetFieldsKeys | Proc/src/savable2.rs:85-93 | assigning fields in place adds none |
| Savable2.CustomSaveCodecs | Proc/src/savable2.rs:279-290 | the save function of each field, in order: its custom one or its type's impl |
| Savable2.CustomLoadCodecs | Proc/src/savable2.rs:383-403 | the load function of each field, in order |
| Savable2.UnnamedCustomPlain | Proc/src/savable.rs:80-114 | without `#[custom]` fields the corrected tuple-struct generator emits what `unnamed` does |
| Savable2.UnnamedCustomRoundTrip | Proc/src/savable.rs:80-114 | the corrected tuple-struct generator writes each field through its custom save function or its type's impl, in order, and reads the value back through the matching load functions |
| Savable2.UnitStruct | Proc/src/savable2.rs:203-217 | the unit generator emits the same `mvutils::save::Savable` impl as the first generator: nothing written, `Ok(Self)` read |
| Savable2.DiscKindFor | Proc/src/savable2.rs:220-229 | the discriminant is a varint-coded `u64` exactly when `varint` is asked for, and otherwise the `u8`/`u16`/`u32` rule of the first generator |
| Savable2.VariantsCustoms | Proc/src/savable2.rs:249-277 | the custom functions of each variant's saved fields, variant by variant, in order |
| Savable2.EnumeratorPanics | Proc/src/savable2.rs:231-313 | `enumerator` panics exactly when a field some variant saves has a malformed custom attribute, and then with that attribute's message |
| Savable2.NamedCustomPosition | Proc/src/savable2.rs:251-262 | a named field with a custom attribute is written by its save function and read by its load function at its own position |
| Savable2.TupleCustomPosition | Proc/src/savable2.rs:279-290 | a positional field with a custom attribute is written from and read into `key(p)` with its own functions |
| Savable2.EnumeratorRoundTrip | Proc/src/savable2.rs:219-455 | saving a value of variant k writes k (as a varint, or in the narrowest fixed width) and then its saved fields, custom ones through their functions; `load` of those bytes returns the value with unsaved fields defaulted and leaves what follows |
| Savable2.EnumeratorTruncates | Proc/src/savable2.rs:431-447 | `match <discriminant> as u32`: a discriminant read as d selects variant d mod 2^32, so a varint past 2^32 aliases a smaller index |
| Savable2.EnumeratorUnknown | Proc/src/savable2.rs:446-448 | a discriminant that names no variant after `as u32` makes `load` return "Failed to load <Name> from loader!" |
| Savable2.Enumerator | Proc/src/savable2.rs:219-455 | `enumerator`; `Savable2.EnumeratorPanics`, `Savable2.EnumeratorRoundTrip`, `Savable2.EnumeratorTruncates` and `Savable2.EnumeratorUnknown` state its contract |
| Savable2.KeyNames | Proc/src/savable2.rs:292-298 | the loop pushes `key(0), .., key(amount - 1)` in order |
| ProcMacro.Any | Proc/src/lib.rs:18-20 | `iter().any(p)` holds exactly when some element satisfies p |
| ProcMacro.IsVarint | Proc/src/lib.rs:18-24 | `varint` holds exactly when some attribute of the item is a bare path with a `varint` segment |
| ProcMacro.DeriveSavable | Proc/src/lib.rs:11-34 | `derive_savable`; `ProcMacro.DeriveSavablePanics` and `ProcMacro.DeriveSavableDisc` state its dispatch, its union panic and its discriminant choice 
| ProcMacro.DeriveSavableNamed | Proc/src/lib.rs:26-28 | a named struct goes to savable.rs `named` as written: with some saved field its impl is the comma-corrected one, and with none the emitted `load` does not compile |
| ProcMacro.DeriveSavablePanics | Proc/src/lib.rs:26-34 | `derive_savable` panics exactly for a union ("Deriving Savable for unions is not supported!"), for a tuple struct with an unsaved field, and for an enum whose saved fields carry a malformed custom attribute; otherwise it emits a `Savable` impl for the item's name |
| ProcMacro.DeriveSavableDisc | Proc/src/lib.rs:18-32 | for an enum, `#[varint]` selects the varint discriminant; without it the discriminant is `u8`, `u16` or `u32` by the number of variants |
| ProcMacro.IsExcluded | Proc/src/lib.rs:50-52 | a variant is excluded exactly when one of its attributes' path is the identifier `exclude` |
| ProcMacro.GetIdent | Proc/src/lib.rs:60 | `path.get_ident()` is the single segment of a one-segment path, None otherwise |
| ProcMacro.CasingNamed | Proc/src/lib.rs:61-66 | "Lower", "Upper" and "Both" name their casings; any other identifier panics with "Invalid casing: <ident>" |
| ProcMacro.GetCasing | Proc/src/lib.rs:55-72 | a variant with no `#[casing(path)]` attribute gets `Both` |
| ProcMacro.GetCasingFirst | Proc/src/lib.rs:56-69 | the first `#[casing(path)]` attribute decides the casing (or its panic), whatever attributes follow it |
| ProcMacro.ToLower | Proc/src/lib.rs:84 | `to_lowercase` maps each character to its lower-case ASCII form, keeping the length |
| ProcMacro.ToUpper | Proc/src/lib.rs:88 | `to_uppercase` maps each character to its upper-case ASCII form, keeping the length |
| ProcMacro.VariantArmsAccept | Proc/src/lib.rs:77-98 | a variant's arms all return that variant, and their texts are exactly the spellings its casing allows: lower-case, upper-case, or both |
| ProcMacro.FlattenMember | Proc/src/lib.rs:76-99 | an arm of the `flat_map` is an arm of one of the variants |
| ProcMacro.IncludedArms | Proc/src/lib.rs:76-99 | the arms of the included variants are produced, in order, exactly when every included variant's casing is well formed |
| ProcMacro.FromStr | Proc/src/lib.rs:105-109 | `from_str` returns `Ok` exactly when some arm's text equals the value, and then the variant of the first such arm; `Err(())` otherwise |
| ProcMacro.TryFromString | Proc/src/lib.rs:37-118 | `try_from_string`; `ProcMacro.TryFromStringPanics` and `ProcMacro.TryFromStringParses` state when it panics and which strings it accepts |
| ProcMacro.TryFromStringPanics | Proc/src/lib.rs:74-117 | `try_from_string` panics exactly for a non-enum ("`TryFromString` can only be derived for enums") and for an enum one of whose included variants has a bad casing attribute |
| ProcMacro.FromStrArm | Proc/src/lib.rs:106-109 | `from_str` succeeds exactly on the text of some arm, and then with an arm of that text |
| ProcMacro.FlattenArms | Proc/src/lib.rs:76-99 | the flattened arms hold exactly the spellings the included variants' casings accept, each returning its own variant |
| ProcMacro.TryFromStringParses | Proc/src/lib.rs:37-118 | the derived `from_str` succeeds exactly on a spelling that an included variant's casing allows, and returns a variant that allows it |
| ProcMacro.IncludedVariants | Proc/src/lib.rs:76 | a variant gets arms exactly when it is a variant of the enum not marked `#[exclude]` |
| ProcMacro.TestEnumIncluded | src/lib.rs:104-111 | of `enum Enum { A, B, C, #[exclude] HelloWorld }` only A, B and C get arms |
| ProcMacro.FilterLastOut | src/lib.rs:104-111 | filtering four elements of which only the last fails keeps the first three |
| ProcMacro.PlainVariantArms | Proc/src/lib.rs:91-96 | a variant without attributes gets its lower-case arm and then its upper-case arm |
| ProcMacro.SingleLetter | Proc/src/lib.rs:84-88 | a one-letter upper-case name lower-cases to the letter 32 code points up and upper-cases to itself |
| ProcMacro.TestEnumIncludedArms | src/lib.rs:104-111 | the arms of A, B and C are "a", "A", "b", "B", "c", "C" |
| ProcMacro.TestFlatten | src/lib.rs:104-111 | those arms, flattened, in declaration order |
| ProcMacro.TestEnumArms | src/lib.rs:104-111 | the derived impl for `Enum` is `from_str` over those six arms |
| ProcMacro.TestParses | src/lib.rs:113-118 | "a" parses to A and "B" to B |
| ProcMacro.TestRejects | src/lib.rs:119-120 | every text longer than one character, "HelloWorld" among them, is rejected |
| ProcMacro.TestTryFromString | src/lib.rs:113-121 | `test_try_from_string`: "a" gives A, "B" gives B, and "HelloWorld" and "helloworld" are errors because the variant is excluded |
| LibDerives.PlainField | Proc/src/savable.rs:6-16 | a field without attributes is saved and has no custom functions, so it goes through its type's own impl |
| LibDerives.UnsavedField | Proc/src/savable.rs:10-16 | a field marked `#[unsaved]` is not saved |
| LibDerives.CustomField | Proc/src/savable2.rs:26-46 | a field marked `#[custom(save = hello, load = world)]` is saved, and the enum generator writes it with `hello` and reads it with `world` |
| LibDerives.Filter3 | Proc/src/savable.rs:19 | partitioning (kept, dropped, kept) gives the first and third, and the second |
| LibDerives.Filter4 | Proc/src/savable.rs:19 | partitioning four elements of which only the second fails keeps the order of the other three |
| LibDerives.Saved3 | src/lib.rs:45-52 | fields laid out like C's (saved, unsaved, saved) split into the first and third, and the second |
| LibDerives.SavedPairs3 | src/lib.rs:43 | positional fields laid out like B's keep positions 0 and 2 as saved and 1 as unsaved |
| LibDerives.DeriveA | src/lib.rs:39-40 | `derive(Savable)` on the unit struct A writes nothing and reads nothing |
| LibDerives.DeriveBPanics | src/lib.rs:42-43 | `derive(Savable)` on `struct B(String, #[unsaved] u32, ..)` panics with "Unnamed fields cannot be marked as unsaved!" |
| LibDerives.DeriveNamed3 | Proc/src/savable.rs:18-78 | the struct derive on three named fields laid out like C's writes the first and third through their types' impls (ignoring `custom`), reads them back in that order and defaults the second |
| LibDerives.DeriveC | src/lib.rs:45-52 | `derive(Savable)` on C writes `a` as a String and `c` as an i32, and loads `a`, `c`, then `_b` as `u32::default()` |
| LibDerives.Saved7 | src/lib.rs:54-67 | seven fields laid out like D's keep their declaration order on both sides of the split |
| LibDerives.DeriveD | src/lib.rs:54-67 | for D the saved fields are a, c, d, f, g and the unsaved ones _b, e, in declaration order |
| LibDerives.CustomsNamed3 | src/lib.rs:95-101 | a variant with named fields laid out like C's has custom functions only on its last saved field |
| LibDerives.CustomsTuple3 | src/lib.rs:94 | a variant with positional fields laid out like B's has custom functions only on its last saved field |
| LibDerives.CustomsOfE | src/lib.rs:90-102 | no field that E saves has a malformed `custom` attribute |
| LibDerives.DeriveE | src/lib.rs:90-102 | `derive(Savable)` on the `#[varint]` enum E goes to the enum generator with a varint discriminant and expands |
| LibDerives.VariantNamed3Arms | Proc/src/savable2.rs:239-270 | the enum derive's arms for a named variant laid out like C's write the index, the first field through its type and the third through `hello`, and read them back the same way before defaulting the second |
| LibDerives.DeriveEVariantC | src/lib.rs:95-101 | variant C of E writes index 2 as a varint, `a` as a String and `c` through `hello`, and reads `a`, `c` through `world`, then `_b` |
| LibDerives.FirstKeys | Proc/src/savable2.rs:457-470 | `key(0)`, `key(1)`, `key(2)` are `a`, `b`, `c` |
| LibDerives.VariantTuple3Save | Proc/src/savable2.rs:271-305 | the save arm of a tuple variant laid out like B's writes the index, `a` through its type and `c` through `hello` |
| LibDerives.VariantTuple3Load | Proc/src/savable2.rs:375-419 | its load arm reads `a` through its type, then `c` through `world`, and defaults `b` |
| LibDerives.DeriveEVariantB | src/lib.rs:94 | variant B of E writes index 1 as a varint and positional fields 0 and 2, the second through `hello` |
| LibDerives.WellFormedE | src/lib.rs:90-102 | E has distinct variant names and distinct field names in each variant |
| LibDerives.RestoredAt3 | src/lib.rs:95-101 | a value restored over fields laid out like C's keeps the first and third fields and holds the default in the second |
| LibDerives.OnlyFields3 | src/lib.rs:95-101 | a value with exactly three named fields has no other field |
| LibDerives.RestoredNamed3 | src/lib.rs:95-101 | a value restored over fields laid out like C's is the original with the second field set to its default |
| LibDerives.String8Field | src/lib.rs:188-192 | `ShortString`'s field is saved and names `string8_save` and `string8_load` as its custom functions |
| LibDerives.DeriveShortString | src/lib.rs:188-192 | `derive(Savable)` on `ShortString` is `unnamed`'s impl: the field is written and read through `String`'s own impl, so under the buffer's string codec "Hello" takes 9 bytes |
| LibDerives.ShortStringCustom | src/lib.rs:214-224 | with `#[custom]` honoured, "Hello" saves through string8 to the 6 bytes `test_short_string` asserts and loads back equal, with nothing left over |
| LibDerives.TestDeriveSavable | src/lib.rs:123-137 | `test_derive_savable`: `E::C` saved and loaded again is `E::C` with `a` and `c` unchanged and `_b` reset to `u32::default()`, whenever the codecs of its fields and the varint read back what they wrote |
| Text.DigitChar | src/version.rs:140 | the character printed for a digit below ten is an ASCII digit with that value |
| Text.DecimalDigits | src/version.rs:140 | the decimal text of n printed by `{}` is non-empty, all digits, and spells n |
| Text.ParseU16 | src/version.rs:50 | `u16::from_str` yields only values below 2^16, and never for "" or a bare "+" |
| Text.ParseDecimal | src/version.rs:50 | printing a `u16` in decimal and parsing it back gives the number |
| Text.ParseDigit | src/version.rs:50 | a single digit parses to its value |
| Text.DecimalSmall | src/version.rs:140 | a number below ten prints as its one digit |
| Text.RemoveAll | src/version.rs:41 | `replace(pat, "")` never makes a string longer |
| Text.RemoveAllShort | src/version.rs:41 | a string shorter than the pattern is left as it is |
| Text.RemoveAllPrefix | src/version.rs:41 | a leading occurrence of the pattern is cut and the search continues after it |
| Text.RemoveCharsNone | src/version.rs:48 | `replace(['v', ' '], "")` leaves a string without those characters unchanged |
| Text.AvoidsConcat | src/version.rs:48 | two strings without the removed characters stay without them when joined |
| Text.Split | src/version.rs:49 | `split('.')` always yields at least one piece |
| Text.SplitNone | src/version.rs:49 | a string without the separator is a single piece |
| Text.SplitFirst | src/version.rs:49 | a separator-free piece followed by the separator splits off as the first piece |
| Text.SplitJoin3 | src/version.rs:49 | splitting three separator-free pieces joined by the separator gives the pieces back |
| Version.Shl32 | src/version.rs:89-90 | `x << k` on a `u32` stays below 2^32 |
| Version.OrBound | src/version.rs:89-91 | or-ing two numbers below 2^k stays below 2^k |
| Version.OrDisjoint | src/version.rs:89-91 | or-ing a number below 2^k into a multiple of 2^k adds it |
| Version.OrShifted | src/version.rs:89-91 | or commutes with a common left shift |
| Version.ParseVulkan | src/version.rs:26-33 | `parse_vulkan` (and `From<u32>`, lines 195-199) gives variant < 8, major < 128, minor < 1024 and patch < 4096 |
| Version.PackHigh | src/version.rs:89 | a variant below 8 and a major below 128 sit side by side from bit 22 |
| Version.PackMiddle | src/version.rs:89-90 | a minor below 1024 fills the ten bits below the major |
| Version.PackUpper | src/version.rs:89-90 | variant, major and minor in range fill bits 12 to 31 |
| Version.PackLow | src/version.rs:91 | a patch below 4096 fills the low twelve bits |
| Version.PackInRange | src/version.rs:88-92 | with every field in range, `as_vulkan_version` (and `From<Version> for u32`, lines 201-205) is variant * 2^29 + major * 2^22 + minor * 2^12 + patch |
| Version.AsVulkanVersion | src/version.rs:88-92 | `as_vulkan_version`; `Version.PackInRange`, `Version.VulkanPackExact` and `Version.VulkanRoundTrip` state its bit layout and that `parse_vulkan` inverts it |
| Version.VulkanFields | src/version.rs:26-33 | every `u32` is put back together from its four bit ranges |
| Version.PackedFields | src/version.rs:26-33 | the bit ranges of a packed number give back the fields that fit them |
| Version.VulkanRoundTrip | src/version.rs:26-33 | `as_vulkan_version(parse_vulkan(x)) == x` for every `u32` x |
| Version.VulkanPackExact | src/version.rs:88-92 | `parse_vulkan(as_vulkan_version(v)) == v` iff each field of v fits its bit range |
| Version.Default | src/version.rs:127-136 | `Default` is variant 0, version 1.0.0 |
| Version.Display | src/version.rs:138-142 | the `Display` text; `Version.DisplayDefault`, `Version.DisplayAvoids` and `Version.ParseDisplay` state its form and that parsing it gives the version back |
| Version.DisplayDefault | src/version.rs:138-142 | the default version prints as "1.0.0" |
| Version.ToGlslString | src/version.rs:84-86 | `to_glsl_string` starts with "#version " |
| Version.Cmp | src/version.rs:156-163 | `Ord::cmp`; `Version.CmpIsLexicographic`, `Version.CmpAntisymmetric`, `Version.CmpTransitive` and `Version.CmpEqualNotEq` state its order |
| Version.CmpIsLexicographic | src/version.rs:156-163 | `cmp` is Less, Greater or Equal exactly as (major, minor, patch) compare lexicographically |
| Version.CmpAntisymmetric | src/version.rs:156-163 | swapping the arguments of `cmp` reverses Less and Greater and keeps Equal |
| Version.CmpTransitive | src/version.rs:156-163 | `cmp` Less is transitive |
| Version.CmpEqualNotEq | src/version.rs:8 | two versions differing only in variant are `cmp`-Equal yet not `==` |
| Version.GlslDigit | src/version.rs:44 | `c as u16 - 48` returns iff the character's low 16 bits are at least '0', and then maps a digit to its value |
| Version.ParseParts | src/version.rs:50-55 | the pieces parse iff every piece is a `u16`, and then each number is its piece's value |
| Version.FromNumbers | src/version.rs:58-81 | one to three numbers give a version and any other count gives None; they fill major, minor and patch in order, the rest 0 and variant 0 |
| Version.Parse | src/version.rs:35-82 | `parse("")` is None, only a `#version` directive can panic, and every parsed version has variant 0 |
| Version.FromStr | src/version.rs:179-193 | `FromStr` and `TryFrom<String>` are `parse` with None turned into `Err(())` |
| Version.ParseDotted | src/version.rs:47-81 | a non-empty dotted string is a version iff, after removing 'v' and ' ', it splits on '.' into one to three pieces that all parse as `u16` |
| Version.ParseFourParts | src/version.rs:79-81 | four or more dotted pieces give None whatever they hold |
| Version.DisplayAvoids | src/version.rs:138-142 | `Display` prints neither 'v' nor ' ' |
| Version.ParseThree | src/version.rs:50-55 | three pieces that each parse give their three numbers |
| Version.ParseDisplay | src/version.rs:35-82 | what `Display` prints parses back to the same major, minor and patch, with variant 0 |
| Version.GlslRest | src/version.rs:39-42 | removing "#version" and the spaces from a directive leaves the characters after it |
| Version.ParseGlsl | src/version.rs:39-46 | `to_glsl_string` of one-digit numbers parses back to that version, variant 0 |
| Version.ParseTwoPieces | src/version.rs:65-71 | "1.2" parses to 1.2.0 |
| Version.SplitTwo | src/version.rs:49 | "1.2" splits on '.' into "1" and "2" |
| Version.ParseSameDotted | src/version.rs:47-49 | two dotted strings that agree once 'v' and ' ' are removed parse alike |
| Version.ParseIgnoresV | src/version.rs:47-48 | a leading 'v' before what `Display` prints is ignored |
| Version.ParseFourPieces | src/version.rs:79-81 | "1.2.3.4" gives None |
| Version.SplitFour | src/version.rs:49 | "1.2.3.4" splits into four pieces |
| Version.ParseEmptyPiece | src/version.rs:52-54 | "1..2" gives None, since an empty piece is not a number |
| Version.ParseDirective | src/version.rs:39-46 | "#version 450" is 4.5.0 |
| Version.ParseDirectiveDot | src/version.rs:44 | "#version 4.6" panics, because '.' lies below '0' and the subtraction overflows |
| Utils.Plural | src/utils.rs:13-18 | `plural` is the word itself iff the count is 1, and otherwise the word followed by more text |
| Utils.PluralIrregular | src/utils.rs:20-25 | `plural_irregular` is the word for a count of 1 and the given plural form for any other count |
| Utils.Add | src/utils.rs:52 | `+` in a fixed-width type returns the sum iff the sum fits, and panics otherwise |
| Utils.Sub | src/utils.rs:52-55 | `-` in a fixed-width type returns the difference iff it fits, and panics otherwise |
| Utils.TruncRem | src/utils.rs:52-55 | Rust's `%` truncates toward zero: for a non-negative dividend it lies in 0..|b| and agrees with the Euclidean remainder when b > 0 |
| Utils.Rem | src/utils.rs:52-55 | checked `%` returns iff the divisor is nonzero and the division is not MIN % -1, and then gives the truncated remainder |
| Utils.Width | src/utils.rs:52-55 | `max - min + 1`, when it does not overflow, fits in the type |
| Utils.Overlap | src/utils.rs:50-60 | `overlap`; `Utils.OverlapInside`, `Utils.OverlapIsWrap` and `Utils.OverlapUnsignedTotal` state its result |
| Utils.OverlapInside | src/utils.rs:50-60 | inside min..max, `overlap` returns x unchanged |
| Utils.Wrap | src/utils.rs:50-60 | the wrap-around `overlap` aims at lies in min..max and differs from x by a whole number of range widths |
| Utils.OverlapIsWrap | src/utils.rs:50-60 | whenever no step overflows, `overlap` equals that wrap-around |
| Utils.OverlapUnsignedTotal | src/utils.rs:50-60 | on an unsigned type with max below the type's maximum, `overlap` never panics |
| Utils.OverlapExamples | src/utils.rs:50-60 | on a `u8`, max + 1 wraps to min, min - 1 wraps to max, and 25 in 1..10 becomes 5; an `i32` inside the full range is unchanged |
| Utils.Yn | src/utils.rs:100-104 | `yn` returns yes iff the flag is set |
| Utils.VerifyOrPanic | src/utils.rs:292-296 | `verify_or_panic` panics iff `verify()` is false, with the given message |
| Utils.VerifyOrPanicDefault | src/utils.rs:298-302 | `verify_or_panic_default` panics iff `verify()` is false, with the fixed message |
| Utils.Inc | src/utils.rs:240-242 | integer `inc` returns x + 1 iff it fits in the type, and panics otherwise |
| Utils.Dec | src/utils.rs:244-246 | integer `dec` returns x - 1 iff it fits in the type, and panics otherwise |
| Utils.IncDecInverse | src/utils.rs:236-252 | `inc` panics only at the type's maximum and `dec` only at its minimum, and each undoes the other |
| Utils.SplitInto | src/utils.rs:157-197 | `split_into` panics iff n == 0; otherwise it returns n parts that join to the input in order, the first len % n of length len / n + 1 and the rest of length len / n |
| Utils.SplitSingles | src/utils.rs:171-178 | with at least as many parts as elements, popping from the end puts element j into part j, which is a split of the sizes above |
| Utils.SplitRuns | src/utils.rs:180-195 | with fewer parts than elements, reversing and popping runs of the chosen lengths gives a split of the sizes above |
| Utils.PopRun | src/utils.rs:190-192 | popping `length` elements off the reversed vector yields its first `length` elements in order |
| Utils.SmallSizes | src/utils.rs:171-178 | with at least as many parts as elements, part k has one element for k < len and none after |
| Utils.SplitSized | src/utils.rs:266-278 | `split_sized` panics iff n == 0; otherwise each chunk reaches n UTF-8 bytes with its last character and not before, the chunks join to a prefix of the text, and the dropped rest has fewer than n bytes |
| Utils.AsciiChunks | src/utils.rs:266-278 | on ASCII text every chunk has exactly n characters |
| Utils.ChunkInText | src/utils.rs:266-278 | every character of every chunk occurs in the text |
| Print.SgrShape | src/print.rs:32-36 | an escape is ESC, `[`, the code's decimal digits and `m` |
| Print.SgrCode | src/print.rs:32-36 | the digits inside an escape read back as the code that was written |
| Print.SgrInjective | src/print.rs:32-36 | two equal escapes carry the same code |
| Print.ColCodes | src/print.rs:91-135 | a foreground code lies in 30-37 or 90-97, a background code is the foreground code plus ten, and distinct colours have distinct codes |
| Print.FmtCodes | src/print.rs:76-85 | format codes are 0, 1, 4 or 24, one per format |
| Print.Printer.Start | src/print.rs:46-53 | `start` has empty text, white on black, default format |
| Print.Printer.ToString | src/print.rs:195-199 | `Display` writes the accumulated text exactly, character by character |
| Print.Printer.Text | src/print.rs:55-58 | `text` appends its argument verbatim and leaves the three style fields unchanged |
| Print.Printer.Fmt | src/print.rs:76-85 | `fmt` appends the format's escape and sets only the last format |
| Print.Printer.Def | src/print.rs:87-89 | `def` appends the reset escape and sets the last format to Default |
| Print.Printer.Col | src/print.rs:91-112 | `col` appends the foreground escape and sets only the last colour |
| Print.Printer.Bg | src/print.rs:114-135 | `bg` appends the background escape and sets only the last background |
| Print.Printer.RevertStyles | src/print.rs:137-139 | `revert_styles` appends colour, background and format escapes, in that order, and sets all three |
| Print.Printer.Ln | src/print.rs:67-74 | `ln` appends a reset, a newline and the current styles, so all three style fields are unchanged |
| Print.Printer.TextLn | src/print.rs:60-65 | `text_ln` appends the text, a reset, and a line break that restores colour and background with the default format, then the earlier format; the style fields end as before |
| Print.Printer.FmtFor | src/print.rs:141-146 | `fmt_for` appends the format escape, the text, and the earlier styles; the style fields end as before |
| Print.Printer.ColFor | src/print.rs:152-157 | `col_for` appends the colour escape, the text, and the earlier styles; the style fields end as before |
| Print.Printer.BgFor | src/print.rs:163-168 | `bg_for` appends the background escape, the text, and the earlier styles; the style fields end as before |
| Print.Printer.AllFor | src/print.rs:174-183 | `all_for` appends the three given styles, the text, and the earlier styles; the style fields end as before |
| Print.Printer.FmtForLn | src/print.rs:148-150 | `fmt_for_ln` is `fmt_for` followed by a line break in the earlier styles |
| Print.Printer.ColForLn | src/print.rs:159-161 | `col_for_ln` is `col_for` followed by a line break in the earlier styles |
| Print.Printer.BgForLn | src/print.rs:170-172 | `bg_for_ln` is `bg_for` followed by a line break in the earlier styles |
| Print.Printer.AllForLn | src/print.rs:185-187 | `all_for_ln` is `all_for` followed by a line break in the earlier styles |
| UnsafeUtils.Slot.constructor | src/unsafe_utils.rs:141-142 | an allocation starts live, holding the written value |
| UnsafeUtils.Nullable.New | src/unsafe_utils.rs:340-344 | `new(v)` (and `From<T>`, lines 430-434) holds v, so it is not null |
| UnsafeUtils.Nullable.Null | src/unsafe_utils.rs:346-350 | `null` holds nothing |
| UnsafeUtils.Nullable.FromOption | src/unsafe_utils.rs:436-442 | `From<Option<T>>` keeps the option as it is |
| UnsafeUtils.Nullable.IsNull | src/unsafe_utils.rs:363-365 | `is_null` holds iff no value is held |
| UnsafeUtils.Nullable.Replace | src/unsafe_utils.rs:367-369 | `replace(v)` holds v, whether it was null before or not |
| UnsafeUtils.Nullable.ReplaceNull | src/unsafe_utils.rs:371-373 | `replace_null` holds nothing |
| UnsafeUtils.Nullable.TakeReplace | src/unsafe_utils.rs:384-386 | `take_replace(v)` returns the previous value and holds v; on null it panics, having stored v already |
| UnsafeUtils.Nullable.TakeReplaceNull | src/unsafe_utils.rs:388-390 | `take_replace_null` returns the value and leaves null; on null it panics |
| UnsafeUtils.Nullable.Extract | src/unsafe_utils.rs:401-403 | `extract` panics iff null, with "Extracting a null value!", and otherwise returns the value held |
| UnsafeUtils.Nullable.Deref | src/unsafe_utils.rs:406-411 | `Deref` panics iff null, with the null-dereference message, and otherwise returns the value held |
| UnsafeUtils.Nullable.Display | src/unsafe_utils.rs:419-428 | `Display` prints "null" when null and the value otherwise |
| UnsafeUtils.ReplaceThenTake | src/unsafe_utils.rs:367-390 | `replace(v)` then `take_replace_null` returns v and leaves null |
| UnsafeUtils.HeapNullable.New | src/unsafe_utils.rs:139-148 | `new(v)` (and `From<T>`, lines 328-332) is a fresh live allocation holding v, freed on drop |
| UnsafeUtils.HeapNullable.Null | src/unsafe_utils.rs:150-155 | `null` is a null pointer with nothing to free |
| UnsafeUtils.HeapNullable.IsNull | src/unsafe_utils.rs:166-168 | `is_null` holds iff the pointer is null |
| UnsafeUtils.HeapNullable.Replace | src/unsafe_utils.rs:170-181 | `replace(v)` holds v: on null it makes a fresh allocation owned by the holder, otherwise it overwrites in place |
| UnsafeUtils.HeapNullable.ReplaceNull | src/unsafe_utils.rs:183-191 | `replace_null` frees a live allocation and becomes null with nothing to free; on null nothing changes |
| UnsafeUtils.HeapNullable.TakeReplace | src/unsafe_utils.rs:205-215 | `take_replace(v)` panics on null and changes nothing; otherwise it returns the old value and stores v in the same allocation |
| UnsafeUtils.HeapNullable.TakeReplaceNull | src/unsafe_utils.rs:217-230 | `take_replace_null` panics on null; otherwise it returns the value, frees the allocation and becomes null |
| UnsafeUtils.HeapNullable.Deref | src/unsafe_utils.rs:278-283 | `Deref` panics iff null, with the null-dereference message, and otherwise returns the value held |
| UnsafeUtils.HeapNullable.Eq | src/unsafe_utils.rs:312-324 | `PartialEq`: null equals only null, and two live pointers are equal iff their values are |
| UnsafeUtils.HeapNullable.Display | src/unsafe_utils.rs:301-310 | `Display` prints "null" when null and the value otherwise |
| UnsafeUtils.HeapNullable.Drop | src/unsafe_utils.rs:291-299 | `Drop` frees the allocation when the holder has one |
| UnsafeUtils.Counter.constructor | src/unsafe_utils.rs:545-546 | a fresh reference count starts at 1 |
| UnsafeUtils.UnsafeRc.New | src/unsafe_utils.rs:540-553 | `new(v)` (and `From<T>`, lines 620-624) is a fresh payload holding v, owned by the pointer, with a fresh count of 1 |
| UnsafeUtils.UnsafeRc.FromRef | src/unsafe_utils.rs:555-566 | `from_ref` points at a value it does not own, with a fresh count of 1 |
| UnsafeUtils.UnsafeRc.Share | src/unsafe_utils.rs:573-577 | the handle `clone` builds shares the payload, the ownership flag and the count |
| UnsafeUtils.UnsafeRc.Clone | src/unsafe_utils.rs:569-580 | `clone` gives a fresh handle to the same payload and count, and the count goes up by one |
| UnsafeUtils.UnsafeRc.Drop | src/unsafe_utils.rs:582-596 | `Drop` at count 1 frees the count, and the payload only if the pointer owns it; above 1 it decrements the count and frees nothing |
| UnsafeUtils.UnsafeRc.Deref | src/unsafe_utils.rs:598-604 | `deref` returns the payload; its `expect("Dereferencing a nulled UnsafeRc!")` never fires, because no constructor stores a null pointer |
| UnsafeUtils.UnsafeRc.Eq | src/unsafe_utils.rs:612-616 | `eq` compares the payloads, not the pointers |
| UnsafeUtils.RcDerefEq | src/unsafe_utils.rs:540-616 | a handle from `new(x)` dereferences to x; two separate allocations are equal iff their values are, and a clone equals its original |
| UnsafeUtils.CloneThenDrop | src/unsafe_utils.rs:569-596 | after `new`, `clone` and a drop of the clone, the first handle is valid with count 1 and its payload is alive and unchanged |
| StaticVector.StaticVec.Zeroed | src/static_vec.rs:13-21 | the buffer `new(len)` builds once allocation succeeds has `len` slots, each holding the all-zero value |
| StaticVector.NewStaticVec | src/static_vec.rs:13-21 | `new(len)` panics with "Length of {len} not valid!" exactly when `Layout::array` overflows `isize::MAX`, with "Failed to allocate memory for StaticVec!" when the allocation fails, and otherwise returns a fresh zero-filled vector of `len` slots |
| StaticVector.LayoutFitsBytes | src/static_vec.rs:15 | the `Layout::array` size check holds exactly when `len` elements, rounded up to the alignment, take at most `isize::MAX` bytes |
| StaticVector.LayoutExamples | src/static_vec.rs:15 | 2^60 - 1 eight-byte elements fit and 2^60 do not; any number of zero-sized elements fits |
| StaticVector.MulMono | src/static_vec.rs:15 | a larger element count takes at least as many bytes |
| StaticVector.StaticVec.FromVec | src/static_vec.rs:109-128 | `From<Vec<T>>` and `FromIterator` keep the vector's length and element order |
| StaticVector.StaticVec.Contents | src/static_vec.rs:152-159 | `Deref` gives a slice of length `len` whose elements are the slots, in order |
| StaticVector.StaticVec.IsEmpty | src/static_vec.rs:35-37 | `is_empty` holds iff the length is 0, that is, iff the slice is empty |
| StaticVector.StaticVec.Get | src/static_vec.rs:39-45 | `get(i)` is None iff i >= len, and otherwise slot i |
| StaticVector.StaticVec.Index | src/static_vec.rs:169-178 | `Index` panics iff i >= len, with the message naming the index and the length; otherwise it agrees with `get` |
| StaticVector.StaticVec.Set | src/static_vec.rs:55-62 | `set` panics iff i >= len and then writes nothing; otherwise only slot i changes |
| StaticVector.StaticVec.IndexSet | src/static_vec.rs:180-187 | `vec[i] = v` panics iff i >= len, with the `Index` message; otherwise only slot i changes |
| StaticVector.StaticVec.GetMutUpdate | src/static_vec.rs:47-53 | `get_mut(i)` finds a slot iff i < len; an update through it changes slot i only |
| StaticVector.FromSlice | src/static_vec.rs:130-150 | `From<&[T]>` gives a fresh vector equal to the slice |
| StaticVector.Iter.constructor | src/static_vec.rs:64-69 | `iter` starts at index 0 |
| StaticVector.Iter.Next | src/static_vec.rs:208-216 | `next` returns `get` of the current index and always advances |
| StaticVector.CollectIter | src/static_vec.rs:208-216 | collecting `iter` until the first None gives the elements in order |
| StaticVector.IterMut.constructor | src/static_vec.rs:71-76 | `iter_mut` starts at index 0 |
| StaticVector.IterMut.Next | src/static_vec.rs:223-234 | `next` hands out slot `index` and advances while index < len; past the end it returns None without moving |
| StaticVector.UpdateAll | src/static_vec.rs:223-234 | updating every slot through `iter_mut` applies the function to each element exactly once |
| StaticVector.IntoIter.constructor | src/static_vec.rs:79-89 | `into_iter` starts at index 0 |
| StaticVector.IntoIter.Next | src/static_vec.rs:241-256 | `next` moves out slot `index` and advances until the index equals the length, then returns None without moving |
| StaticVector.CollectIntoIter | src/static_vec.rs:241-256 | collecting `into_iter` gives the elements in order |
| Hashers.AsU64 | src/hashers.rs:64 | `x as u64` keeps a non-negative value and adds 2^64 to a negative one |
| Hashers.AsU64Injective | src/hashers.rs:63-65 | two distinct `i64` values never finish with the same `u64` |
| Hashers.I32SignExtends | src/hashers.rs:90-92 | an `i32` cast to `u64` is sign-extended: a negative value gets all upper 32 bits set, a non-negative one gets them clear, and the low 32 bits are kept |
| Hashers.U64IdentityHasher.Default | src/hashers.rs:3-6 | `Default` holds 0 |
| Hashers.U64IdentityHasher.Finish | src/hashers.rs:9-11 | `finish` reports the stored value |
| Hashers.U64IdentityHasher.WriteU64 | src/hashers.rs:17-19 | `write_u64(i)` stores i, so `finish` then returns i |
| Hashers.U64IdentityHasher.Write | src/hashers.rs:13-15 | `write` of raw bytes always panics as unreachable |
| Hashers.U64IdentityHasher.BuildHasher | src/hashers.rs:22-28 | `build_hasher` gives a fresh hasher that finishes with 0, whatever the receiver holds |
| Hashers.U32IdentityHasher.Default | src/hashers.rs:30-33 | `Default` holds 0 |
| Hashers.U32IdentityHasher.Finish | src/hashers.rs:36-38 | `finish` is the stored `u32` zero-extended, so it is below 2^32 |
| Hashers.U32IdentityHasher.WriteU32 | src/hashers.rs:44-46 | `write_u32(i)` stores i, so `finish` then returns i |
| Hashers.U32IdentityHasher.Write | src/hashers.rs:40-42 | `write` of raw bytes always panics as unreachable |
| Hashers.U32IdentityHasher.BuildHasher | src/hashers.rs:49-55 | `build_hasher` gives a fresh hasher that finishes with 0 |
| Hashers.I64IdentityHasher.Default | src/hashers.rs:57-60 | `Default` holds 0 |
| Hashers.I64IdentityHasher.Finish | src/hashers.rs:63-65 | `finish` is the stored `i64` reinterpreted: it is congruent to the value modulo 2^64 |
| Hashers.I64IdentityHasher.WriteI64 | src/hashers.rs:71-73 | `write_i64(i)` stores i, so `finish` then returns `i as u64` |
| Hashers.I64IdentityHasher.Write | src/hashers.rs:67-69 | `write` of raw bytes always panics as unreachable |
| Hashers.I64IdentityHasher.BuildHasher | src/hashers.rs:76-82 | `build_hasher` gives a fresh hasher that finishes with 0 |
| Hashers.I32IdentityHasher.Default | src/hashers.rs:84-87 | `Default` holds 0 |
| Hashers.I32IdentityHasher.Finish | src/hashers.rs:90-92 | `finish` is the stored `i32` sign-extended: it is congruent to the value modulo 2^64 |
| Hashers.I32IdentityHasher.WriteI32 | src/hashers.rs:98-100 | `write_i32(i)` stores i, so `finish` then returns `i as u64` |
| Hashers.I32IdentityHasher.Write | src/hashers.rs:94-96 | `write` of raw bytes always panics as unreachable |
| Hashers.I32IdentityHasher.BuildHasher | src/hashers.rs:103-109 | `build_hasher` gives a fresh hasher that finishes with 0 |
| Hashers.LastWriteWins | src/hashers.rs:17-19 | after two `write_u64` calls, `finish` reports the later value |
| OrDefaults.OrDefault.New | src/ordefault.rs:10-15 | `new(t, def)` holds t with fallback def, and `get` reads t |
| OrDefaults.OrDefault.Uninit | src/ordefault.rs:17-22 | `uninit(def)` holds no value, and `get` reads def |
| OrDefaults.OrDefault.NewDefault | src/ordefault.rs:43-48 | `new_default(t)` holds t with `T::default()` as fallback |
| OrDefaults.OrDefault.UninitDefault | src/ordefault.rs:50-55 | `uninit_default` holds no value, with `T::default()` as fallback, and `get` reads the default |
| OrDefaults.OrDefault.Default | src/ordefault.rs:72-79 | `Default` holds `T::default()` both as value and as fallback |
| OrDefaults.OrDefault.Get | src/ordefault.rs:28-30 | `get` (and `Deref`) reads the value when present and the fallback otherwise |
| OrDefaults.OrDefault.Take | src/ordefault.rs:24-26 | `take` returns what `get` reads: the inner value if present, else the fallback |
| OrDefaults.OrDefault.Set | src/ordefault.rs:37-39 | after `set(t)`, `get` reads t and the fallback is unchanged |
| OrDefaults.OrDefault.GetMutUpdate | src/ordefault.rs:32-35 | a write through `get_mut` (and `DerefMut`) updates the value when present and otherwise the fallback, so `get` then reads the updated value |
| OrDefaults.OrDefault.Display | src/ordefault.rs:81-85 | `Display` formats what `get` reads |
| Remakes.Remake.New | src/remake.rs:8-12 | `new(x)` (and `From<T>`, lines 31-37) holds x, so `get` returns it |
| Remakes.Remake.Get | src/remake.rs:14-16 | `get` (and `Deref`) returns the item; it would panic only if the item were missing |
| Remakes.Remake.Take | src/remake.rs:22-24 | `take` returns what `get` returns |
| Remakes.Remake.Replace | src/remake.rs:26-28 | `replace(f)` stores f of the old item, so the item stays present; a panicking f leaves the item None, since it was taken first; with no item it panics and leaves None |
| Remakes.Remake.GetMutUpdate | src/remake.rs:18-20 | a write through `get_mut` (and `DerefMut`) updates the item in place and keeps it present |
| Remakes.ReplaceThenGet | src/remake.rs:8-28 | after `new(x)`, `replace(f)` and a `get_mut` update by g, `get` returns g(f(x)) when f returns; a panicking f aborts with its own message |
| Remakes.ReplacePanicLosesItem | src/remake.rs:26-28 | a caught panic of `replace`'s closure leaves the holder without its item, so a later `get` panics with "Remake item should never be None" |

## Left out

- Token parsing (`syn`, `quote`): the macros' input is the parsed shape, and their output is the syntax tree of module `Generated` rather than a token stream. Generic parameters and `where` clauses are carried through verbatim by the source and are not modelled.
- The codecs of primitive types, strings, `Vec`/`Option`, time values and the varint: their source is not part of this model. They are the abstract functions of `Generated.Env`; the integer layouts of `Save` and the byte counts the tests assert are the only concrete ones.
- The tuple-struct generator of `Proc/src/savable2.rs:133-201`: it emits a `load` method for the `Savable2` trait, which declares `load_into` (`src/save2.rs:6`), so the code it emits does not compile.
- Floating-point values: `push_f32`, `push_f64`, `pop_f32` and `pop_f64` carry a float as its IEEE-754 bit pattern, and the float it stands for is not modelled.
- `src/bytebuffer.rs` and `src/buffer.rs`: thin wrappers over the external `bytebuffer` crate, whose source is not part of this model. The buffer is modelled directly, with the endianness as a parameter.
- `Printer::flush` (`src/print.rs:189-192`): it writes to standard output.
- `Debug` impls (`src/version.rs:144-154`, `src/static_vec.rs:189-193`, and others): output formatting only.
- `Hash` for `Version` (`src/version.rs:171-177`): it feeds the fields to an external hasher.
- The `Version` getters, `new` and the `set_*` setters (`src/version.rs:17-24, 94-124`): `Version` is a value, so these are field reads and record updates.
- `StaticVec::len`, `as_ptr`, `as_mut_ptr` and `Drop` (`src/static_vec.rs:31-33, 195-201`): the length is a field, raw pointers have no logical content, and freeing is not modelled.
- `HeapNullable::extract` (`src/unsafe_utils.rs:244-248`): it reads through the pointer without a null check, which is undefined behaviour on a null holder.
- The `zeroed` variants in `src/unsafe_utils.rs` and `StaticVec::new`'s zero fill: an all-zero bit pattern has no generic meaning, so the zero value is a parameter.
- `UnsafeRef`, `UnsafeArc`, `DangerousCell`, the raw casts, `as_static` and the `leak*` functions of `src/unsafe_utils.rs`: they are pointer reinterpretation and atomic counting.
- `src/once.rs`, `src/state.rs`, `src/thread.rs` and `TaskParallelizer/src/lib.rs`: thread-safe initialisation and sharing, built on atomics, locks and threads.
- `src/clock.rs`, `src/logger.rs` and `Time` in `src/utils.rs`: wall-clock reads, sleeping and dates.
- `src/screen.rs`, `XTraFMath`, `XTraMath::square` and the float `IncDec` impls in `src/utils.rs`: floating-point arithmetic.
- The `try_catch`, `ret_err`, `init_arr` and `deref` macros of `src/utils.rs`: control-flow sugar with no state of its own.
- `src/cinit.rs` and `AsCStr` in `src/utils.rs`: C entry points, `argv` pointers and `CString`.
- `src/arguments.rs`, `src/args.rs`, `src/group_step_by.rs` and `src/xml/mod.rs`: the first is not declared in `src/lib.rs` and does not compile; the second is empty; the third does not compile; the fourth has accessors only.
- `src/savable_arc.rs` and `src/id.rs`: id lookup in a global mutable registry.
- ProcMacro.ToLower: maps ASCII letters only. `str::to_lowercase` (`Proc/src/lib.rs:84`) maps every Unicode letter and can change the length, so for non-ASCII variant names `TryFromStringParses` and `VariantArmsAccept` describe ASCII case folding.
- ProcMacro.ToUpper: maps ASCII letters only. `str::to_uppercase` (`Proc/src/lib.rs:88`) can also lengthen a string ("ß" becomes "SS"), which is not modelled.
- StaticVector.FromSlice: builds the vector with `StaticVec.Zeroed`, so it assumes the allocation of `new(len)` succeeds. `StaticVector.NewStaticVec` models the two panics, and the allocator's answer is its parameter.
- The behaviour of `alloc_zeroed` on a zero-sized layout (`new(0)` or a zero-sized `T`) is not modelled; `NewStaticVec` takes the allocator's answer as a parameter. A 64-bit target is assumed for `isize::MAX`.
- The UTF-8 handling of `string8_load`: its code is not modelled, so `LibTests.String8Read` returns the bytes without checking them.
- Savable2.NamedLoadIntoPartial: a field's `self.x.load_into(loader)?` is modelled by the blanket impl of `src/save2.rs:14-18`, which loads the whole field and then assigns it. A field type that is not `Savable + Default` may instead carry a derived `Savable2` impl, whose `load_into` updates the field in place and, when it fails midway, leaves it partly overwritten; such nested in-place loads are not modelled, so for them "the rest keep their old ones" does not cover field k.
- Savable2.FailingStep: the same restriction; for a field with a derived `Savable2` impl, a failing step may already have changed that field.
- Generated.LoadIntoOf: the same restriction; `LoadIntoField` runs the field's `Savable` load and assigns the result, and a nested derived `load_into` is not modelled.
- Aliasing of the byte buffer between a saver and a loader: each generated `save` and `load` runs on a byte sequence it is given, and the buffer class is modelled separately.

## Findings

| source | as written | input that shows it | evidently intended | confidence | as-written member | corrected member |
|---|---|---|---|---|---|---|
| Proc/src/savable.rs:69-72 | the struct literal of a named struct's `load` is `Self { #( saved ),*, #( unsaved ),* }`, which always emits the comma after the saved names | `struct S { #[unsaved] x: u32 }` expands to `Self { , x }`, which does not compile | emit the comma only after a saved name, as the enum generator of `Proc/src/savable2.rs:361-370` does | high; not executed | Savable.NamedAsWrittenNoSavedField | Savable.NamedNoSavedField |
| Proc/src/savable.rs:247-250 | the load arm of a struct variant is `Name::V { #( saved ),*, #( unsaved ),* }` with the same unconditional comma | `enum E { V { #[unsaved] x: u32 } }` expands to `E::V { , x }`, which does not compile | emit the comma only after a saved name, as `Proc/src/savable2.rs:361-370` does | high; not executed | Savable.EnumeratorAsWrittenNoSavedField | Savable.EnumeratorRoundTrip |
| Proc/src/savable2.rs:93 | the default step of an unsaved field is `*self.#name = <#ty as Default>::default();`, which dereferences the field itself | `struct S { a: u32, #[unsaved] b: u32 }`: `*self.b` on a `u32` is rejected by rustc, so `named` emits no compiling impl for any struct with an unsaved field | assign the field, `self.#name = <#ty as Default>::default();` | high; not executed | Savable2.NamedAsWrittenUnsavedField | Savable2.NamedLoadIntoRoundTrip |
| src/lib.rs:188-192 | `#[derive(Savable)]` sends the tuple struct `ShortString` to `unnamed` (`Proc/src/lib.rs:29`), which does not read `#[custom]`, so its field is written through `String`'s own impl | `test_short_string` saves "Hello" and asserts 6 bytes (`src/lib.rs:221`); the derived impl writes the 9 bytes of a 4-byte length prefix and the string | tuple fields go through their `#[custom]` functions, as the enum generator's tuple variants do | medium (`String`'s own impl is not modelled); not executed | LibDerives.DeriveShortString | LibDerives.ShortStringCustom |
