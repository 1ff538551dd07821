/** The byte buffer behind the `Saver` and `Loader` traits (src/save.rs).

    The buffer is a growing byte string with a read cursor. Every `push_*` appends
    the value's encoding at the end; every `pop_*` reads at the cursor and moves the
    cursor past what it read, or returns `None` and leaves the cursor where it was
    when too few bytes remain. `pop_*_unchecked` is `pop_*().unwrap()`.

    The functions below are the byte layout; the class methods are specified by them. */
module Save {
  import opened Wrappers
  import opened Bytes
  import opened Utf8

  /** A value read from the front of a byte string, and what follows it. */
  datatype Popped<T> = Popped(value: T, rest: seq<byte>)

  /** What a `Savable::load` call leaves behind: `Ok(value)` or `Err(message)`, and the bytes
      the loader still holds afterwards (on an error, wherever the failing read left the cursor). */
  datatype Loaded<T> = Loaded(result: Result<T, string>, rest: seq<byte>)

  function Pow2To32(): nat { 0x1_0000_0000 }

  /** The byte widths used by the buffer, as numbers of distinct values. */
  lemma Pow256Widths()
    ensures Pow256(1) == 0x100 && Pow256(2) == 0x1_0000
    ensures Pow256(4) == Pow2To32() && Pow256(8) == 0x1_0000_0000_0000_0000
  {
    assert Pow256(1) == 256 * Pow256(0);
    assert Pow256(2) == 256 * Pow256(1);
    assert Pow256(3) == 256 * Pow256(2);
    assert Pow256(4) == 256 * Pow256(3);
    assert Pow256(5) == 256 * Pow256(4);
    assert Pow256(6) == 256 * Pow256(5);
    assert Pow256(7) == 256 * Pow256(6);
    assert Pow256(8) == 256 * Pow256(7);
  }

  /** `write_uN`: the n-byte encoding of v. */
  function WriteUInt(v: nat, n: nat, e: Endian): (r: seq<byte>)
    requires v < Pow256(n)
    ensures |r| == n
    ensures DecodeUInt(r, e) == v
  {
    DecodeEncode(v, n, e);
    EncodeUInt(v, n, e)
  }

  /** `write_iN`: the n-byte two's-complement encoding of x. */
  function WriteInt(x: int, n: nat, e: Endian): (r: seq<byte>)
    requires n >= 1
    ensures |r| == n
    ensures ToSigned(DecodeUInt(r, e), n) == ToSigned(ToUnsigned(x, n), n)
  {
    WriteUInt(ToUnsigned(x, n), n, e)
  }

  /** `read_bytes(n)`: the first n bytes, or nothing when fewer remain. */
  function ReadBytes(s: seq<byte>, n: nat): (r: Option<Popped<seq<byte>>>)
    ensures r.Some? <==> n <= |s|
    ensures r.Some? ==> r.value.value + r.value.rest == s && |r.value.value| == n
  {
    if n <= |s| then Some(Popped(s[..n], s[n..])) else None
  }

  /** `read_uN`: the n-byte unsigned integer at the front of s. */
  function ReadUInt(s: seq<byte>, n: nat, e: Endian): (r: Option<Popped<nat>>)
    ensures r.Some? <==> n <= |s|
    ensures r.Some? ==> r.value.value < Pow256(n)
    ensures r.Some? ==> WriteUInt(r.value.value, n, e) + r.value.rest == s
  {
    if n <= |s| then
      EncodeDecode(s[..n], e);
      assert s[..n] + s[n..] == s;
      Some(Popped(DecodeUInt(s[..n], e), s[n..]))
    else None
  }

  /** `read_iN`: the n-byte two's-complement integer at the front of s. */
  function ReadInt(s: seq<byte>, n: nat, e: Endian): (r: Option<Popped<int>>)
    requires n >= 1
    ensures r.Some? <==> n <= |s|
    ensures r.Some? ==> -(HalfPow256(n) as int) <= r.value.value < HalfPow256(n)
    ensures r.Some? ==> WriteInt(r.value.value, n, e) + r.value.rest == s
  {
    match ReadUInt(s, n, e)
    case None => None
    case Some(p) =>
      SignedRoundTrip(0, p.value, n);
      SignedRoundTrip(0, p.value % Pow256(n), n);
      Some(Popped(ToSigned(p.value, n), p.rest))
  }

  /** `write_string`: a 4-byte length prefix (the length truncated to 32 bits, as `len() as u32`)
      followed by the string's bytes. */
  function WriteString(b: seq<byte>, e: Endian): (r: seq<byte>)
    ensures |r| == 4 + |b|
    ensures r[4..] == b
  {
    Pow256Widths();
    WriteUInt(|b| % Pow2To32(), 4, e) + b
  }

  /** `read_string`: a 4-byte length followed by that many bytes, which must be UTF-8, since the
      result is a `String`. */
  function ReadString(s: seq<byte>, e: Endian): (r: Option<Popped<seq<byte>>>)
    ensures r.Some? <==> 4 <= |s| && DecodeUInt(s[..4], e) <= |s| - 4 && ValidUtf8(s[4..4 + DecodeUInt(s[..4], e)])
    ensures r.Some? ==> |r.value.value| < Pow256(4) && ValidUtf8(r.value.value)
    ensures r.Some? ==> WriteUInt(|r.value.value|, 4, e) + r.value.value + r.value.rest == s
  {
    match ReadUInt(s, 4, e)
    case None => None
    case Some(len) =>
      assert len.value == DecodeUInt(s[..4], e) && len.rest == s[4..];
      match ReadBytes(len.rest, len.value)
      case None => None
      case Some(b) =>
        assert b.value == s[4..4 + len.value];
        if ValidUtf8(b.value) then Some(b) else None
  }

  /** Reading back what was written recovers the value and leaves what followed. */
  lemma ReadWriteUInt(v: nat, n: nat, e: Endian, rest: seq<byte>)
    requires v < Pow256(n)
    ensures ReadUInt(WriteUInt(v, n, e) + rest, n, e) == Some(Popped(v, rest))
  {
    var s := WriteUInt(v, n, e) + rest;
    assert s[..n] == WriteUInt(v, n, e);
    assert s[n..] == rest;
  }

  lemma ReadWriteInt(x: int, n: nat, e: Endian, rest: seq<byte>)
    requires n >= 1
    requires -(HalfPow256(n) as int) <= x < HalfPow256(n)
    ensures ReadInt(WriteInt(x, n, e) + rest, n, e) == Some(Popped(x, rest))
  {
    ReadWriteUInt(ToUnsigned(x, n), n, e, rest);
    SignedRoundTrip(x, 0, n);
  }

  /** A `&str` (valid UTF-8, shorter than 2^32 bytes) written by `write_string` reads back. */
  lemma ReadWriteString(b: seq<byte>, e: Endian, rest: seq<byte>)
    requires |b| < Pow2To32() && ValidUtf8(b)
    ensures ReadString(WriteString(b, e) + rest, e) == Some(Popped(b, rest))
  {
    StringPrefix(b, e, rest);
    ReadStringGivenPrefix(WriteString(b, e) + rest, e, b, rest);
  }

  lemma StringPrefix(b: seq<byte>, e: Endian, rest: seq<byte>)
    requires |b| < Pow2To32()
    ensures ReadUInt(WriteString(b, e) + rest, 4, e) == Some(Popped(|b|, b + rest))
  {
    Pow256Widths();
    assert |b| % Pow2To32() == |b|;
    assert WriteString(b, e) + rest == WriteUInt(|b|, 4, e) + (b + rest);
    ReadWriteUInt(|b|, 4, e, b + rest);
  }

  /** A length prefix followed by that many bytes reads as those bytes exactly when they are
      UTF-8. */
  lemma ReadStringGivenPrefix(s: seq<byte>, e: Endian, b: seq<byte>, rest: seq<byte>)
    requires ReadUInt(s, 4, e) == Some(Popped(|b|, b + rest))
    ensures ValidUtf8(b) ==> ReadString(s, e) == Some(Popped(b, rest))
    ensures !ValidUtf8(b) ==> ReadString(s, e) == None
  {
    assert (b + rest)[..|b|] == b;
    assert (b + rest)[|b|..] == rest;
  }

  /** The text of any Rust string written by `write_string` reads back as that text. */
  lemma ReadWriteText(t: string, e: Endian, rest: seq<byte>)
    requires |Encode(t)| < Pow2To32()
    ensures ReadString(WriteString(Encode(t), e) + rest, e) == Some(Popped(Encode(t), rest))
  {
    EncodeValid(t);
    ReadWriteString(Encode(t), e, rest);
  }

  /** The length-correct bytes of a string that is not UTF-8 do not read as a `String`: a
      prefix of 1 and the byte 0xFF, with nothing after it, give `None`. */
  lemma ReadStringRejects(e: Endian)
    ensures ReadString(WriteUInt(1, 4, e) + [0xFF], e) == None
  {
    Pow256Widths();
    InvalidByte([0xFF], 0);
    ReadWriteUInt(1, 4, e, [0xFF]);
    assert |[0xFF]| == 1 && [0xFF] + [] == [0xFF];
    ReadStringGivenPrefix(WriteUInt(1, 4, e) + [0xFF], e, [0xFF], []);
  }

  /** A string whose length does not fit in 32 bits is written with a wrong length prefix,
      which cannot describe the bytes that follow. */
  lemma WriteStringLongPrefix(b: seq<byte>, e: Endian)
    requires |b| >= Pow2To32()
    ensures DecodeUInt(WriteString(b, e)[..4], e) < |b|
  {
    Pow256Widths();
    assert WriteString(b, e)[..4] == WriteUInt(|b| % Pow2To32(), 4, e);
  }

  function ValueOf<T>(o: Option<Popped<T>>): Option<T>
  {
    match o
    case Some(p) => Some(p.value)
    case None => None
  }

  function RestOr<T>(o: Option<Popped<T>>, s: seq<byte>): seq<byte>
  {
    match o
    case Some(p) => p.rest
    case None => s
  }

  /** `bytebuffer::ByteBuffer` as used through `Saver` and `Loader`: the written bytes,
      the read cursor and the endianness. */
  class ByteBuffer {
    var data: seq<byte>
    var rpos: nat
    var endian: Endian

    ghost predicate Valid()
      reads this
    {
      rpos <= |data|
    }

    /** The bytes not yet read. */
    function Remaining(): seq<byte>
      reads this
      requires Valid()
    {
      data[rpos..]
    }

    /** `ByteBuffer::new()` (big endian) and `new_le()`/`new_be()`. */
    constructor New(e: Endian)
      ensures Valid() && data == [] && rpos == 0 && endian == e
    {
      data := [];
      rpos := 0;
      endian := e;
    }

    /** `ByteBuffer::from_bytes` / `from_vec_le` / `from_vec_be`: reading starts at the front. */
    constructor FromBytes(bytes: seq<byte>, e: Endian)
      ensures Valid() && data == bytes && rpos == 0 && endian == e
      ensures Remaining() == bytes
    {
      data := bytes;
      rpos := 0;
      endian := e;
    }

    /** `buffer.len()`. */
    function Len(): nat
      reads this
    {
      |data|
    }

    method PushBytes(bytes: seq<byte>)
      requires Valid()
      modifies this
      ensures Valid() && data == old(data) + bytes && rpos == old(rpos) && endian == old(endian)
      ensures Remaining() == old(Remaining()) + bytes
    {
      data := data + bytes;
    }

    method PushUInt(v: nat, n: nat)
      requires Valid() && v < Pow256(n)
      modifies this
      ensures Valid() && data == old(data) + WriteUInt(v, n, endian) && rpos == old(rpos) && endian == old(endian)
      ensures Remaining() == old(Remaining()) + WriteUInt(v, n, endian)
    {
      PushBytes(WriteUInt(v, n, endian));
    }

    method PushInt(x: int, n: nat)
      requires Valid() && n >= 1
      modifies this
      ensures Valid() && data == old(data) + WriteInt(x, n, endian) && rpos == old(rpos) && endian == old(endian)
      ensures Remaining() == old(Remaining()) + WriteInt(x, n, endian)
    {
      PushBytes(WriteInt(x, n, endian));
    }

    method PushU8(v: u8)
      requires Valid()
      modifies this
      ensures Valid() && data == old(data) + WriteUInt(v, 1, endian) && rpos == old(rpos) && endian == old(endian)
    {
      PushUInt(v, 1);
    }

    method PushU16(v: u16)
      requires Valid()
      modifies this
      ensures Valid() && data == old(data) + WriteUInt(v, 2, endian) && rpos == old(rpos) && endian == old(endian)
    {
      PushUInt(v, 2);
    }

    method PushU32(v: u32)
      requires Valid()
      modifies this
      ensures Valid() && data == old(data) + WriteUInt(v, 4, endian) && rpos == old(rpos) && endian == old(endian)
    {
      PushUInt(v, 4);
    }

    method PushU64(v: u64)
      requires Valid()
      modifies this
      ensures Valid() && data == old(data) + WriteUInt(v, 8, endian) && rpos == old(rpos) && endian == old(endian)
    {
      PushUInt(v, 8);
    }

    method PushI8(x: i8)
      requires Valid()
      modifies this
      ensures Valid() && data == old(data) + WriteInt(x, 1, endian) && rpos == old(rpos) && endian == old(endian)
    {
      PushInt(x, 1);
    }

    method PushI16(x: i16)
      requires Valid()
      modifies this
      ensures Valid() && data == old(data) + WriteInt(x, 2, endian) && rpos == old(rpos) && endian == old(endian)
    {
      PushInt(x, 2);
    }

    method PushI32(x: i32)
      requires Valid()
      modifies this
      ensures Valid() && data == old(data) + WriteInt(x, 4, endian) && rpos == old(rpos) && endian == old(endian)
    {
      PushInt(x, 4);
    }

    method PushI64(x: i64)
      requires Valid()
      modifies this
      ensures Valid() && data == old(data) + WriteInt(x, 8, endian) && rpos == old(rpos) && endian == old(endian)
    {
      PushInt(x, 8);
    }

    /** `push_f32`: a float is written as its IEEE-754 bit pattern, given here as `bits`. */
    method PushF32(bits: u32)
      requires Valid()
      modifies this
      ensures Valid() && data == old(data) + WriteUInt(bits, 4, endian) && rpos == old(rpos) && endian == old(endian)
    {
      PushUInt(bits, 4);
    }

    method PushF64(bits: u64)
      requires Valid()
      modifies this
      ensures Valid() && data == old(data) + WriteUInt(bits, 8, endian) && rpos == old(rpos) && endian == old(endian)
    {
      PushUInt(bits, 8);
    }

    /** `push_string`: the string is given by its UTF-8 bytes. */
    method PushString(s: seq<byte>)
      requires Valid()
      modifies this
      ensures Valid() && data == old(data) + WriteString(s, endian) && rpos == old(rpos) && endian == old(endian)
    {
      PushBytes(WriteString(s, endian));
    }

    method PopBytes(n: nat) returns (r: Option<seq<byte>>)
      requires Valid()
      modifies this
      ensures Valid() && data == old(data) && endian == old(endian)
      ensures r == ValueOf(ReadBytes(old(Remaining()), n))
      ensures Remaining() == RestOr(ReadBytes(old(Remaining()), n), old(Remaining()))
    {
      if rpos + n <= |data| {
        assert data[rpos..][..n] == data[rpos..rpos + n];
        assert data[rpos..][n..] == data[rpos + n..];
        r := Some(data[rpos..rpos + n]);
        rpos := rpos + n;
      } else {
        r := None;
      }
    }

    method PopUInt(n: nat) returns (r: Option<nat>)
      requires Valid()
      modifies this
      ensures Valid() && data == old(data) && endian == old(endian)
      ensures r == ValueOf(ReadUInt(old(Remaining()), n, endian))
      ensures Remaining() == RestOr(ReadUInt(old(Remaining()), n, endian), old(Remaining()))
      ensures r.Some? ==> r.value < Pow256(n)
    {
      var b := PopBytes(n);
      match b
      case None => r := None;
      case Some(bytes) => r := Some(DecodeUInt(bytes, endian));
    }

    method PopInt(n: nat) returns (r: Option<int>)
      requires Valid() && n >= 1
      modifies this
      ensures Valid() && data == old(data) && endian == old(endian)
      ensures r == ValueOf(ReadInt(old(Remaining()), n, endian))
      ensures Remaining() == RestOr(ReadInt(old(Remaining()), n, endian), old(Remaining()))
      ensures r.Some? ==> -(HalfPow256(n) as int) <= r.value < HalfPow256(n)
    {
      var u := PopUInt(n);
      match u
      case None => r := None;
      case Some(v) => r := Some(ToSigned(v, n));
    }

    method PopU8() returns (r: Option<u8>)
      requires Valid()
      modifies this
      ensures Valid() && data == old(data) && endian == old(endian)
      ensures r == ValueOf(ReadUInt(old(Remaining()), 1, endian))
      ensures Remaining() == RestOr(ReadUInt(old(Remaining()), 1, endian), old(Remaining()))
    {
      var u := PopUInt(1);
      r := match u case Some(v) => Some(v as u8) case None => None;
    }

    method PopU16() returns (r: Option<u16>)
      requires Valid()
      modifies this
      ensures Valid() && data == old(data) && endian == old(endian)
      ensures r == ValueOf(ReadUInt(old(Remaining()), 2, endian))
      ensures Remaining() == RestOr(ReadUInt(old(Remaining()), 2, endian), old(Remaining()))
    {
      var u := PopUInt(2);
      r := match u case Some(v) => Some(v as u16) case None => None;
    }

    method PopU32() returns (r: Option<u32>)
      requires Valid()
      modifies this
      ensures Valid() && data == old(data) && endian == old(endian)
      ensures r == ValueOf(ReadUInt(old(Remaining()), 4, endian))
      ensures Remaining() == RestOr(ReadUInt(old(Remaining()), 4, endian), old(Remaining()))
    {
      var u := PopUInt(4);
      r := match u case Some(v) => Some(v as u32) case None => None;
    }

    method PopU64() returns (r: Option<u64>)
      requires Valid()
      modifies this
      ensures Valid() && data == old(data) && endian == old(endian)
      ensures r == ValueOf(ReadUInt(old(Remaining()), 8, endian))
      ensures Remaining() == RestOr(ReadUInt(old(Remaining()), 8, endian), old(Remaining()))
    {
      var u := PopUInt(8);
      r := match u case Some(v) => Some(v as u64) case None => None;
    }

    method PopI8() returns (r: Option<i8>)
      requires Valid()
      modifies this
      ensures Valid() && data == old(data) && endian == old(endian)
      ensures r == ValueOf(ReadInt(old(Remaining()), 1, endian))
      ensures Remaining() == RestOr(ReadInt(old(Remaining()), 1, endian), old(Remaining()))
    {
      var x := PopInt(1);
      r := match x case Some(v) => Some(v as i8) case None => None;
    }

    method PopI16() returns (r: Option<i16>)
      requires Valid()
      modifies this
      ensures Valid() && data == old(data) && endian == old(endian)
      ensures r == ValueOf(ReadInt(old(Remaining()), 2, endian))
      ensures Remaining() == RestOr(ReadInt(old(Remaining()), 2, endian), old(Remaining()))
    {
      var x := PopInt(2);
      r := match x case Some(v) => Some(v as i16) case None => None;
    }

    method PopI32() returns (r: Option<i32>)
      requires Valid()
      modifies this
      ensures Valid() && data == old(data) && endian == old(endian)
      ensures r == ValueOf(ReadInt(old(Remaining()), 4, endian))
      ensures Remaining() == RestOr(ReadInt(old(Remaining()), 4, endian), old(Remaining()))
    {
      var x := PopInt(4);
      r := match x case Some(v) => Some(v as i32) case None => None;
    }

    method PopI64() returns (r: Option<i64>)
      requires Valid()
      modifies this
      ensures Valid() && data == old(data) && endian == old(endian)
      ensures r == ValueOf(ReadInt(old(Remaining()), 8, endian))
      ensures Remaining() == RestOr(ReadInt(old(Remaining()), 8, endian), old(Remaining()))
    {
      var x := PopInt(8);
      r := match x case Some(v) => Some(v as i64) case None => None;
    }

    /** `pop_f32`: the IEEE-754 bit pattern of the float read. */
    method PopF32() returns (r: Option<u32>)
      requires Valid()
      modifies this
      ensures Valid() && data == old(data) && endian == old(endian)
      ensures r == ValueOf(ReadUInt(old(Remaining()), 4, endian))
      ensures Remaining() == RestOr(ReadUInt(old(Remaining()), 4, endian), old(Remaining()))
    {
      r := PopU32();
    }

    method PopF64() returns (r: Option<u64>)
      requires Valid()
      modifies this
      ensures Valid() && data == old(data) && endian == old(endian)
      ensures r == ValueOf(ReadUInt(old(Remaining()), 8, endian))
      ensures Remaining() == RestOr(ReadUInt(old(Remaining()), 8, endian), old(Remaining()))
    {
      r := PopU64();
    }

    /** `pop_string`: on success the cursor moves past the prefix and the bytes. When the
        prefix is read but the bytes are missing, the prefix stays consumed; when the bytes are
        read but are not UTF-8, they stay consumed too. */
    method PopString() returns (r: Option<seq<byte>>)
      requires Valid()
      modifies this
      ensures Valid() && data == old(data) && endian == old(endian)
      ensures r == ValueOf(ReadString(old(Remaining()), endian))
      ensures r.Some? ==> Remaining() == ReadString(old(Remaining()), endian).value.rest
      ensures ReadUInt(old(Remaining()), 4, endian).None? ==> Remaining() == old(Remaining())
      ensures var p := ReadUInt(old(Remaining()), 4, endian);
        p.Some? && ReadBytes(p.value.rest, p.value.value).None? ==> Remaining() == p.value.rest
      ensures var p := ReadUInt(old(Remaining()), 4, endian);
        p.Some? && ReadBytes(p.value.rest, p.value.value).Some? ==> Remaining() == ReadBytes(p.value.rest, p.value.value).value.rest
    {
      var len := PopUInt(4);
      match len
      case None => r := None;
      case Some(n) =>
        var b := PopBytes(n);
        if b.Some? && !ValidUtf8(b.value) {
          r := None;
        } else {
          r := b;
        }
    }

    method PopBytesUnchecked(n: nat) returns (r: Fallible<seq<byte>>)
      requires Valid()
      modifies this
      ensures Valid() && data == old(data) && endian == old(endian)
      ensures r == Unwrap(ValueOf(ReadBytes(old(Remaining()), n)))
      ensures Remaining() == RestOr(ReadBytes(old(Remaining()), n), old(Remaining()))
    {
      var o := PopBytes(n);
      r := Unwrap(o);
    }

    method PopU8Unchecked() returns (r: Fallible<u8>)
      requires Valid()
      modifies this
      ensures Valid() && data == old(data) && endian == old(endian)
      ensures r.Returns? <==> 1 <= |old(Remaining())|
      ensures r.Returns? ==> ValueOf(ReadUInt(old(Remaining()), 1, endian)) == Some(r.value as nat)
      ensures Remaining() == RestOr(ReadUInt(old(Remaining()), 1, endian), old(Remaining()))
    {
      var o := PopU8();
      r := Unwrap(o);
    }

    method PopU16Unchecked() returns (r: Fallible<u16>)
      requires Valid()
      modifies this
      ensures Valid() && data == old(data) && endian == old(endian)
      ensures r.Returns? <==> 2 <= |old(Remaining())|
      ensures r.Returns? ==> ValueOf(ReadUInt(old(Remaining()), 2, endian)) == Some(r.value as nat)
      ensures Remaining() == RestOr(ReadUInt(old(Remaining()), 2, endian), old(Remaining()))
    {
      var o := PopU16();
      r := Unwrap(o);
    }

    method PopU32Unchecked() returns (r: Fallible<u32>)
      requires Valid()
      modifies this
      ensures Valid() && data == old(data) && endian == old(endian)
      ensures r.Returns? <==> 4 <= |old(Remaining())|
      ensures r.Returns? ==> ValueOf(ReadUInt(old(Remaining()), 4, endian)) == Some(r.value as nat)
      ensures Remaining() == RestOr(ReadUInt(old(Remaining()), 4, endian), old(Remaining()))
    {
      var o := PopU32();
      r := Unwrap(o);
    }

    method PopU64Unchecked() returns (r: Fallible<u64>)
      requires Valid()
      modifies this
      ensures Valid() && data == old(data) && endian == old(endian)
      ensures r.Returns? <==> 8 <= |old(Remaining())|
      ensures r.Returns? ==> ValueOf(ReadUInt(old(Remaining()), 8, endian)) == Some(r.value as nat)
      ensures Remaining() == RestOr(ReadUInt(old(Remaining()), 8, endian), old(Remaining()))
    {
      var o := PopU64();
      r := Unwrap(o);
    }

    method PopI8Unchecked() returns (r: Fallible<i8>)
      requires Valid()
      modifies this
      ensures Valid() && data == old(data) && endian == old(endian)
      ensures r.Returns? <==> 1 <= |old(Remaining())|
      ensures r.Returns? ==> ValueOf(ReadInt(old(Remaining()), 1, endian)) == Some(r.value as int)
      ensures Remaining() == RestOr(ReadInt(old(Remaining()), 1, endian), old(Remaining()))
    {
      var o := PopI8();
      r := Unwrap(o);
    }

    method PopI16Unchecked() returns (r: Fallible<i16>)
      requires Valid()
      modifies this
      ensures Valid() && data == old(data) && endian == old(endian)
      ensures r.Returns? <==> 2 <= |old(Remaining())|
      ensures r.Returns? ==> ValueOf(ReadInt(old(Remaining()), 2, endian)) == Some(r.value as int)
      ensures Remaining() == RestOr(ReadInt(old(Remaining()), 2, endian), old(Remaining()))
    {
      var o := PopI16();
      r := Unwrap(o);
    }

    method PopI32Unchecked() returns (r: Fallible<i32>)
      requires Valid()
      modifies this
      ensures Valid() && data == old(data) && endian == old(endian)
      ensures r.Returns? <==> 4 <= |old(Remaining())|
      ensures r.Returns? ==> ValueOf(ReadInt(old(Remaining()), 4, endian)) == Some(r.value as int)
      ensures Remaining() == RestOr(ReadInt(old(Remaining()), 4, endian), old(Remaining()))
    {
      var o := PopI32();
      r := Unwrap(o);
    }

    method PopI64Unchecked() returns (r: Fallible<i64>)
      requires Valid()
      modifies this
      ensures Valid() && data == old(data) && endian == old(endian)
      ensures r.Returns? <==> 8 <= |old(Remaining())|
      ensures r.Returns? ==> ValueOf(ReadInt(old(Remaining()), 8, endian)) == Some(r.value as int)
      ensures Remaining() == RestOr(ReadInt(old(Remaining()), 8, endian), old(Remaining()))
    {
      var o := PopI64();
      r := Unwrap(o);
    }

    method PopF32Unchecked() returns (r: Fallible<u32>)
      requires Valid()
      modifies this
      ensures Valid() && data == old(data) && endian == old(endian)
      ensures r.Returns? <==> 4 <= |old(Remaining())|
      ensures r.Returns? ==> ValueOf(ReadUInt(old(Remaining()), 4, endian)) == Some(r.value as nat)
      ensures Remaining() == RestOr(ReadUInt(old(Remaining()), 4, endian), old(Remaining()))
    {
      var o := PopF32();
      r := Unwrap(o);
    }

    method PopF64Unchecked() returns (r: Fallible<u64>)
      requires Valid()
      modifies this
      ensures Valid() && data == old(data) && endian == old(endian)
      ensures r.Returns? <==> 8 <= |old(Remaining())|
      ensures r.Returns? ==> ValueOf(ReadUInt(old(Remaining()), 8, endian)) == Some(r.value as nat)
      ensures Remaining() == RestOr(ReadUInt(old(Remaining()), 8, endian), old(Remaining()))
    {
      var o := PopF64();
      r := Unwrap(o);
    }

    method PopStringUnchecked() returns (r: Fallible<seq<byte>>)
      requires Valid()
      modifies this
      ensures Valid() && data == old(data) && endian == old(endian)
      ensures r == Unwrap(ValueOf(ReadString(old(Remaining()), endian)))
      ensures r.Returns? ==> Remaining() == ReadString(old(Remaining()), endian).value.rest
    {
      var o := PopString();
      r := Unwrap(o);
    }
  }
}
