/** The identity hashers of src/hashers.rs: each remembers the last integer written to it and
    finishes with that integer as a `u64`. Writing raw bytes is unreachable and panics; the
    `Hasher` trait routes every other integer width through that byte write. */
module Hashers {
  import opened Wrappers
  import opened Bytes

  const Unreachable := "internal error: entered unreachable code"

  /** `x as u64` for an integer of at most 64 bits: two's-complement reinterpretation, which
      sign-extends a negative value. */
  function AsU64(x: int): (r: u64)
    requires -0x8000_0000_0000_0000 <= x < 0x1_0000_0000_0000_0000
    ensures x >= 0 ==> r == x
    ensures x < 0 ==> r == x + 0x1_0000_0000_0000_0000
  {
    if x >= 0 then x else x + 0x1_0000_0000_0000_0000
  }

  /** Distinct inputs of one signed or unsigned 64-bit type never collide. */
  lemma AsU64Injective(x: int, y: int)
    requires -0x8000_0000_0000_0000 <= x < 0x8000_0000_0000_0000 && -0x8000_0000_0000_0000 <= y < 0x8000_0000_0000_0000
    requires AsU64(x) == AsU64(y)
    ensures x == y
  {
  }

  /** An `i32` cast to `u64` is sign-extended: a negative value has its upper 32 bits all set and
      keeps its low 32 bits, a non-negative one keeps its upper bits clear. */
  lemma I32SignExtends(x: i32)
    ensures x < 0 ==> AsU64(x) / 0x1_0000_0000 == 0xFFFF_FFFF
    ensures x >= 0 ==> AsU64(x) / 0x1_0000_0000 == 0
    ensures AsU64(x) % 0x1_0000_0000 == x % 0x1_0000_0000
  {
  }

  class U64IdentityHasher {
    var value: u64

    /** `Default`: nothing written yet, so 0. */
    constructor Default()
      ensures value == 0
    {
      value := 0;
    }

    /** `finish`: the last `u64` written. */
    function Finish(): (r: u64)
      reads this
      ensures r == value
    {
      value
    }

    /** `write_u64`: replaces the stored value. */
    method WriteU64(i: u64)
      modifies this
      ensures value == i && Finish() == i
    {
      value := i;
    }

    /** `write`: unreachable. */
    method Write(bytes: seq<byte>) returns (r: Fallible<Unit>)
      ensures r == Panics(Unreachable)
    {
      return Panics(Unreachable);
    }

    /** `build_hasher`: a fresh default hasher, whatever this one holds. */
    method BuildHasher() returns (h: U64IdentityHasher)
      ensures fresh(h) && h.Finish() == 0
    {
      h := new U64IdentityHasher.Default();
    }
  }

  class U32IdentityHasher {
    var value: u32

    constructor Default()
      ensures value == 0
    {
      value := 0;
    }

    /** `finish`: the stored `u32`, zero-extended. */
    function Finish(): (r: u64)
      reads this
      ensures r == value && r < 0x1_0000_0000
    {
      AsU64(value)
    }

    method WriteU32(i: u32)
      modifies this
      ensures value == i && Finish() == i
    {
      value := i;
    }

    method Write(bytes: seq<byte>) returns (r: Fallible<Unit>)
      ensures r == Panics(Unreachable)
    {
      return Panics(Unreachable);
    }

    method BuildHasher() returns (h: U32IdentityHasher)
      ensures fresh(h) && h.Finish() == 0
    {
      h := new U32IdentityHasher.Default();
    }
  }

  class I64IdentityHasher {
    var value: i64

    constructor Default()
      ensures value == 0
    {
      value := 0;
    }

    /** `finish`: the stored `i64` reinterpreted as `u64`. */
    function Finish(): (r: u64)
      reads this
      ensures (r - value) % 0x1_0000_0000_0000_0000 == 0
    {
      AsU64(value)
    }

    method WriteI64(i: i64)
      modifies this
      ensures value == i && Finish() == AsU64(i)
    {
      value := i;
    }

    method Write(bytes: seq<byte>) returns (r: Fallible<Unit>)
      ensures r == Panics(Unreachable)
    {
      return Panics(Unreachable);
    }

    method BuildHasher() returns (h: I64IdentityHasher)
      ensures fresh(h) && h.Finish() == 0
    {
      h := new I64IdentityHasher.Default();
    }
  }

  class I32IdentityHasher {
    var value: i32

    constructor Default()
      ensures value == 0
    {
      value := 0;
    }

    /** `finish`: the stored `i32` sign-extended to `u64`. */
    function Finish(): (r: u64)
      reads this
      ensures (r - value) % 0x1_0000_0000_0000_0000 == 0
    {
      AsU64(value)
    }

    method WriteI32(i: i32)
      modifies this
      ensures value == i && Finish() == AsU64(i)
    {
      value := i;
    }

    method Write(bytes: seq<byte>) returns (r: Fallible<Unit>)
      ensures r == Panics(Unreachable)
    {
      return Panics(Unreachable);
    }

    method BuildHasher() returns (h: I32IdentityHasher)
      ensures fresh(h) && h.Finish() == 0
    {
      h := new I32IdentityHasher.Default();
    }
  }

  /** Two writes: the later one is what `finish` reports. */
  method LastWriteWins(a: u64, b: u64) returns (r: u64)
    ensures r == b
  {
    var h := new U64IdentityHasher.Default();
    h.WriteU64(a);
    h.WriteU64(b);
    r := h.Finish();
  }
}
