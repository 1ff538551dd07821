/** Bytes, fixed-width integers and their byte encodings.

    The byte buffer underneath the serialization framework writes fixed-width
    integers in the endianness the buffer is configured with; signed integers are
    written as their two's-complement bit pattern. */
module Bytes {

  type byte = x: int | 0 <= x < 0x100

  type u8 = x: int | 0 <= x < 0x100
  type u16 = x: int | 0 <= x < 0x1_0000
  type u32 = x: int | 0 <= x < 0x1_0000_0000
  type u64 = x: int | 0 <= x < 0x1_0000_0000_0000_0000
  type i8 = x: int | -0x80 <= x < 0x80
  type i16 = x: int | -0x8000 <= x < 0x8000
  type i32 = x: int | -0x8000_0000 <= x < 0x8000_0000
  type i64 = x: int | -0x8000_0000_0000_0000 <= x < 0x8000_0000_0000_0000

  datatype Endian = BigEndian | LittleEndian

  /** 256^n: the number of distinct values of an n-byte integer. */
  function Pow256(n: nat): (r: nat)
    ensures r >= 1
  {
    if n == 0 then 1 else 256 * Pow256(n - 1)
  }

  /** 2^(8n - 1): the number of non-negative values of an n-byte signed integer. */
  function HalfPow256(n: nat): (r: nat)
    requires n >= 1
    ensures 2 * r == Pow256(n)
  {
    if n == 1 then 128 else 256 * HalfPow256(n - 1)
  }

  function Reverse<T>(s: seq<T>): (r: seq<T>)
    ensures |r| == |s|
    ensures forall i :: 0 <= i < |s| ==> r[i] == s[|s| - 1 - i]
  {
    if s == [] then [] else Reverse(s[1..]) + [s[0]]
  }

  lemma {:induction false} ReverseReverse<T>(s: seq<T>)
    ensures Reverse(Reverse(s)) == s
  {
    var r := Reverse(Reverse(s));
    assert |r| == |s|;
    forall i | 0 <= i < |s| ensures r[i] == s[i] {
      assert r[i] == Reverse(s)[|s| - 1 - i];
    }
  }

  /** The n least significant base-256 digits of v, least significant first. */
  function LeDigits(v: nat, n: nat): (r: seq<byte>)
    ensures |r| == n
  {
    if n == 0 then [] else [v % 256] + LeDigits(v / 256, n - 1)
  }

  /** The value of little-endian base-256 digits. */
  function LeValue(s: seq<byte>): nat
  {
    if s == [] then 0 else s[0] as nat + 256 * LeValue(s[1..])
  }

  /** The n-byte representation of v in endianness e. */
  function EncodeUInt(v: nat, n: nat, e: Endian): (r: seq<byte>)
    ensures |r| == n
  {
    if e == LittleEndian then LeDigits(v, n) else Reverse(LeDigits(v, n))
  }

  /** The value of the bytes s read in endianness e. */
  function DecodeUInt(s: seq<byte>, e: Endian): nat
  {
    if e == LittleEndian then LeValue(s) else LeValue(Reverse(s))
  }

  lemma {:induction false} LeValueBound(s: seq<byte>)
    ensures LeValue(s) < Pow256(|s|)
  {
    if s != [] {
      LeValueBound(s[1..]);
    }
  }

  lemma {:induction false} LeValueOfDigits(v: nat, n: nat)
    requires v < Pow256(n)
    ensures LeValue(LeDigits(v, n)) == v
  {
    if n > 0 {
      var q, d := v / 256, v % 256;
      assert v == d + 256 * q;
      assert q < Pow256(n - 1);
      LeValueOfDigits(q, n - 1);
      assert LeDigits(v, n)[1..] == LeDigits(q, n - 1);
      assert LeDigits(v, n)[0] as nat == d;
    }
  }

  lemma {:induction false} DigitsOfLeValue(s: seq<byte>)
    ensures LeDigits(LeValue(s), |s|) == s
  {
    if s != [] {
      DigitsOfLeValue(s[1..]);
      DivModDigit(s[0] as nat, LeValue(s[1..]));
      assert LeDigits(LeValue(s), |s|) == [s[0]] + s[1..];
    }
  }

  lemma DivModDigit(d: nat, w: nat)
    requires d < 256
    ensures (d + 256 * w) % 256 == d
    ensures (d + 256 * w) / 256 == w
  {
  }

  /** Decoding an n-byte encoding gives the value back, for every value that fits. */
  lemma DecodeEncode(v: nat, n: nat, e: Endian)
    requires v < Pow256(n)
    ensures DecodeUInt(EncodeUInt(v, n, e), e) == v
  {
    LeValueOfDigits(v, n);
    if e == BigEndian {
      ReverseReverse(LeDigits(v, n));
    }
  }

  /** Every byte string is the encoding of the value it decodes to. */
  lemma EncodeDecode(s: seq<byte>, e: Endian)
    ensures DecodeUInt(s, e) < Pow256(|s|)
    ensures EncodeUInt(DecodeUInt(s, e), |s|, e) == s
  {
    if e == LittleEndian {
      LeValueBound(s);
      DigitsOfLeValue(s);
    } else {
      LeValueBound(Reverse(s));
      DigitsOfLeValue(Reverse(s));
      ReverseReverse(s);
    }
  }

  /** The bit pattern of the n-byte signed integer x (`x as uN`). */
  function ToUnsigned(x: int, n: nat): (r: nat)
    requires n >= 1
    ensures r < Pow256(n)
  {
    x % Pow256(n)
  }

  /** The n-byte signed integer with bit pattern u (`u as iN`). */
  function ToSigned(u: nat, n: nat): int
    requires n >= 1
  {
    if u >= HalfPow256(n) then u - Pow256(n) else u
  }

  /** Reinterpreting a signed value as unsigned and back is the identity
      on the signed range; the reverse direction is the identity on the unsigned range. */
  lemma SignedRoundTrip(x: int, u: nat, n: nat)
    requires n >= 1
    ensures -(HalfPow256(n) as int) <= x < HalfPow256(n) ==> ToSigned(ToUnsigned(x, n), n) == x
    ensures u < Pow256(n) ==> ToUnsigned(ToSigned(u, n), n) == u
    ensures -(HalfPow256(n) as int) <= ToSigned(u % Pow256(n), n) < HalfPow256(n)
  {
    var p, h := Pow256(n), HalfPow256(n);
    assert 2 * h == p;
    if -(h as int) <= x < h {
      if x < 0 {
        ModShift(x, p);
        assert ToUnsigned(x, n) == x + p;
      } else {
        ModSmall(x, p);
        assert ToUnsigned(x, n) == x;
      }
    }
    if u < p {
      if u >= h {
        assert ToSigned(u, n) == u - p;
        ModShift(u - p, p);
      } else {
        assert ToSigned(u, n) == u;
        ModSmall(u, p);
      }
    }
    var m := u % p;
    assert 0 <= m < p;
  }

  lemma ModSmall(x: int, p: int)
    requires 0 <= x < p
    ensures x % p == x
  {
  }

  lemma ModAtMost(x: nat, p: nat)
    requires p > 0
    ensures x % p <= x
  {
    if x < p {
      ModSmall(x, p);
    }
  }

  lemma ModShift(x: int, p: int)
    requires -p <= x < 0
    ensures x % p == x + p
  {
  }
}
