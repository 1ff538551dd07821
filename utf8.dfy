/** UTF-8, the invariant of Rust's `String` and `str`: a byte string is one exactly when it is a
    sequence of the well-formed byte sequences of section 3.9 of the Unicode Standard (Table 3-7,
    the same set as section 4 of RFC 3629). Overlong forms, surrogates and code points above
    U+10FFFF are refused. */
module Utf8 {
  import opened Bytes

  /** A continuation byte, 10xxxxxx. */
  predicate Cont(b: byte)
  {
    0x80 <= b <= 0xBF
  }

  /** The length of the well-formed sequence at the front of s, or 0 when s does not start
      with one. */
  function FirstCharLen(s: seq<byte>): (n: nat)
    ensures n <= 4 && n <= |s|
    ensures s != [] && s[0] < 0x80 ==> n == 1
    ensures n > 0 ==> s[0] < 0x80 || 0xC2 <= s[0] <= 0xF4
    ensures forall i :: 0 < i < n ==> Cont(s[i])
  {
    if s == [] then 0
    else if s[0] < 0x80 then 1
    else if 0xC2 <= s[0] <= 0xDF then
      (if |s| >= 2 && Cont(s[1]) then 2 else 0)
    else if 0xE0 <= s[0] <= 0xEF then
      (if |s| >= 3 && Cont(s[2]) &&
          (if s[0] == 0xE0 then 0xA0 <= s[1] <= 0xBF
           else if s[0] == 0xED then 0x80 <= s[1] <= 0x9F
           else Cont(s[1]))
       then 3 else 0)
    else if 0xF0 <= s[0] <= 0xF4 then
      (if |s| >= 4 && Cont(s[2]) && Cont(s[3]) &&
          (if s[0] == 0xF0 then 0x90 <= s[1] <= 0xBF
           else if s[0] == 0xF4 then 0x80 <= s[1] <= 0x8F
           else Cont(s[1]))
       then 4 else 0)
    else 0
  }

  /** `std::str::from_utf8(s).is_ok()`. */
  predicate ValidUtf8(s: seq<byte>)
    decreases |s|
  {
    s == [] || (var n := FirstCharLen(s); n > 0 && ValidUtf8(s[n..]))
  }

  /** ASCII text is valid UTF-8. */
  lemma {:induction false} AsciiValid(s: seq<byte>)
    requires forall i :: 0 <= i < |s| ==> s[i] < 0x80
    ensures ValidUtf8(s)
    decreases |s|
  {
    if s != [] {
      assert forall i :: 0 <= i < |s[1..]| ==> s[1..][i] == s[i + 1];
      AsciiValid(s[1..]);
    }
  }

  /** What follows a well-formed first sequence does not change its length. */
  lemma FirstCharLenPrefix(a: seq<byte>, b: seq<byte>)
    requires FirstCharLen(a) > 0
    ensures FirstCharLen(a + b) == FirstCharLen(a)
  {
    var n := FirstCharLen(a);
    assert forall i :: 0 <= i < n ==> (a + b)[i] == a[i];
  }

  /** Joining two valid strings gives a valid string. */
  lemma {:induction false} ValidConcat(a: seq<byte>, b: seq<byte>)
    requires ValidUtf8(a) && ValidUtf8(b)
    ensures ValidUtf8(a + b)
    decreases |a|
  {
    if a == [] {
      assert a + b == b;
    } else {
      var n := FirstCharLen(a);
      var ab := a + b;
      FirstCharLenPrefix(a, b);
      ValidConcat(a[n..], b);
      assert ab[n..] == a[n..] + b;
      assert FirstCharLen(ab) == n && ValidUtf8(ab[n..]);
    }
  }

  /** A byte that can never appear in UTF-8 (0xC0, 0xC1, 0xF5 .. 0xFF) makes a string invalid
      wherever it stands. */
  lemma {:induction false} InvalidByte(s: seq<byte>, i: nat)
    requires i < |s| && (s[i] == 0xC0 || s[i] == 0xC1 || s[i] >= 0xF5)
    ensures !ValidUtf8(s)
    decreases |s|
  {
    if ValidUtf8(s) {
      var n := FirstCharLen(s);
      if i >= n {
        assert s[n..][i - n] == s[i];
        InvalidByte(s[n..], i - n);
      }
    }
  }

  /** The UTF-8 encoding of one Unicode scalar value, as `char::encode_utf8` writes it. */
  function EncodeChar(c: char): (r: seq<byte>)
    ensures 1 <= |r| <= 4 && FirstCharLen(r) == |r|
  {
    var cp := c as int;
    if cp < 0x80 then [cp]
    else if cp < 0x800 then
      [0xC0 + cp / 64, 0x80 + cp % 64]
    else if cp < 0x1_0000 then
      assert cp < 0xD800 || 0xE000 <= cp;
      var r := [0xE0 + cp / 4096, 0x80 + (cp / 64) % 64, 0x80 + cp % 64];
      Encode3(cp);
      r
    else
      var r := [0xF0 + cp / 262144, 0x80 + (cp / 4096) % 64, 0x80 + (cp / 64) % 64, 0x80 + cp % 64];
      Encode4(cp);
      r
  }

  /** The lead byte and the first continuation byte of a three-byte sequence. */
  lemma Encode3(cp: int)
    requires 0x800 <= cp < 0x1_0000 && (cp < 0xD800 || 0xE000 <= cp)
    ensures 0xE0 <= 0xE0 + cp / 4096 <= 0xEF
    ensures cp / 4096 == 0 ==> 0x20 <= (cp / 64) % 64
    ensures cp / 4096 == 0xD ==> (cp / 64) % 64 < 0x20
  {
    var h := cp / 4096;
    var m := (cp / 64) % 64;
    assert cp / 64 == 64 * h + m;
  }

  /** The lead byte and the first continuation byte of a four-byte sequence. */
  lemma Encode4(cp: int)
    requires 0x1_0000 <= cp <= 0x10_FFFF
    ensures 0xF0 <= 0xF0 + cp / 262144 <= 0xF4
    ensures cp / 262144 == 0 ==> 0x10 <= (cp / 4096) % 64
    ensures cp / 262144 == 4 ==> (cp / 4096) % 64 < 0x10
  {
    var h := cp / 262144;
    var m := (cp / 4096) % 64;
    assert cp / 4096 == 64 * h + m;
  }

  /** `s.as_bytes()` for a `str` made of the characters s. */
  function Encode(s: string): seq<byte>
  {
    if s == [] then [] else EncodeChar(s[0]) + Encode(s[1..])
  }

  /** Every Rust string is valid UTF-8: the bytes of any sequence of characters are. */
  lemma {:induction false} EncodeValid(s: string)
    ensures ValidUtf8(Encode(s))
  {
    if s != [] {
      var e := EncodeChar(s[0]);
      EncodeValid(s[1..]);
      assert e[|e|..] == [];
      assert ValidUtf8(e);
      ValidConcat(e, Encode(s[1..]));
    }
  }
}
