/** The hand-written codec and the tests of the library crate (src/lib.rs): `hello` writes an
    `i32` three times and `world` reads three back and returns one that at least two agree on,
    so a value survives the corruption of one copy; the tests pin the byte counts of a
    one-byte-prefixed string, of a fixed-size array and of a little-endian `u16`. */
module LibTests {
  import opened Wrappers
  import opened Bytes
  import opened Save

  const AllCorrupted := "Error loading i32: all values corrupted!"

  // ---------------------------------------------------------------------------------------
  // hello / world

  /** The bytes `hello` writes for v: its four-byte encoding, three times. */
  function HelloBytes(v: int, e: Endian): (r: seq<byte>)
  {
    WriteInt(v, 4, e) + WriteInt(v, 4, e) + WriteInt(v, 4, e)
  }

  /** `hello`: three `push_i32(*val)`. */
  method Hello(saver: ByteBuffer, val: i32)
    requires saver.Valid()
    modifies saver
    ensures saver.Valid() && saver.data == old(saver.data) + HelloBytes(val, saver.endian)
    ensures saver.rpos == old(saver.rpos) && saver.endian == old(saver.endian)
  {
    saver.PushI32(val);
    saver.PushI32(val);
    saver.PushI32(val);
  }

  /** The vote of `world`: a value two of the three copies agree on, else the error. */
  function Agree(a: int, b: int, c: int): (r: Result<int, string>)
    ensures r.Err? <==> a != b && b != c && a != c
    ensures r.Err? ==> r.error == AllCorrupted
    ensures forall x :: (a == x && b == x) || (b == x && c == x) || (a == x && c == x) ==> r == Ok(x)
  {
    if a == b then Ok(a)
    else if b == c then Ok(b)
    else if a == c then Ok(c)
    else Err(AllCorrupted)
  }

  /** `i32::load`: four bytes, or the error `missing` with nothing consumed (the message of
      the `i32` impl is not part of this model). */
  function LoadI32(s: seq<byte>, e: Endian, missing: string): (r: Loaded<int>)
    ensures r.result.Ok? <==> 4 <= |s|
    ensures r.result.Ok? ==> -0x8000_0000 <= r.result.value < 0x8000_0000 && WriteInt(r.result.value, 4, e) + r.rest == s
    ensures r.result.Err? ==> r == Loaded(Err(missing), s)
  {
    match ReadInt(s, 4, e)
    case None => Loaded(Err(missing), s)
    case Some(p) => Loaded(Ok(p.value), p.rest)
  }

  /** What `world` returns and where it leaves the loader: the first failing read's error,
      or the vote of the three values read. */
  function WorldOf(s: seq<byte>, e: Endian, missing: string): Loaded<int>
  {
    var a := LoadI32(s, e, missing);
    if a.result.Err? then a
    else
      var b := LoadI32(a.rest, e, missing);
      if b.result.Err? then b
      else
        var c := LoadI32(b.rest, e, missing);
        if c.result.Err? then c
        else Loaded(Agree(a.result.value, b.result.value, c.result.value), c.rest)
  }

  method PopI32Loaded(loader: ByteBuffer, missing: string) returns (r: Result<int, string>)
    requires loader.Valid()
    modifies loader
    ensures loader.Valid() && loader.data == old(loader.data) && loader.endian == old(loader.endian)
    ensures r == LoadI32(old(loader.Remaining()), loader.endian, missing).result
    ensures loader.Remaining() == LoadI32(old(loader.Remaining()), loader.endian, missing).rest
  {
    var o := loader.PopI32();
    r := match o case Some(v) => Ok(v) case None => Err(missing);
  }

  /** `world`: three `i32::load(loader)?`, then the vote. */
  method World(loader: ByteBuffer, missing: string) returns (r: Result<int, string>)
    requires loader.Valid()
    modifies loader
    ensures loader.Valid() && loader.data == old(loader.data) && loader.endian == old(loader.endian)
    ensures r == WorldOf(old(loader.Remaining()), loader.endian, missing).result
    ensures loader.Remaining() == WorldOf(old(loader.Remaining()), loader.endian, missing).rest
  {
    var a := PopI32Loaded(loader, missing);
    if a.Err? { return a; }
    var b := PopI32Loaded(loader, missing);
    if b.Err? { return b; }
    var c := PopI32Loaded(loader, missing);
    if c.Err? { return c; }
    r := Agree(a.value, b.value, c.value);
  }

  /** Reading three copies written one after another, possibly different. */
  lemma WorldOfCopies(a: i32, b: i32, c: i32, e: Endian, missing: string, rest: seq<byte>)
    ensures WorldOf(WriteInt(a, 4, e) + WriteInt(b, 4, e) + WriteInt(c, 4, e) + rest, e, missing) == Loaded(Agree(a, b, c), rest)
  {
    var wa, wb, wc := WriteInt(a, 4, e), WriteInt(b, 4, e), WriteInt(c, 4, e);
    assert wa + wb + wc + rest == wa + (wb + (wc + rest));
    LoadI32Written(a, e, missing, wb + (wc + rest));
    LoadI32Written(b, e, missing, wc + rest);
    LoadI32Written(c, e, missing, rest);
  }

  /** `i32::load` reads back what `i32::save` wrote and leaves what followed. */
  lemma LoadI32Written(x: i32, e: Endian, missing: string, rest: seq<byte>)
    ensures LoadI32(WriteInt(x, 4, e) + rest, e, missing) == Loaded(Ok(x), rest)
  {
    ReadWriteInt(x, 4, e, rest);
  }

  /** `world` after `hello` gives the value back and consumes exactly the twelve bytes. */
  lemma WorldAfterHello(v: i32, e: Endian, missing: string, rest: seq<byte>)
    ensures |HelloBytes(v, e)| == 12
    ensures WorldOf(HelloBytes(v, e) + rest, e, missing) == Loaded(Ok(v), rest)
  {
    WorldOfCopies(v, v, v, e, missing, rest);
  }

  /** Any one of the three copies may be overwritten by another value: `world` still returns v. */
  lemma WorldToleratesOneCorruption(v: i32, w: i32, k: nat, e: Endian, missing: string, rest: seq<byte>)
    requires k < 3
    ensures var a, b, c := if k == 0 then w else v, if k == 1 then w else v, if k == 2 then w else v;
      WorldOf(WriteInt(a, 4, e) + WriteInt(b, 4, e) + WriteInt(c, 4, e) + rest, e, missing) == Loaded(Ok(v), rest)
  {
    var a, b, c := if k == 0 then w else v, if k == 1 then w else v, if k == 2 then w else v;
    WorldOfCopies(a, b, c, e, missing, rest);
  }

  /** `world` fails on three complete copies exactly when all three differ. */
  lemma WorldFailsOnlyIfAllDiffer(a: i32, b: i32, c: i32, e: Endian, missing: string, rest: seq<byte>)
    ensures WorldOf(WriteInt(a, 4, e) + WriteInt(b, 4, e) + WriteInt(c, 4, e) + rest, e, missing).result.Err? <==> a != b && b != c && a != c
  {
    WorldOfCopies(a, b, c, e, missing, rest);
  }

  /** `hello` into a fresh buffer, then `world` from it: `Ok(v)` and nothing left over. */
  method HelloThenWorld(v: i32, e: Endian, missing: string) returns (r: Result<int, string>, left: nat)
    ensures r == Ok(v) && left == 0
  {
    var buf := new ByteBuffer.New(e);
    Hello(buf, v);
    assert buf.Remaining() == HelloBytes(v, e) + [];
    WorldAfterHello(v, e, missing, []);
    r := World(buf, missing);
    left := |buf.Remaining()|;
  }

  // ---------------------------------------------------------------------------------------
  // string8, the one-byte-prefixed string of `test_short_string`

  /** The number of bytes `string8_save` keeps: at most 255. */
  function String8Len(n: nat): (k: nat)
    ensures k <= n && k < 256
    ensures n < 256 ==> k == n
  {
    if n < 256 then n else 255
  }

  /** The length byte of a string8. */
  function LenByte(k: nat): (b: byte)
    requires k < 256
    ensures b as nat == k
  {
    k
  }

  /** `string8_save`: the kept length as one byte, then that many bytes of the string. */
  function String8Bytes(s: seq<byte>): (r: seq<byte>)
    ensures |r| == 1 + String8Len(|s|)
    ensures r[0] as nat == String8Len(|s|) && r[1..] == s[..String8Len(|s|)]
  {
    [LenByte(String8Len(|s|))] + s[..String8Len(|s|)]
  }

  /** `string8_load`: a length byte, then that many bytes; `None` when the loader runs out. */
  function String8Read(s: seq<byte>): (r: Option<Popped<seq<byte>>>)
    ensures r.Some? <==> 1 <= |s| && s[0] as nat <= |s| - 1
  {
    if |s| < 1 || s[0] as nat > |s| - 1 then None
    else Some(Popped(s[1..1 + s[0] as nat], s[1 + s[0] as nat..]))
  }

  /** Reading back a saved string8 gives the string cut to its first 255 bytes. */
  lemma String8RoundTrip(s: seq<byte>, rest: seq<byte>)
    ensures String8Read(String8Bytes(s) + rest) == Some(Popped(s[..String8Len(|s|)], rest))
  {
    var k := String8Len(|s|);
    var t := String8Bytes(s) + rest;
    assert t[0] as nat == k;
    assert t[1..1 + k] == s[..k];
    assert t[1 + k..] == rest;
  }

  method String8Save(saver: ByteBuffer, s: seq<byte>)
    requires saver.Valid()
    modifies saver
    ensures saver.Valid() && saver.data == old(saver.data) + String8Bytes(s)
    ensures saver.rpos == old(saver.rpos) && saver.endian == old(saver.endian)
  {
    var n := String8Len(|s|);
    saver.PushBytes([LenByte(n)]);
    saver.PushBytes(s[..n]);
    assert old(saver.data) + [LenByte(n)] + s[..n] == old(saver.data) + String8Bytes(s);
  }

  method String8Load(loader: ByteBuffer) returns (r: Option<seq<byte>>)
    requires loader.Valid()
    modifies loader
    ensures loader.Valid() && loader.data == old(loader.data) && loader.endian == old(loader.endian)
    ensures r == ValueOf(String8Read(old(loader.Remaining())))
    ensures r.Some? ==> loader.Remaining() == String8Read(old(loader.Remaining())).value.rest
  {
    var s := loader.Remaining();
    var len := loader.PopBytes(1);
    if len.None? {
      return None;
    }
    var b := len.value;
    assert b + loader.Remaining() == s && |b| == 1;
    assert b[0] == s[0] && loader.Remaining() == s[1..];
    var k := b[0] as nat;
    var t := loader.Remaining();
    r := loader.PopBytes(k);
    if r.Some? {
      assert r.value + loader.Remaining() == t && |r.value| == k;
      assert r.value == s[1..1 + k];
    }
  }

  /** `test_short_string`: "Hello" saves to 6 bytes and loads back equal; 260 'c's save to
      256 bytes and load back as 255 'c's. */
  method TestShortString() returns (len1: nat, back1: Option<seq<byte>>, len2: nat, back2: Option<seq<byte>>)
    ensures len1 == 6 && back1 == Some([0x48, 0x65, 0x6C, 0x6C, 0x6F])
    ensures len2 == 256 && back2 == Some(seq(255, _ => 0x63))
  {
    var hello: seq<byte> := [0x48, 0x65, 0x6C, 0x6C, 0x6F];
    var buffer := new ByteBuffer.New(BigEndian);
    String8Save(buffer, hello);
    len1 := buffer.Len();
    String8RoundTrip(hello, []);
    assert buffer.Remaining() == String8Bytes(hello) + [];
    back1 := String8Load(buffer);
    assert hello[..5] == hello;

    var long: seq<byte> := seq(260, _ => 0x63);
    var buffer2 := new ByteBuffer.New(BigEndian);
    String8Save(buffer2, long);
    len2 := buffer2.Len();
    String8RoundTrip(long, []);
    assert buffer2.Remaining() == String8Bytes(long) + [];
    back2 := String8Load(buffer2);
    assert long[..255] == seq(255, _ => 0x63);
  }

  // ---------------------------------------------------------------------------------------
  // Fixed-size arrays and the little-endian buffer

  /** A fixed-size array of `i32`: its elements one after another, with no length prefix. */
  function I32ArrayBytes(xs: seq<int>, e: Endian): (r: seq<byte>)
    ensures |r| == 4 * |xs|
  {
    if xs == [] then [] else WriteInt(xs[0], 4, e) + I32ArrayBytes(xs[1..], e)
  }

  /** Reading n `i32`s one after another. */
  function I32ArrayRead(s: seq<byte>, n: nat, e: Endian): (r: Option<Popped<seq<int>>>)
    ensures r.Some? ==> |r.value.value| == n
  {
    if n == 0 then Some(Popped([], s))
    else
      match ReadInt(s, 4, e)
      case None => None
      case Some(p) =>
        match I32ArrayRead(p.rest, n - 1, e)
        case None => None
        case Some(q) => Some(Popped([p.value] + q.value, q.rest))
  }

  lemma I32ArrayReadStep(s: seq<byte>, n: nat, e: Endian, x: int, t: seq<byte>, xs: seq<int>, rest: seq<byte>)
    requires n > 0 && ReadInt(s, 4, e) == Some(Popped(x, t)) && I32ArrayRead(t, n - 1, e) == Some(Popped(xs, rest))
    ensures I32ArrayRead(s, n, e) == Some(Popped([x] + xs, rest))
  {
  }

  /** The first element of an encoded array reads back, leaving the encoding of the others. */
  lemma I32ArrayHead(xs: seq<int>, e: Endian, rest: seq<byte>)
    requires xs != [] && -0x8000_0000 <= xs[0] < 0x8000_0000
    ensures ReadInt(I32ArrayBytes(xs, e) + rest, 4, e) == Some(Popped(xs[0], I32ArrayBytes(xs[1..], e) + rest))
  {
    var t := I32ArrayBytes(xs[1..], e) + rest;
    ReadWriteInt(xs[0], 4, e, t);
    assert I32ArrayBytes(xs, e) + rest == WriteInt(xs[0], 4, e) + t;
  }

  /** If the array without its first element reads back, so does the whole array. */
  lemma I32ArrayRoundTripStep(xs: seq<int>, e: Endian, rest: seq<byte>)
    requires xs != [] && -0x8000_0000 <= xs[0] < 0x8000_0000
    requires I32ArrayRead(I32ArrayBytes(xs[1..], e) + rest, |xs[1..]|, e) == Some(Popped(xs[1..], rest))
    ensures I32ArrayRead(I32ArrayBytes(xs, e) + rest, |xs|, e) == Some(Popped(xs, rest))
  {
    var tail := xs[1..];
    I32ArrayHead(xs, e, rest);
    I32ArrayReadStep(I32ArrayBytes(xs, e) + rest, |xs|, e, xs[0], I32ArrayBytes(tail, e) + rest, tail, rest);
    assert [xs[0]] + tail == xs;
  }

  /** An array of `i32`s reads back from its bytes. */
  lemma {:induction false} I32ArrayRoundTrip(xs: seq<int>, e: Endian, rest: seq<byte>)
    requires forall i :: 0 <= i < |xs| ==> -0x8000_0000 <= xs[i] < 0x8000_0000
    ensures I32ArrayRead(I32ArrayBytes(xs, e) + rest, |xs|, e) == Some(Popped(xs, rest))
  {
    if xs != [] {
      var tail := xs[1..];
      assert forall i :: 0 <= i < |tail| ==> tail[i] == xs[i + 1];
      I32ArrayRoundTrip(tail, e, rest);
      I32ArrayRoundTripStep(xs, e, rest);
    } else {
      assert I32ArrayBytes(xs, e) + rest == rest;
    }
  }

  /** Appending an element appends its encoding. */
  lemma {:induction false} I32ArrayBytesAppend(xs: seq<int>, x: int, e: Endian)
    ensures I32ArrayBytes(xs + [x], e) == I32ArrayBytes(xs, e) + WriteInt(x, 4, e)
  {
    if xs != [] {
      assert (xs + [x])[1..] == xs[1..] + [x];
      I32ArrayBytesAppend(xs[1..], x, e);
    } else {
      assert [x][1..] == [];
    }
  }

  /** Saving an `[i32; N]`: each element in order. */
  method SaveI32Array(saver: ByteBuffer, a: array<int>)
    requires saver.Valid() && forall i :: 0 <= i < a.Length ==> -0x8000_0000 <= a[i] < 0x8000_0000
    modifies saver
    ensures saver.Valid() && saver.data == old(saver.data) + I32ArrayBytes(a[..], saver.endian)
    ensures saver.rpos == old(saver.rpos) && saver.endian == old(saver.endian)
  {
    ghost var d0, e := saver.data, saver.endian;
    var i := 0;
    while i < a.Length
      invariant 0 <= i <= a.Length && saver.Valid()
      invariant saver.rpos == old(saver.rpos) && saver.endian == e
      invariant saver.data == d0 + I32ArrayBytes(a[..i], e)
    {
      I32ArrayBytesStep(d0, a[..], i, e);
      saver.PushI32(a[i]);
      i := i + 1;
    }
    assert a[..i] == a[..];
  }

  /** One more element written after the bytes of the first i. */
  lemma I32ArrayBytesStep(d0: seq<byte>, xs: seq<int>, i: nat, e: Endian)
    requires i < |xs|
    ensures d0 + I32ArrayBytes(xs[..i], e) + WriteInt(xs[i], 4, e) == d0 + I32ArrayBytes(xs[..i + 1], e)
  {
    assert xs[..i + 1] == xs[..i] + [xs[i]];
    I32ArrayBytesAppend(xs[..i], xs[i], e);
  }

  /** The array of `test_array`: fifteen zeros, then `test[i] = i + 1` for each i in turn. */
  method CountingArray() returns (test: array<int>)
    ensures fresh(test) && test.Length == 15
    ensures forall j :: 0 <= j < 15 ==> test[j] == j + 1
  {
    test := new int[15](_ => 0);
    for i := 0 to 15
      invariant forall j :: 0 <= j < i ==> test[j] == j + 1
    {
      test[i] := i + 1;
    }
  }

  /** `test_array`: `[1, 2, .., 15]` as `[i32; 15]` saves to 60 bytes and loads back equal. */
  method TestArray() returns (len: nat, saved: seq<int>, back: Option<seq<int>>)
    ensures |saved| == 15 && forall j :: 0 <= j < 15 ==> saved[j] == j + 1
    ensures len == 60 && back == Some(saved)
  {
    var test := CountingArray();
    saved := test[..];
    var buffer := new ByteBuffer.New(BigEndian);
    SaveI32Array(buffer, test);
    len := buffer.Len();
    ghost var bytes := I32ArrayBytes(saved, BigEndian);
    assert buffer.data == [] + bytes == bytes;
    assert buffer.Remaining() == bytes + [];
    I32ArrayRoundTrip(saved, BigEndian, []);
    back := ValueOf(I32ArrayRead(buffer.Remaining(), |saved|, BigEndian));
  }

  /** `test_bytebuffer_features`: on a little-endian buffer `push_u16(0x1000)` writes
      `[0x00, 0x10]`, and a little-endian buffer over those bytes pops `0x1000`. */
  method TestByteBufferFeatures() returns (bytes: seq<byte>, popped: Option<u16>)
    ensures bytes == [0x00, 0x10] && popped == Some(0x1000)
  {
    var buffer := new ByteBuffer.New(LittleEndian);
    buffer.PushU16(0x1000);
    bytes := buffer.data;
    assert LeDigits(0x1000, 2) == [0x00, 0x10] by {
      assert LeDigits(0x10, 1) == [0x10] + LeDigits(0, 0);
    }
    var buffer2 := new ByteBuffer.FromBytes(bytes, LittleEndian);
    popped := buffer2.PopU16();
    ReadWriteUInt(0x1000, 2, LittleEndian, []);
    assert bytes == WriteUInt(0x1000, 2, LittleEndian) + [];
  }
}
