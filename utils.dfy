/** The integer and collection helpers of src/utils.rs. Integer operations are generic over
    Rust's fixed-width integer types; a type is given by its range, and arithmetic that leaves
    the range panics as a debug build does. */
module Utils {
  import opened Wrappers
  import opened Bytes

  /** A fixed-width integer type: the values lo..hi. */
  datatype IntType = IntType(lo: int, hi: int)

  /** The ranges of Rust's integer types: unsigned from 0, signed symmetric around 0. */
  predicate ValidType(t: IntType)
  {
    t.lo <= 0 < t.hi
  }

  predicate InType(x: int, t: IntType)
  {
    t.lo <= x <= t.hi
  }

  const U8 := IntType(0, 0xFF)
  const I32 := IntType(-0x8000_0000, 0x7FFF_FFFF)

  // ---------------------------------------------------------------------------------------
  // Plural

  /** `plural`: the word itself for exactly one, otherwise with an appended "s". */
  function Plural(s: string, count: nat): (r: string)
    requires count < 0x1_0000_0000
    ensures r == s <==> count == 1
    ensures |r| >= |s| && r[..|s|] == s
  {
    if count == 1 then s else s + "s"
  }

  /** `plural_irregular`: the given plural form exactly when the count is not one. */
  function PluralIrregular(s: string, plural: string, count: nat): (r: string)
    requires count < 0x1_0000_0000
    ensures count == 1 ==> r == s
    ensures count != 1 ==> r == plural
  {
    if count == 1 then s else plural
  }

  // ---------------------------------------------------------------------------------------
  // Checked arithmetic

  function Add(a: int, b: int, t: IntType): (r: Fallible<int>)
    ensures r.Returns? <==> InType(a + b, t)
    ensures r.Returns? ==> r.value == a + b
  {
    if InType(a + b, t) then Returns(a + b) else Panics("attempt to add with overflow")
  }

  function Sub(a: int, b: int, t: IntType): (r: Fallible<int>)
    ensures r.Returns? <==> InType(a - b, t)
    ensures r.Returns? ==> r.value == a - b
  {
    if InType(a - b, t) then Returns(a - b) else Panics("attempt to subtract with overflow")
  }

  /** Rust's `%`: the remainder of division truncated toward zero, so it takes the sign of the
      dividend. */
  function TruncRem(a: int, b: int): (r: int)
    requires b != 0
    ensures a >= 0 ==> 0 <= r < (if b > 0 then b else -b)
    ensures a >= 0 && b > 0 ==> r == a % b
  {
    var m := if b > 0 then b else -b;
    if a >= 0 then a % m else -((-a) % m)
  }

  /** Checked `%`: a zero divisor panics, and so does MIN % -1 on a signed type. */
  function Rem(a: int, b: int, t: IntType): (r: Fallible<int>)
    requires InType(a, t) && InType(b, t)
    ensures r.Returns? <==> b != 0 && !(a == t.lo && b == -1 && t.lo < 0)
    ensures r.Returns? ==> r.value == TruncRem(a, b)
  {
    if b == 0 then Panics("attempt to calculate the remainder with a divisor of zero")
    else if a == t.lo && b == -1 && t.lo < 0 then Panics("attempt to calculate the remainder with overflow")
    else Returns(TruncRem(a, b))
  }

  // ---------------------------------------------------------------------------------------
  // Overlap

  /** `overlap`: x when it lies in min..max; above it, `min + (x - max - 1) % (max - min + 1)`;
      below it, `max - (min - x - 1) % (max - min + 1)`; each step checked in the type. */
  function Overlap(x: int, min: int, max: int, t: IntType): Fallible<int>
    requires InType(x, t) && InType(min, t) && InType(max, t)
  {
    if x > max then
      match Sub(x, max, t)
      case Panics(m) => Panics(m)
      case Returns(a) =>
        match Sub(a, 1, t)
        case Panics(m) => Panics(m)
        case Returns(b) =>
          match Width(min, max, t)
          case Panics(m) => Panics(m)
          case Returns(w) =>
            match Rem(b, w, t)
            case Panics(m) => Panics(m)
            case Returns(k) => Add(min, k, t)
    else if x < min then
      match Sub(min, x, t)
      case Panics(m) => Panics(m)
      case Returns(a) =>
        match Sub(a, 1, t)
        case Panics(m) => Panics(m)
        case Returns(b) =>
          match Width(min, max, t)
          case Panics(m) => Panics(m)
          case Returns(w) =>
            match Rem(b, w, t)
            case Panics(m) => Panics(m)
            case Returns(k) => Sub(max, k, t)
    else Returns(x)
  }

  /** `max - min + 1`, checked. */
  function Width(min: int, max: int, t: IntType): (r: Fallible<int>)
    ensures r.Returns? ==> r.value == max - min + 1 && InType(r.value, t)
  {
    match Sub(max, min, t)
    case Panics(m) => Panics(m)
    case Returns(d) => Add(d, 1, t)
  }

  /** Inside the range, `overlap` is the identity. */
  lemma OverlapInside(x: int, min: int, max: int, t: IntType)
    requires InType(x, t) && InType(min, t) && InType(max, t)
    requires min <= x <= max
    ensures Overlap(x, min, max, t) == Returns(x)
  {
  }

  lemma {:induction false} MulAtLeast(z: int, d: int)
    requires z >= 1 && d > 0
    ensures z * d >= d
  {
    if z > 1 {
      MulAtLeast(z - 1, d);
      assert z * d == (z - 1) * d + d;
    }
  }

  /** Euclidean division has one quotient and one remainder. */
  lemma DivUnique(a: int, d: int, q: int, r: int)
    requires d > 0 && 0 <= r < d && a == q * d + r
    ensures a / d == q && a % d == r
  {
    var z := q - a / d;
    assert z * d == a % d - r;
    if z >= 1 {
      MulAtLeast(z, d);
    } else if z <= -1 {
      MulAtLeast(-z, d);
    }
  }

  /** The wrap-around `overlap` computes, in unbounded integers: the value in min..max that
      differs from x by a whole number of widths of the range. */
  function Wrap(x: int, min: int, max: int): (r: int)
    requires min <= max
    ensures min <= r <= max
    ensures (r - x) % (max - min + 1) == 0
  {
    var w := max - min + 1;
    if x > max then
      var b := x - max - 1;
      DivUnique(min + b % w - x, w, -(b / w) - 1, 0);
      min + b % w
    else if x < min then
      var b := min - x - 1;
      DivUnique(max - b % w - x, w, b / w + 1, 0);
      max - b % w
    else
      DivUnique(0, w, 0, 0);
      x
  }

  /** Whenever no step overflows, `overlap` is that wrap-around: it lands in min..max and moves
      x by a whole number of widths. */
  lemma OverlapIsWrap(x: int, min: int, max: int, t: IntType)
    requires InType(x, t) && InType(min, t) && InType(max, t) && min <= max
    requires Overlap(x, min, max, t).Returns?
    ensures Overlap(x, min, max, t).value == Wrap(x, min, max)
  {
  }

  /** On an unsigned type, a range below the type's maximum never makes `overlap` panic. */
  lemma OverlapUnsignedTotal(x: int, min: int, max: int, t: IntType)
    requires ValidType(t) && t.lo == 0
    requires InType(x, t) && InType(min, t) && InType(max, t) && min <= max < t.hi
    ensures Overlap(x, min, max, t).Returns?
  {
  }

  /** One past either end wraps to the other end, and 25 in 1..10 becomes 5, on a `u8`. */
  lemma OverlapExamples()
    ensures Overlap(11, 1, 10, U8) == Returns(1)
    ensures Overlap(0, 1, 10, U8) == Returns(10)
    ensures Overlap(25, 1, 10, U8) == Returns(5)
    ensures Overlap(-0x8000_0000, -0x8000_0000, 0x7FFF_FFFF, I32) == Returns(-0x8000_0000)
  {
  }

  // ---------------------------------------------------------------------------------------
  // yn, Verify, IncDec

  /** `yn`: yes when the flag is set, otherwise no. */
  function Yn<T>(b: bool, yes: T, no: T): (r: T)
    ensures b ==> r == yes
    ensures !b ==> r == no
  {
    if b then yes else no
  }

  /** `verify_or_panic`: panics with the message exactly when `verify()` is false. */
  function VerifyOrPanic(verified: bool, message: string): (r: Fallible<Unit>)
    ensures r.Panics? <==> !verified
    ensures r.Panics? ==> r.message == message
  {
    if !verified then Panics(message) else Returns(Unit)
  }

  const IllegalState := "Illegal state, value cannot be verified!"

  /** `verify_or_panic_default`: the same with a fixed message. */
  function VerifyOrPanicDefault(verified: bool): (r: Fallible<Unit>)
    ensures r.Panics? <==> !verified
    ensures r.Panics? ==> r.message == IllegalState
  {
    VerifyOrPanic(verified, IllegalState)
  }

  /** `inc`: x + 1 in the type. */
  function Inc(x: int, t: IntType): (r: Fallible<int>)
    ensures r.Returns? <==> InType(x + 1, t)
    ensures r.Returns? ==> r.value == x + 1
  {
    Add(x, 1, t)
  }

  /** `dec`: x - 1 in the type. */
  function Dec(x: int, t: IntType): (r: Fallible<int>)
    ensures r.Returns? <==> InType(x - 1, t)
    ensures r.Returns? ==> r.value == x - 1
  {
    Sub(x, 1, t)
  }

  /** `dec` undoes `inc`, and `inc` undoes `dec`; only the type's maximum cannot be
      incremented and only its minimum cannot be decremented. */
  lemma IncDecInverse(x: int, t: IntType)
    requires InType(x, t)
    ensures Inc(x, t).Panics? <==> x == t.hi
    ensures Dec(x, t).Panics? <==> x == t.lo
    ensures Inc(x, t).Returns? ==> Dec(Inc(x, t).value, t) == Returns(x)
    ensures Dec(x, t).Returns? ==> Inc(Dec(x, t).value, t) == Returns(x)
  {
  }

  // ---------------------------------------------------------------------------------------
  // split_into

  /** The pieces joined in order. */
  function Concat<T>(ss: seq<seq<T>>): seq<T>
  {
    if ss == [] then [] else Concat(ss[..|ss| - 1]) + ss[|ss| - 1]
  }

  lemma ConcatAppend<T>(ss: seq<seq<T>>, x: seq<T>)
    ensures Concat(ss + [x]) == Concat(ss) + x
  {
    assert (ss + [x])[..|ss|] == ss;
  }

  /** The length `split_into` gives its i-th part: len / n, one more for the first len % n. */
  function PartSize(len: nat, n: nat, i: nat): nat
    requires n > 0
  {
    len / n + (if i < len % n then 1 else 0)
  }

  /** parts is v cut, in order, into n parts of the sizes `split_into` chooses. */
  predicate IsSplit<T(==)>(v: seq<T>, n: nat, parts: seq<seq<T>>)
    requires n > 0
  {
    |parts| == n && Concat(parts) == v &&
    forall i :: 0 <= i < n ==> |parts[i]| == PartSize(|v|, n, i)
  }

  /** Where part i starts. */
  function Offset(len: nat, n: nat, i: nat): nat
    requires n > 0
  {
    if i == 0 then 0 else Offset(len, n, i - 1) + PartSize(len, n, i - 1)
  }

  lemma {:induction false} OffsetClosed(len: nat, n: nat, i: nat)
    requires n > 0 && i <= n
    ensures Offset(len, n, i) == i * (len / n) + (if i < len % n then i else len % n)
  {
    if i > 0 {
      OffsetClosed(len, n, i - 1);
      OffsetStep(i, len / n, len % n, Offset(len, n, i - 1));
    }
  }

  /** One more part of q elements, plus one while fewer than r parts have had their extra. */
  lemma OffsetStep(i: nat, q: nat, r: nat, prev: nat)
    requires i > 0 && prev == (i - 1) * q + (if i - 1 < r then i - 1 else r)
    ensures prev + q + (if i - 1 < r then 1 else 0) == i * q + (if i < r then i else r)
  {
    assert i * q == (i - 1) * q + q;
  }

  /** The parts together take up the whole vector. */
  lemma OffsetEnd(len: nat, n: nat)
    requires n > 0
    ensures Offset(len, n, n) == len
  {
    OffsetClosed(len, n, n);
  }

  lemma OffsetGrows(len: nat, n: nat, i: nat, j: nat)
    requires n > 0 && i <= j
    ensures Offset(len, n, i) <= Offset(len, n, j)
    decreases j - i
  {
    if i < j {
      OffsetGrows(len, n, i, j - 1);
    }
  }

  /** With at least as many parts as elements, every element gets a part of its own. */
  lemma SmallSizes(len: nat, n: nat, i: nat)
    requires n >= len && n > 0 && i < n
    ensures PartSize(len, n, i) == if i < len then 1 else 0
  {
    if n == len {
      DivUnique(len, n, 1, 0);
    } else {
      DivUnique(len, n, 0, len);
    }
  }

  /** One element per part for the first |v| parts, and empty parts after them, join to v. */
  lemma {:induction false} ConcatSingles<T>(v: seq<T>, parts: seq<seq<T>>, k: nat)
    requires k <= |parts| && |v| <= |parts|
    requires forall j :: 0 <= j < |parts| ==> parts[j] == if j < |v| then [v[j]] else []
    ensures Concat(parts[..k]) == v[..if k < |v| then k else |v|]
  {
    if k > 0 {
      ConcatSingles(v, parts, k - 1);
      assert parts[..k] == parts[..k - 1] + [parts[k - 1]];
      ConcatAppend(parts[..k - 1], parts[k - 1]);
      if k - 1 < |v| {
        assert v[..k] == v[..k - 1] + [v[k - 1]];
      }
    }
  }

  /** `split_into`: `assert!(n > 0)`, then one part for n == 1, one element per part when there
      are at least as many parts as elements, and otherwise parts of len / n elements with one
      more for each of the first len % n. */
  method SplitInto<T(==)>(v: seq<T>, n: nat) returns (r: Fallible<seq<seq<T>>>)
    ensures r.Panics? <==> n == 0
    ensures r.Returns? ==> IsSplit(v, n, r.value)
  {
    if n == 0 {
      return Panics("assertion failed: n > 0");
    }
    if n == 1 {
      assert [v][..0] == [];
      assert Concat([v]) == v;
      return Returns([v]);
    }
    var parts: seq<seq<T>> := [];
    var p := 0;
    while p < n
      invariant 0 <= p <= n && |parts| == p
      invariant forall j :: 0 <= j < p ==> parts[j] == []
    {
      parts := parts + [[]];
      p := p + 1;
    }
    if n >= |v| {
      parts := SplitSingles(v, parts);
    } else {
      parts := SplitRuns(v, parts);
    }
    return Returns(parts);
  }

  /** The `n >= len` branch of `split_into`: the vector is popped from its end, the element at
      index len - i - 1 into part len - i - 1, so part j holds element j and the parts past the
      last element stay empty. */
  method SplitSingles<T(==)>(v: seq<T>, empty: seq<seq<T>>) returns (parts: seq<seq<T>>)
    requires |empty| >= |v| && |empty| > 0
    requires forall j :: 0 <= j < |empty| ==> empty[j] == []
    ensures IsSplit(v, |empty|, parts)
  {
    var n, len := |empty|, |v|;
    var rest := v;
    parts := empty;
    var i := 0;
    while i < len
      invariant 0 <= i <= len && |parts| == n
      invariant rest == v[..len - i]
      invariant forall j :: 0 <= j < n ==> parts[j] == if len - i <= j < len then [v[j]] else []
    {
      var x := rest[|rest| - 1];
      rest := rest[..|rest| - 1];
      parts := parts[len - i - 1 := parts[len - i - 1] + [x]];
      i := i + 1;
    }
    ConcatSingles(v, parts, n);
    assert parts[..n] == parts;
    forall j | 0 <= j < n ensures |parts[j]| == PartSize(len, n, j) {
      SmallSizes(len, n, j);
    }
  }

  /** The last branch of `split_into`: the vector is reversed, and each part in turn pops its
      length off the end, which takes the next elements of the vector in their order. */
  method SplitRuns<T(==)>(v: seq<T>, empty: seq<seq<T>>) returns (parts: seq<seq<T>>)
    requires 0 < |empty| < |v|
    requires forall j :: 0 <= j < |empty| ==> empty[j] == []
    ensures IsSplit(v, |empty|, parts)
  {
    var n, len := |empty|, |v|;
    parts := empty;
    var splitLength := len / n;
    var extra := len % n;
    var rest := Reverse(v);
    assert v[0..] == v;
    var i := 0;
    var taken := 0;
    while i < n
      invariant RunsSoFar(v, n, parts, i, taken)
      invariant extra == if i < len % n then len % n - i else 0
      invariant rest == Reverse(v[taken..])
    {
      var length := splitLength;
      ExtraCounts(len, n, i, extra);
      if extra > 0 {
        length := length + 1;
        extra := extra - 1;
      }
      RunFits(len, n, i);
      var run;
      rest, run := PopRun(rest, v[taken..], length);
      assert v[taken..][length..] == v[taken + length..];
      RunStep(v, n, parts, i, taken, run);
      parts := parts[i := run];
      taken := taken + length;
      i := i + 1;
    }
    OffsetEnd(len, n);
    assert parts[..n] == parts;
    assert v[..len] == v;
  }

  /** The counter of parts still owed an extra element: the i-th part gets one exactly when
      i < len % n, and the counter then goes down by one. */
  lemma ExtraCounts(len: nat, n: nat, i: nat, extra: int)
    requires n > 0 && extra == if i < len % n then len % n - i else 0
    ensures extra > 0 <==> i < len % n
    ensures (if extra > 0 then extra - 1 else extra) == if i + 1 < len % n then len % n - (i + 1) else 0
    ensures PartSize(len, n, i) == len / n + (if extra > 0 then 1 else 0)
  {
  }

  /** The first i parts have their sizes and the others are still empty. */
  predicate Filled<T>(parts: seq<seq<T>>, i: nat, len: nat, n: nat)
    requires n > 0
  {
    |parts| == n && i <= n &&
    (forall j :: 0 <= j < i ==> |parts[j]| == PartSize(len, n, j)) &&
    (forall j :: i <= j < n ==> parts[j] == [])
  }

  /** The first i parts of the split are in place: they join to the first `taken` elements. */
  ghost predicate RunsSoFar<T>(v: seq<T>, n: nat, parts: seq<seq<T>>, i: nat, taken: nat)
    requires n > 0
  {
    Filled(parts, i, |v|, n) && taken == Offset(|v|, n, i) && taken <= |v| &&
    Concat(parts[..i]) == v[..taken]
  }

  /** Taking the next run of v as part i puts one more part in place. */
  lemma RunStep<T>(v: seq<T>, n: nat, parts: seq<seq<T>>, i: nat, taken: nat, run: seq<T>)
    requires n > 0 && i < n && RunsSoFar(v, n, parts, i, taken)
    requires taken + PartSize(|v|, n, i) <= |v| && run == v[taken..][..PartSize(|v|, n, i)]
    ensures RunsSoFar(v, n, parts[i := run], i + 1, taken + PartSize(|v|, n, i))
  {
    AppendRun(v, parts, i, taken, PartSize(|v|, n, i), run);
    SizesStep(parts, i, run, |v|, n);
  }

  /** Setting part i to a run of its size fills one more part. */
  lemma SizesStep<T>(parts: seq<seq<T>>, i: nat, run: seq<T>, len: nat, n: nat)
    requires n > 0 && i < n && Filled(parts, i, len, n) && |run| == PartSize(len, n, i)
    ensures Filled(parts[i := run], i + 1, len, n)
  {
  }

  /** Part i ends where part i + 1 starts, within the vector. */
  lemma RunFits(len: nat, n: nat, i: nat)
    requires i < n
    ensures Offset(len, n, i + 1) == Offset(len, n, i) + PartSize(len, n, i) <= len
  {
    OffsetGrows(len, n, i + 1, n);
    OffsetEnd(len, n);
  }

  /** Putting the next run of v as part i extends the joined prefix by that run. */
  lemma AppendRun<T>(v: seq<T>, parts: seq<seq<T>>, i: nat, taken: nat, length: nat, run: seq<T>)
    requires i < |parts| && taken + length <= |v|
    requires Concat(parts[..i]) == v[..taken]
    requires run == v[taken..][..length]
    ensures Concat(parts[i := run][..i + 1]) == v[..taken + length]
  {
    var q := parts[i := run];
    assert q[..i + 1] == parts[..i] + [run];
    ConcatAppend(parts[..i], run);
    assert v[..taken + length] == v[..taken] + v[taken..][..length];
  }

  /** `length` pops off a reversed sequence: they come out as the first `length` elements in
      their original order, and the rest stays reversed. */
  method PopRun<T>(rest: seq<T>, ghost w: seq<T>, length: nat) returns (left: seq<T>, run: seq<T>)
    requires rest == Reverse(w) && length <= |w|
    ensures left == Reverse(w[length..]) && run == w[..length]
  {
    left, run := rest, [];
    var k := 0;
    while k < length
      invariant 0 <= k <= length
      invariant left == Reverse(w[k..])
      invariant run == w[..k]
    {
      ghost var u := w[k..];
      assert Reverse(u) == Reverse(u[1..]) + [u[0]];
      run := run + [left[|left| - 1]];
      left := left[..|left| - 1];
      assert u[1..] == w[k + 1..];
      assert w[..k + 1] == w[..k] + [w[k]];
      k := k + 1;
    }
  }

  // ---------------------------------------------------------------------------------------
  // split_sized

  /** Bytes of a character in UTF-8. */
  function CharLen(c: char): nat
  {
    if c as int < 0x80 then 1 else if c as int < 0x800 then 2 else if c as int < 0x1_0000 then 3 else 4
  }

  /** `String::len`: the UTF-8 length in bytes. */
  function ByteLen(s: string): nat
  {
    if s == [] then 0 else ByteLen(s[..|s| - 1]) + CharLen(s[|s| - 1])
  }

  /** A chunk `split_sized` emits: it reached n bytes with its last character and not before. */
  predicate Closed(c: string, n: nat)
  {
    |c| > 0 && ByteLen(c[..|c| - 1]) < n <= ByteLen(c)
  }

  /** chunks are the chunks of s for size n: each closed as soon as it reaches n bytes, taken
      one after another from the front of s, with what is left shorter than n bytes. */
  predicate IsChunking(s: string, n: nat, chunks: seq<string>)
  {
    (forall k :: 0 <= k < |chunks| ==> Closed(chunks[k], n)) &&
    |Concat(chunks)| <= |s| && s[..|Concat(chunks)|] == Concat(chunks) &&
    ByteLen(s[|Concat(chunks)|..]) < n
  }

  /** `split_sized`: `assert!(n > 0)`, then characters go into a buffer that is emitted as soon
      as its byte length reaches n; a shorter tail is dropped. */
  method SplitSized(s: string, n: nat) returns (r: Fallible<seq<string>>)
    ensures r.Panics? <==> n == 0
    ensures r.Returns? ==> IsChunking(s, n, r.value)
  {
    if n == 0 {
      return Panics("assertion failed: n > 0");
    }
    var vec: seq<string> := [];
    var buf: string := [];
    var i := 0;
    while i < |s|
      invariant 0 <= i <= |s|
      invariant Concat(vec) + buf == s[..i]
      invariant ByteLen(buf) < n
      invariant forall k :: 0 <= k < |vec| ==> Closed(vec[k], n)
    {
      SizedStep(s, i, vec, buf, n);
      buf := buf + [s[i]];
      if ByteLen(buf) >= n {
        vec := vec + [buf];
        buf := [];
      }
      i := i + 1;
    }
    assert s[..|s|] == s;
    assert s[|Concat(vec)|..] == buf;
    return Returns(vec);
  }

  /** One more character of s into the buffer keeps the text read so far equal to the chunks
      and the buffer, and a buffer it takes to n bytes is a closed chunk. */
  lemma SizedStep(s: string, i: nat, vec: seq<string>, buf: string, n: nat)
    requires i < |s| && Concat(vec) + buf == s[..i] && ByteLen(buf) < n
    ensures Concat(vec) + (buf + [s[i]]) == s[..i + 1]
    ensures Concat(vec + [buf + [s[i]]]) == s[..i + 1]
    ensures ByteLen(buf + [s[i]]) >= n ==> Closed(buf + [s[i]], n)
  {
    var b := buf + [s[i]];
    assert b[..|b| - 1] == buf;
    assert s[..i + 1] == s[..i] + [s[i]];
    ConcatAppend(vec, b);
  }

  /** For ASCII text every chunk is exactly n characters. */
  lemma {:induction false} AsciiByteLen(c: string)
    requires forall i :: 0 <= i < |c| ==> c[i] as int < 0x80
    ensures ByteLen(c) == |c|
  {
    if c != [] {
      AsciiByteLen(c[..|c| - 1]);
    }
  }

  lemma AsciiChunks(s: string, n: nat, chunks: seq<string>)
    requires IsChunking(s, n, chunks)
    requires forall i :: 0 <= i < |s| ==> s[i] as int < 0x80
    ensures forall k :: 0 <= k < |chunks| ==> |chunks[k]| == n
  {
    forall k | 0 <= k < |chunks| ensures |chunks[k]| == n {
      ChunkInText(s, chunks, k);
      var c := chunks[k];
      AsciiByteLen(c);
      AsciiByteLen(c[..|c| - 1]);
    }
  }

  /** Every chunk is a piece of the text, so it inherits the text's characters. */
  lemma ChunkInText(s: string, chunks: seq<string>, k: nat)
    requires k < |chunks| && |Concat(chunks)| <= |s| && s[..|Concat(chunks)|] == Concat(chunks)
    ensures forall i :: 0 <= i < |chunks[k]| ==> exists j :: 0 <= j < |s| && chunks[k][i] == s[j]
  {
    ChunkInConcat(chunks, k);
    var o := PrefixLen(chunks[..k]);
    forall i | 0 <= i < |chunks[k]| ensures exists j :: 0 <= j < |s| && chunks[k][i] == s[j] {
      assert chunks[k][i] == Concat(chunks)[o + i];
      assert s[o + i] == Concat(chunks)[o + i];
    }
  }

  function PrefixLen<T>(ss: seq<seq<T>>): nat
  {
    |Concat(ss)|
  }

  lemma {:induction false} ChunkInConcat<T>(ss: seq<seq<T>>, k: nat)
    requires k < |ss|
    ensures PrefixLen(ss[..k]) + |ss[k]| <= |Concat(ss)|
    ensures forall i :: 0 <= i < |ss[k]| ==> ss[k][i] == Concat(ss)[PrefixLen(ss[..k]) + i]
  {
    var m := |ss| - 1;
    assert ss[..m] + [ss[m]] == ss;
    ConcatAppend(ss[..m], ss[m]);
    if k < m {
      ChunkInConcat(ss[..m], k);
      assert ss[..m][..k] == ss[..k];
    } else {
      assert ss[..k] == ss[..m];
    }
  }
}
