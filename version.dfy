/** `Version` of src/version.rs: four `u16` fields, packed into a Vulkan API version number
    by the VK_MAKE_API_VERSION layout of the Vulkan specification ("Version Numbers": variant in
    bits 29-31, major in 22-28, minor in 12-21, patch in 0-11), and read from dotted text or
    from a GLSL `#version` directive (section 3.3 "Preprocessor" of the OpenGL Shading Language
    4.60 specification). */
module Version {
  import opened Wrappers
  import opened Bytes
  import opened Text

  datatype Version = Version(variant: u16, major: u16, minor: u16, patch: u16)

  datatype Ordering = Less | Equal | Greater

  // ---------------------------------------------------------------------------------------
  // `u32` shifts and bitwise or, on numbers

  function Pow2(k: nat): (r: nat)
    ensures r >= 1
  {
    if k == 0 then 1 else 2 * Pow2(k - 1)
  }

  /** `a | b` of two unsigned numbers, one bit at a time from the lowest. */
  function BitOr(a: nat, b: nat): nat
    decreases a + b
  {
    if a == 0 then b
    else if b == 0 then a
    else 2 * BitOr(a / 2, b / 2) + (if a % 2 == 1 || b % 2 == 1 then 1 else 0)
  }

  /** `x << k` on a `u32`: the bits pushed past bit 31 are lost. */
  function Shl32(x: nat, k: nat): (r: nat)
    ensures r < 0x1_0000_0000
  {
    (x * Pow2(k)) % 0x1_0000_0000
  }

  lemma {:induction false} OrBound(a: nat, b: nat, k: nat)
    requires a < Pow2(k) && b < Pow2(k)
    ensures BitOr(a, b) < Pow2(k)
    decreases a + b
  {
    if a != 0 && b != 0 {
      OrBound(a / 2, b / 2, k - 1);
    }
  }

  /** Or-ing a number into the zero low bits of a multiple of 2^k adds it. */
  lemma {:induction false} OrDisjoint(q: nat, b: nat, k: nat)
    requires b < Pow2(k)
    ensures BitOr(q * Pow2(k), b) == q * Pow2(k) + b
    decreases k
  {
    if k > 0 && q != 0 && b != 0 {
      var p := Pow2(k - 1);
      assert q * Pow2(k) == 2 * (q * p);
      assert q * p > 0;
      OrDisjoint(q, b / 2, k - 1);
    } else if k == 0 {
      assert b == 0;
    }
  }

  /** Doubling both operands doubles their or. */
  lemma OrDouble(x: nat, y: nat)
    ensures BitOr(2 * x, 2 * y) == 2 * BitOr(x, y)
  {
  }

  lemma MulPow2Step(a: nat, k: nat)
    requires k > 0
    ensures a * Pow2(k) == 2 * (a * Pow2(k - 1))
  {
  }

  /** Or commutes with a common left shift. */
  lemma {:induction false} OrShifted(a: nat, b: nat, k: nat)
    ensures BitOr(a * Pow2(k), b * Pow2(k)) == BitOr(a, b) * Pow2(k)
    decreases k
  {
    if k > 0 {
      MulPow2Step(a, k);
      MulPow2Step(b, k);
      MulPow2Step(BitOr(a, b), k);
      OrDouble(a * Pow2(k - 1), b * Pow2(k - 1));
      OrShifted(a, b, k - 1);
    }
  }

  lemma {:induction false} Pow2Add(a: nat, b: nat)
    ensures Pow2(a + b) == Pow2(a) * Pow2(b)
  {
    if a > 0 {
      Pow2Add(a - 1, b);
      assert Pow2(a + b) == 2 * Pow2(a - 1 + b);
    }
  }

  /** The powers of two the Vulkan layout uses. */
  lemma Pow2Values()
    ensures Pow2(7) == 0x80 && Pow2(10) == 0x400 && Pow2(12) == 0x1000
    ensures Pow2(22) == 0x40_0000 && Pow2(29) == 0x2000_0000 && Pow2(32) == 0x1_0000_0000
  {
    assert Pow2(5) == 32;
    assert Pow2(2) == 4;
    Pow2Add(5, 2);
    Pow2Add(5, 5);
    Pow2Add(10, 2);
    Pow2Add(12, 10);
    Pow2Add(22, 7);
    Pow2Add(22, 10);
  }

  // ---------------------------------------------------------------------------------------
  // The Vulkan packing

  /** `Version::parse_vulkan`: each field is cut out of its bit range by a shift and a mask. */
  function ParseVulkan(version: u32): (r: Version)
    ensures r.variant < 8 && r.major < 128 && r.minor < 1024 && r.patch < 4096
  {
    Version(version / 0x2000_0000, (version / 0x40_0000) % 0x80, (version / 0x1000) % 0x400, version % 0x1000)
  }

  /** `as_vulkan_version`: the fields shifted into place in a `u32` and or-ed together, in the
      source's order; bits shifted past bit 31 are lost and a field too wide for its range runs
      into its neighbour's bits. */
  function AsVulkanVersion(v: Version): (r: u32)
  {
    var a := Shl32(v.variant, 29);
    var b := Shl32(v.major, 22);
    var c := Shl32(v.minor, 12);
    Pow2Values();
    OrBound(a, b, 32);
    OrBound(BitOr(a, b), c, 32);
    OrBound(BitOr(BitOr(a, b), c), v.patch, 32);
    BitOr(BitOr(BitOr(a, b), c), v.patch)
  }

  /** Variant and major in range: their shifted bits sit side by side. */
  lemma PackHigh(a: nat, b: nat)
    requires a < 8 && b < 128
    ensures BitOr(Shl32(a, 29), Shl32(b, 22)) == (a * 0x80 + b) * Pow2(22)
  {
    Pow2Values();
    assert Shl32(a, 29) == (a * 0x80) * Pow2(22);
    assert Shl32(b, 22) == b * Pow2(22);
    OrShifted(a * 0x80, b, 22);
    assert a * 0x80 == a * Pow2(7);
    OrDisjoint(a, b, 7);
  }

  /** The minor number in range fills the ten bits below the major number. */
  lemma PackMiddle(hi: nat, c: nat)
    requires hi < 0x400 && c < 0x400
    ensures BitOr(hi * Pow2(22), Shl32(c, 12)) == (hi * 0x400 + c) * Pow2(12)
  {
    Pow2Values();
    assert hi * Pow2(22) == (hi * 0x400) * Pow2(12);
    assert Shl32(c, 12) == c * Pow2(12);
    OrShifted(hi * 0x400, c, 12);
    assert hi * 0x400 == hi * Pow2(10);
    OrDisjoint(hi, c, 10);
  }

  /** Fields within their ranges pack to variant * 2^29 + major * 2^22 + minor * 2^12 + patch. */
  lemma PackInRange(v: Version)
    requires v.variant < 8 && v.major < 128 && v.minor < 1024 && v.patch < 4096
    ensures AsVulkanVersion(v) == ((v.variant * 0x80 + v.major) * 0x400 + v.minor) * 0x1000 + v.patch
  {
    var mid := (v.variant * 0x80 + v.major) * 0x400 + v.minor;
    var upper := BitOr(BitOr(Shl32(v.variant, 29), Shl32(v.major, 22)), Shl32(v.minor, 12));
    PackUpper(v.variant, v.major, v.minor);
    assert upper == mid * 0x1000;
    PackLow(mid, v.patch);
    assert AsVulkanVersion(v) == BitOr(upper, v.patch) == BitOr(mid * 0x1000, v.patch);
  }

  /** Variant, major and minor in range fill bits 12 to 31. */
  lemma PackUpper(a: nat, b: nat, c: nat)
    requires a < 8 && b < 128 && c < 1024
    ensures BitOr(BitOr(Shl32(a, 29), Shl32(b, 22)), Shl32(c, 12)) == ((a * 0x80 + b) * 0x400 + c) * 0x1000
  {
    Pow2Values();
    var hi := a * 0x80 + b;
    PackHigh(a, b);
    PackMiddle(hi, c);
    assert (hi * 0x400 + c) * Pow2(12) == (hi * 0x400 + c) * 0x1000;
  }

  /** The patch number in range fills the twelve bits below the minor number. */
  lemma PackLow(m: nat, d: nat)
    requires d < 0x1000
    ensures BitOr(m * 0x1000, d) == m * 0x1000 + d
  {
    Pow2Values();
    OrDisjoint(m, d, 12);
  }

  /** A `u32` is put back together from its four bit ranges. */
  lemma VulkanFields(x: u32)
    ensures x == (((x / 0x2000_0000) * 0x80 + (x / 0x40_0000) % 0x80) * 0x400 + (x / 0x1000) % 0x400) * 0x1000 + x % 0x1000
  {
    var y := x / 0x1000;
    var z := y / 0x400;
    assert x == y * 0x1000 + x % 0x1000;
    assert y == z * 0x400 + y % 0x400;
    assert z == (z / 0x80) * 0x80 + z % 0x80;
    assert z == x / 0x40_0000;
    assert z / 0x80 == x / 0x2000_0000;
  }

  /** The four bit ranges of a packed number give back the fields that fit them. */
  lemma PackedFields(a: nat, b: nat, c: nat, d: nat)
    requires a < 8 && b < 128 && c < 1024 && d < 4096
    ensures var n := ((a * 0x80 + b) * 0x400 + c) * 0x1000 + d;
      n / 0x2000_0000 == a && (n / 0x40_0000) % 0x80 == b && (n / 0x1000) % 0x400 == c && n % 0x1000 == d
  {
    var hi := a * 0x80 + b;
    var n := (hi * 0x400 + c) * 0x1000 + d;
    assert n / 0x1000 == hi * 0x400 + c;
    assert n / 0x40_0000 == (n / 0x1000) / 0x400;
    assert n / 0x40_0000 == hi;
    assert n / 0x2000_0000 == hi / 0x80;
  }

  /** Every `u32` survives `parse_vulkan` then `as_vulkan_version`. */
  lemma VulkanRoundTrip(x: u32)
    ensures AsVulkanVersion(ParseVulkan(x)) == x
  {
    PackInRange(ParseVulkan(x));
    VulkanFields(x);
  }

  /** A version survives packing and unpacking exactly when each field fits its bit range. */
  lemma VulkanPackExact(v: Version)
    ensures ParseVulkan(AsVulkanVersion(v)) == v <==> v.variant < 8 && v.major < 128 && v.minor < 1024 && v.patch < 4096
  {
    if v.variant < 8 && v.major < 128 && v.minor < 1024 && v.patch < 4096 {
      PackInRange(v);
      PackedFields(v.variant, v.major, v.minor, v.patch);
    }
  }

  /** `Default`: version 1.0.0 of variant 0. */
  function Default(): (r: Version)
    ensures r.variant == 0 && r.major == 1 && r.minor == 0 && r.patch == 0
  {
    Version(0, 1, 0, 0)
  }

  /** `Display`: "major.minor.patch" in decimal; the variant is not shown. */
  function Display(v: Version): string
  {
    Decimal(v.major) + "." + Decimal(v.minor) + "." + Decimal(v.patch)
  }

  /** `to_glsl_string`: "#version " then major, minor and patch with nothing between them. */
  function ToGlslString(v: Version): (r: string)
    ensures StartsWith(r, "#version ")
  {
    "#version " + Decimal(v.major) + Decimal(v.minor) + Decimal(v.patch)
  }

  /** `Ord::cmp`: by major, then minor, then patch; the variant plays no part. */
  function Cmp(a: Version, b: Version): (r: Ordering)
  {
    if a.major != b.major then (if a.major < b.major then Less else Greater)
    else if a.minor != b.minor then (if a.minor < b.minor then Less else Greater)
    else if a.patch != b.patch then (if a.patch < b.patch then Less else Greater)
    else Equal
  }

  /** Lexicographic order on (major, minor, patch). */
  predicate LexLess(a: Version, b: Version)
  {
    a.major < b.major || (a.major == b.major && (a.minor < b.minor || (a.minor == b.minor && a.patch < b.patch)))
  }

  /** `cmp` is the lexicographic order on the three numbers shown by `Display`. */
  lemma CmpIsLexicographic(a: Version, b: Version)
    ensures Cmp(a, b) == Less <==> LexLess(a, b)
    ensures Cmp(a, b) == Greater <==> LexLess(b, a)
    ensures Cmp(a, b) == Equal <==> a.major == b.major && a.minor == b.minor && a.patch == b.patch
  {
  }

  /** Swapping the arguments of `cmp` reverses the answer. */
  lemma CmpAntisymmetric(a: Version, b: Version)
    ensures Cmp(a, b) == Less <==> Cmp(b, a) == Greater
    ensures Cmp(a, b) == Equal <==> Cmp(b, a) == Equal
  {
  }

  lemma CmpTransitive(a: Version, b: Version, c: Version)
    requires Cmp(a, b) == Less && Cmp(b, c) == Less
    ensures Cmp(a, c) == Less
  {
  }

  /** The derived equality compares the variant too, so two versions that `cmp` calls equal
      can still differ under `==`. */
  lemma CmpEqualNotEq()
    ensures Cmp(Version(0, 1, 2, 3), Version(1, 1, 2, 3)) == Equal
    ensures Version(0, 1, 2, 3) != Version(1, 1, 2, 3)
  {
  }

  const Directive := "#version"

  /** One character of a `#version` directive: `c as u16 - 48`, which truncates the character
      to 16 bits and panics on the subtraction below '0'. */
  function GlslDigit(c: char): (r: Fallible<nat>)
    ensures r.Returns? <==> (c as int) % 0x1_0000 >= '0' as int
    ensures r.Returns? ==> r.value < 0x1_0000
    ensures IsDigit(c) ==> r == Returns(c as int - '0' as int)
  {
    var u := (c as int) % 0x1_0000;
    if u < '0' as int then Panics("attempt to subtract with overflow") else Returns(u - '0' as int)
  }

  /** u16::from_str over every piece: `None` as soon as one piece fails. */
  function ParseParts(parts: seq<string>): (r: Option<seq<nat>>)
    ensures r.Some? <==> forall i :: 0 <= i < |parts| ==> ParseU16(parts[i]).Some?
    ensures r.Some? ==> |r.value| == |parts| && forall i :: 0 <= i < |parts| ==> r.value[i] == ParseU16(parts[i]).value
  {
    if parts == [] then Some([])
    else
      match ParseU16(parts[0])
      case None => None
      case Some(x) =>
        match ParseParts(parts[1..])
        case None => None
        case Some(xs) => Some([x] + xs)
  }

  /** One to three numbers fill major, minor and patch in that order, the rest 0; any other
      count is not a version. */
  function FromNumbers(d: seq<nat>): (r: Option<Version>)
    requires forall i :: 0 <= i < |d| ==> d[i] < 0x1_0000
    ensures r.Some? <==> 1 <= |d| <= 3
    ensures r.Some? ==> r.value.variant == 0 && r.value.major == d[0]
    ensures r.Some? ==> r.value.minor == (if |d| >= 2 then d[1] else 0)
    ensures r.Some? ==> r.value.patch == (if |d| == 3 then d[2] else 0)
  {
    if |d| == 1 then Some(Version(0, d[0], 0, 0))
    else if |d| == 2 then Some(Version(0, d[0], d[1], 0))
    else if |d| == 3 then Some(Version(0, d[0], d[1], d[2]))
    else None
  }

  /** The numbers of a dotted version: 'v' and ' ' removed, split on '.', each piece a `u16`. */
  function DottedNumbers(version: string): Option<seq<nat>>
  {
    ParseParts(Split(RemoveChars(version, {'v', ' '}), '.'))
  }

  /** The numbers of a `#version` directive: every "#version" and ' ' removed, one number per
      remaining character. */
  function GlslNumbers(version: string): Fallible<seq<nat>>
  {
    var t := RemoveChars(RemoveAll(version, Directive), {' '});
    Collect(seq(|t|, i requires 0 <= i < |t| => GlslDigit(t[i])))
  }

  /** `Version::parse`. */
  function Parse(version: string): (r: Fallible<Option<Version>>)
    ensures version == [] ==> r == Returns(None)
    ensures r.Panics? ==> StartsWith(version, Directive)
    ensures r.Returns? && r.value.Some? ==> r.value.value.variant == 0
  {
    if version == [] then Returns(None)
    else if StartsWith(version, Directive) then
      match GlslNumbers(version)
      case Panics(m) => Panics(m)
      case Returns(d) => Returns(FromNumbers(d))
    else
      match DottedNumbers(version)
      case None => Returns(None)
      case Some(d) => Returns(FromNumbers(d))
  }

  /** `FromStr` and `TryFrom<String>`: `parse` with `None` turned into `Err(())`. */
  function FromStr(s: string): (r: Fallible<Result<Version, Unit>>)
    ensures r.Panics? <==> Parse(s).Panics?
    ensures r.Returns? ==> (r.value.Ok? <==> Parse(s).value.Some?)
    ensures r.Returns? && r.value.Ok? ==> r.value.value == Parse(s).value.value
  {
    match Parse(s)
    case Panics(m) => Panics(m)
    case Returns(None) => Returns(Err(Unit))
    case Returns(Some(v)) => Returns(Ok(v))
  }

  /** A dotted string is a version exactly when it has one to three pieces that all parse. */
  lemma ParseDotted(version: string)
    requires version != [] && !StartsWith(version, Directive)
    ensures Parse(version).Returns?
    ensures Parse(version).value.Some? <==>
      (var parts := Split(RemoveChars(version, {'v', ' '}), '.');
       1 <= |parts| <= 3 && forall i :: 0 <= i < |parts| ==> ParseU16(parts[i]).Some?)
  {
  }

  /** Four or more dotted pieces are never a version, whatever they hold. */
  lemma ParseFourParts(version: string)
    requires version != [] && !StartsWith(version, Directive)
    requires |Split(RemoveChars(version, {'v', ' '}), '.')| >= 4
    ensures Parse(version) == Returns(None)
  {
  }

  /** `Display` prints digits and dots only. */
  lemma DisplayAvoids(v: Version)
    ensures Avoids(Display(v), {'v', ' '})
  {
    var cs := {'v', ' '};
    var a, b, c := Decimal(v.major), Decimal(v.minor), Decimal(v.patch);
    DecimalDigits(v.major);
    DecimalDigits(v.minor);
    DecimalDigits(v.patch);
    assert Avoids(a, cs) && Avoids(b, cs) && Avoids(c, cs) && Avoids(".", cs);
    AvoidsConcat(a, ".", cs);
    AvoidsConcat(a + ".", b, cs);
    AvoidsConcat(a + "." + b, ".", cs);
    AvoidsConcat(a + "." + b + ".", c, cs);
  }

  /** Three pieces that each parse give their three numbers. */
  lemma ParseThree(a: string, b: string, c: string)
    requires ParseU16(a).Some? && ParseU16(b).Some? && ParseU16(c).Some?
    ensures ParseParts([a, b, c]) == Some([ParseU16(a).value, ParseU16(b).value, ParseU16(c).value])
  {
    var x, y, z := ParseU16(a).value, ParseU16(b).value, ParseU16(c).value;
    assert [c][0] == c && [c][1..] == [];
    assert ParseParts([c][1..]) == Some([]);
    assert [z] + [] == [z];
    assert ParseParts([c]) == Some([z]);
    assert [b, c][0] == b && [b, c][1..] == [c];
    assert ParseParts([b, c][1..]) == Some([z]);
    assert [y] + [z] == [y, z];
    assert ParseParts([b, c]) == Some([y, z]);
    assert [a, b, c][0] == a && [a, b, c][1..] == [b, c];
    assert ParseParts([a, b, c][1..]) == Some([y, z]);
    assert [x] + [y, z] == [x, y, z];
  }

  /** What `Display` prints parses back to the same major, minor and patch, variant 0. */
  lemma ParseDisplay(v: Version)
    ensures Parse(Display(v)) == Returns(Some(Version(0, v.major, v.minor, v.patch)))
  {
    var a, b, c := Decimal(v.major), Decimal(v.minor), Decimal(v.patch);
    DecimalDigits(v.major);
    DecimalDigits(v.minor);
    DecimalDigits(v.patch);
    var s := Display(v);
    assert s[0] == a[0];
    assert !StartsWith(s, Directive);
    DisplayAvoids(v);
    RemoveCharsNone(s, {'v', ' '});
    SplitJoin3(a, b, c, '.');
    ParseDecimal(v.major);
    ParseDecimal(v.minor);
    ParseDecimal(v.patch);
    ParseThree(a, b, c);
  }

  /** The characters left of a directive once "#version" and the spaces are removed. */
  lemma GlslRest(t: string)
    requires |t| < |Directive| - 1 && Avoids(t, {' '})
    ensures RemoveChars(RemoveAll(Directive + " " + t, Directive), {' '}) == t
  {
    assert Directive + " " + t == Directive + (" " + t);
    RemoveAllPrefix(" " + t, Directive);
    RemoveAllShort(" " + t, Directive);
    assert (" " + t)[0] == ' ' && (" " + t)[1..] == t;
    RemoveCharsNone(t, {' '});
  }

  /** A GLSL directive of one-digit numbers parses back to that version, variant 0. */
  lemma ParseGlsl(v: Version)
    requires v.major < 10 && v.minor < 10 && v.patch < 10
    ensures Parse(ToGlslString(v)) == Returns(Some(Version(0, v.major, v.minor, v.patch)))
  {
    var x, y, z := DigitChar(v.major), DigitChar(v.minor), DigitChar(v.patch);
    var s := ToGlslString(v);
    var t := [x, y, z];
    assert s == Directive + " " + t;
    GlslRest(t);
    assert seq(|t|, i requires 0 <= i < |t| => GlslDigit(t[i])) == [GlslDigit(x), GlslDigit(y), GlslDigit(z)];
  }

  /** The default version prints as "1.0.0". */
  lemma DisplayDefault()
    ensures Display(Default()) == "1.0.0"
  {
  }

  /** A dotted version with fewer than three pieces leaves the rest 0. */
  lemma ParseTwoPieces()
    ensures Parse("1.2") == Returns(Some(Version(0, 1, 2, 0)))
  {
    assert Avoids("1.2", {'v', ' '});
    RemoveCharsNone("1.2", {'v', ' '});
    SplitTwo();
    var d := ParseParts(["1", "2"]);
    ParseDigit('1');
    ParseDigit('2');
    assert d.Some? && d.value == [d.value[0], d.value[1]] == [1, 2];
  }

  /** "1.2" splits into two pieces. */
  lemma SplitTwo()
    ensures Split("1.2", '.') == ["1", "2"]
  {
    assert "1.2" == "1" + ['.'] + "2";
    SplitFirst("1", '.', "2");
    SplitNone("2", '.');
  }

  /** Two dotted strings that agree once 'v' and ' ' are removed parse alike. */
  lemma ParseSameDotted(s: string, t: string)
    requires s != [] && !StartsWith(s, Directive) && t != [] && !StartsWith(t, Directive)
    requires RemoveChars(s, {'v', ' '}) == RemoveChars(t, {'v', ' '})
    ensures Parse(s) == Parse(t)
  {
  }

  /** A leading 'v' is ignored: "v" followed by what `Display` prints parses like the
      printed text alone. */
  lemma ParseIgnoresV(v: Version)
    ensures Parse("v" + Display(v)) == Returns(Some(Version(0, v.major, v.minor, v.patch)))
  {
    var t := Display(v);
    var s := "v" + t;
    assert s[0] == 'v' && s[1..] == t;
    assert RemoveChars(s, {'v', ' '}) == RemoveChars(t, {'v', ' '});
    assert !StartsWith(s, Directive) by {
      if |Directive| <= |s| { assert s[..|Directive|][0] == s[0]; }
    }
    DecimalDigits(v.major);
    assert t[0] == Decimal(v.major)[0];
    assert !StartsWith(t, Directive);
    ParseSameDotted(s, t);
    ParseDisplay(v);
  }

  /** A fourth piece is not a version. */
  lemma ParseFourPieces()
    ensures Parse("1.2.3.4") == Returns(None)
  {
    assert Avoids("1.2.3.4", {'v', ' '});
    RemoveCharsNone("1.2.3.4", {'v', ' '});
    SplitFour();
    ParseFourParts("1.2.3.4");
  }

  /** "1.2.3.4" splits into four pieces. */
  lemma SplitFour()
    ensures |Split("1.2.3.4", '.')| == 4
  {
    assert "3.4" == "3" + ['.'] + "4";
    assert "2.3.4" == "2" + ['.'] + "3.4";
    assert "1.2.3.4" == "1" + ['.'] + "2.3.4";
    SplitNone("4", '.');
    SplitFirst("3", '.', "4");
    SplitFirst("2", '.', "3.4");
    SplitFirst("1", '.', "2.3.4");
  }

  /** An empty piece is not a number, so not a version. */
  lemma ParseEmptyPiece()
    ensures Parse("1..2") == Returns(None)
  {
    assert Avoids("1..2", {'v', ' '});
    RemoveCharsNone("1..2", {'v', ' '});
    assert "1..2" == "1" + ['.'] + ("" + ['.'] + "2");
    SplitFirst("1", '.', ".2");
    SplitFirst("", '.', "2");
    SplitNone("2", '.');
    var parts := ["1", "", "2"];
    assert Split("1..2", '.') == parts;
    assert ParseU16(parts[1]).None?;
  }

  /** "#version 450" is 4.5.0. */
  lemma ParseDirective()
    ensures Parse("#version 450") == Returns(Some(Version(0, 4, 5, 0)))
  {
    assert ToGlslString(Version(0, 4, 5, 0)) == "#version 450";
    ParseGlsl(Version(0, 4, 5, 0));
  }

  /** "#version 4.6" panics: '.' lies below '0'. */
  lemma ParseDirectiveDot()
    ensures Parse("#version 4.6").Panics?
  {
    var t := "4.6";
    assert "#version 4.6" == Directive + " " + t;
    assert Avoids(t, {' '});
    GlslRest(t);
    var d := seq(|t|, i requires 0 <= i < |t| => GlslDigit(t[i]));
    assert d[1] == GlslDigit('.') && d[1].Panics?;
  }
}
