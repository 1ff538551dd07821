/** The two derive entry points of the proc-macro crate (Proc/src/lib.rs): `Savable`, which
    dispatches on the item's shape to the generators, and `TryFromString`, which emits a
    `FromStr` impl matching each variant's name in the casings its attributes allow. */
module ProcMacro {
  import opened Wrappers
  import opened Shape
  import opened Bytes
  import opened Generated
  import Savable
  import Savable2

  const UnionPanic := "Deriving Savable for unions is not supported!"
  const NotAnEnum := "`TryFromString` can only be derived for enums"
  const InvalidCasing := "Invalid casing: "

  /** `iter().any(p)`. */
  function Any<T>(s: seq<T>, p: T -> bool): (r: bool)
    ensures r <==> exists i :: 0 <= i < |s| && p(s[i])
  {
    if s == [] then false
    else
      assert forall i :: 1 <= i < |s| ==> s[1..][i - 1] == s[i];
      p(s[0]) || Any(s[1..], p)
  }

  // ---------------------------------------------------------------------------------------
  // #[derive(Savable)]

  /** `#[varint]`: a bare path attribute one of whose segments is `varint`. */
  predicate IsVarintAttr(m: Meta)
  {
    m.MetaPath? && HasSegment(m.path, "varint")
  }

  /** `varint` holds exactly when some attribute of the item is `#[varint]`. */
  function IsVarint(attrs: seq<Meta>): (r: bool)
    ensures r <==> exists i :: 0 <= i < |attrs| && attrs[i].MetaPath? && HasSegment(attrs[i].path, "varint")
  {
    Any(attrs, IsVarintAttr)
  }

  /** `derive_savable`: named, tuple and unit structs go to the `Savable` struct generators as
      written, enums to the `Savable2` enum generator with the `varint` flag, unions panic. */
  function DeriveSavable(input: DeriveInput): Fallible<Impl>
  {
    match input.data
    case StructData(Named(fs)) => Returns(Savable.NamedAsWritten(fs, input.ident))
    case StructData(Unnamed(fs)) => Savable.Unnamed(fs, input.ident)
    case StructData(UnitFields) => Returns(Savable.UnitStruct(input.ident))
    case EnumData(vs) => Savable2.Enumerator(vs, input.ident, IsVarint(input.attrs))
    case UnionData => Panics(UnionPanic)
  }

  /** The derive panics for a union, for a tuple struct with an `#[unsaved]` field and for an
      enum with a malformed `#[custom]` on a saved field; in every other case it emits a
      `Savable` impl for the item's own name. */
  lemma DeriveSavablePanics(input: DeriveInput)
    ensures DeriveSavable(input).Panics? <==>
      (input.data.UnionData? ||
       (input.data.StructData? && input.data.fields.Unnamed? && exists i :: 0 <= i < |input.data.fields.unnamed| && !IsSaved(input.data.fields.unnamed[i])) ||
       (input.data.EnumData? && exists i :: 0 <= i < |input.data.variants| && Savable2.VariantCustoms(input.data.variants[i]).Panics?))
    ensures input.data.UnionData? ==> DeriveSavable(input) == Panics(UnionPanic)
    ensures DeriveSavable(input).Returns? ==> DeriveSavable(input).value.kind == SavableTrait && DeriveSavable(input).value.typeName == input.ident
  {
    match input.data
    case StructData(Unnamed(fs)) => Savable.UnnamedPanics(fs, input.ident);
    case EnumData(vs) => Savable2.EnumeratorPanics(vs, input.ident, IsVarint(input.attrs));
    case _ =>
  }

  /** A named struct with at least one saved field gets the impl of the comma-corrected `named`;
      one whose fields are all `#[unsaved]` (or that has no field) gets the as-written
      `Self { , .. }` literal, so its derived `load` does not compile. */
  lemma DeriveSavableNamed<V>(env: Env<V>, fs: seq<Field>, ident: string, attrs: seq<Meta>, s: seq<byte>)
    ensures var r := DeriveSavable(DeriveInput(ident, attrs, StructData(Named(fs))));
      r.Returns? && (Saved(fs) != [] ==> r.value == Savable.Named(fs, ident))
    ensures var r := DeriveSavable(DeriveInput(ident, attrs, StructData(Named(fs))));
      Saved(fs) == [] ==> LoadOf(env, r.value, s) == None
  {
    Savable.NamedAsWrittenNoSavedField(env, fs, ident, s);
  }

  /** For an enum, `#[varint]` on the item selects the varint discriminant; without it the
      discriminant is the narrowest of u8, u16, u32 holding every index. */
  lemma DeriveSavableDisc(input: DeriveInput)
    requires input.data.EnumData? && DeriveSavable(input).Returns?
    ensures DeriveSavable(input).value.load.LoadMatch?
    ensures DeriveSavable(input).value.load.disc == VarintDisc <==> exists i :: 0 <= i < |input.attrs| && IsVarintAttr(input.attrs[i])
    ensures DeriveSavable(input).value.load.disc != VarintDisc ==> DeriveSavable(input).value.load.disc == Savable.DiscFor(|input.data.variants|)
  {
  }

  // ---------------------------------------------------------------------------------------
  // #[derive(TryFromString)]

  datatype Casing = Lower | Upper | Both

  /** `attr.path().is_ident("exclude")`, whatever follows the path. */
  predicate IsExcludeAttr(m: Meta)
  {
    IsIdent(MetaPathOf(m), "exclude")
  }

  function IsExcluded(v: Variant): (r: bool)
    ensures r <==> exists i :: 0 <= i < |v.attrs| && IsIdent(MetaPathOf(v.attrs[i]), "exclude")
  {
    Any(v.attrs, IsExcludeAttr)
  }

  /** `path.get_ident()`: a path of exactly one segment. */
  function GetIdent(p: Path): (r: Option<string>)
    ensures r.Some? <==> |p.segments| == 1
    ensures r.Some? ==> p.segments == [r.value]
  {
    if |p.segments| == 1 then Some(p.segments[0]) else None
  }

  /** The casing an identifier names; any other identifier panics. */
  function CasingNamed(ident: string): (r: Fallible<Casing>)
    ensures r == Returns(Lower) <==> ident == "Lower"
    ensures r == Returns(Upper) <==> ident == "Upper"
    ensures r == Returns(Both) <==> ident == "Both"
    ensures r.Panics? ==> r.message == InvalidCasing + ident
  {
    match ident
    case "Lower" => Returns(Lower)
    case "Upper" => Returns(Upper)
    case "Both" => Returns(Both)
    case _ => Panics(InvalidCasing + ident)
  }

  /** What one attribute contributes to `get_casing`: nothing unless it is `#[casing(p)]`
      with a path argument, in which case p decides (and `get_ident().unwrap()` panics when
      p has several segments). */
  function CasingOfAttr(m: Meta): Option<Fallible<Casing>>
  {
    if !IsIdent(MetaPathOf(m), "casing") then None
    else
      match m
      case MetaList(_, PathArg(p)) =>
        Some(match Unwrap(GetIdent(p)) case Panics(msg) => Panics(msg) case Returns(id) => CasingNamed(id))
      case _ => None
  }

  /** `get_casing`: the first attribute that names a casing decides; `Both` when none does. */
  function GetCasing(attrs: seq<Meta>): (r: Fallible<Casing>)
    ensures (forall i :: 0 <= i < |attrs| ==> CasingOfAttr(attrs[i]).None?) ==> r == Returns(Both)
  {
    if attrs == [] then Returns(Both)
    else
      match CasingOfAttr(attrs[0])
      case Some(c) => c
      case None =>
        assert forall i :: 1 <= i < |attrs| ==> attrs[1..][i - 1] == attrs[i];
        GetCasing(attrs[1..])
  }

  /** The casing comes from the first attribute that names one. */
  lemma {:induction false} GetCasingFirst(attrs: seq<Meta>, i: nat)
    requires i < |attrs| && CasingOfAttr(attrs[i]).Some?
    requires forall j :: 0 <= j < i ==> CasingOfAttr(attrs[j]).None?
    ensures GetCasing(attrs) == CasingOfAttr(attrs[i]).value
  {
    if i > 0 {
      assert forall j :: 0 <= j < i - 1 ==> attrs[1..][j] == attrs[j + 1];
      GetCasingFirst(attrs[1..], i - 1);
    }
  }

  /** `to_lowercase`/`to_uppercase` of an ASCII character. */
  function LowerChar(c: char): char
  {
    if 'A' <= c <= 'Z' then (c as int - 'A' as int + 'a' as int) as char else c
  }

  function UpperChar(c: char): char
  {
    if 'a' <= c <= 'z' then (c as int - 'a' as int + 'A' as int) as char else c
  }

  function ToLower(s: string): (r: string)
    ensures |r| == |s| && forall i :: 0 <= i < |s| ==> r[i] == LowerChar(s[i])
  {
    seq(|s|, i requires 0 <= i < |s| => LowerChar(s[i]))
  }

  function ToUpper(s: string): (r: string)
    ensures |r| == |s| && forall i :: 0 <= i < |s| ==> r[i] == UpperChar(s[i])
  {
    seq(|s|, i requires 0 <= i < |s| => UpperChar(s[i]))
  }

  /** A `"text" => Ok(Self::Variant)` arm. */
  datatype StrArm = StrArm(text: string, variant: string)

  /** The arms of one variant: its lower-case name, its upper-case name, or both in that order. */
  function VariantArms(v: Variant): Fallible<seq<StrArm>>
  {
    match GetCasing(v.attrs)
    case Panics(m) => Panics(m)
    case Returns(Lower) => Returns([StrArm(ToLower(v.ident), v.ident)])
    case Returns(Upper) => Returns([StrArm(ToUpper(v.ident), v.ident)])
    case Returns(Both) => Returns([StrArm(ToLower(v.ident), v.ident), StrArm(ToUpper(v.ident), v.ident)])
  }

  /** The text `value` is one of the spellings the casing c allows for ident. */
  predicate Accepts(c: Casing, ident: string, value: string)
  {
    (c != Upper && value == ToLower(ident)) || (c != Lower && value == ToUpper(ident))
  }

  /** The variant's casing is well formed and allows the text `value`. */
  predicate VariantAccepts(v: Variant, value: string)
  {
    GetCasing(v.attrs).Returns? && Accepts(GetCasing(v.attrs).value, v.ident, value)
  }

  /** A variant's arms are exactly the spellings its casing accepts. */
  lemma VariantArmsAccept(v: Variant, value: string)
    requires VariantArms(v).Returns?
    ensures GetCasing(v.attrs).Returns?
    ensures forall a :: a in VariantArms(v).value ==> a.variant == v.ident
    ensures (exists a :: a in VariantArms(v).value && a.text == value) <==> VariantAccepts(v, value)
  {
    var arms := VariantArms(v).value;
    if Accepts(GetCasing(v.attrs).value, v.ident, value) {
      if GetCasing(v.attrs).value != Upper && value == ToLower(v.ident) {
        assert arms[0].text == value;
      } else {
        assert arms[|arms| - 1].text == value;
      }
    }
  }

  /** `flat_map`'s concatenation of the pieces, in order. */
  function Flatten<T>(ss: seq<seq<T>>): (r: seq<T>)
  {
    if ss == [] then [] else ss[0] + Flatten(ss[1..])
  }

  /** An element of the concatenation is an element of one of the pieces. */
  lemma {:induction false} FlattenMember<T>(ss: seq<seq<T>>, x: T)
    ensures x in Flatten(ss) <==> exists i :: 0 <= i < |ss| && x in ss[i]
  {
    if ss != [] {
      FlattenMember(ss[1..], x);
      assert forall i :: 1 <= i < |ss| ==> ss[1..][i - 1] == ss[i];
      if exists i :: 0 <= i < |ss| && x in ss[i] {
        var i :| 0 <= i < |ss| && x in ss[i];
        if i > 0 { assert ss[1..][i - 1] == ss[i]; }
      }
    }
  }

  predicate NotExcluded(v: Variant)
  {
    !IsExcluded(v)
  }

  /** The variants that get arms, in declaration order. */
  function Included(vs: seq<Variant>): seq<Variant>
  {
    Filter(vs, NotExcluded)
  }

  /** `impl FromStr for Name`: the arms in order, then `_ => Err(())`. */
  datatype FromStrImpl = FromStrImpl(typeName: string, arms: seq<StrArm>)

  /** `try_from_string`: the arms of every variant not marked `#[exclude]`; a non-enum panics,
      and so does the first included variant whose casing panics. */
  function TryFromString(input: DeriveInput): Fallible<FromStrImpl>
  {
    match input.data
    case EnumData(vs) =>
      (match IncludedArms(Included(vs))
       case Panics(m) => Panics(m)
       case Returns(arms) => Returns(FromStrImpl(input.ident, Flatten(arms))))
    case _ => Panics(NotAnEnum)
  }

  /** `flat_map` over the included variants: their arm lists, or the first casing panic. */
  function IncludedArms(inc: seq<Variant>): (r: Fallible<seq<seq<StrArm>>>)
    ensures r.Returns? <==> forall i :: 0 <= i < |inc| ==> GetCasing(inc[i].attrs).Returns?
    ensures r.Returns? ==> |r.value| == |inc| && forall i :: 0 <= i < |inc| ==> VariantArms(inc[i]) == Returns(r.value[i])
  {
    var cs := seq(|inc|, i requires 0 <= i < |inc| => VariantArms(inc[i]));
    assert forall i :: 0 <= i < |inc| ==> cs[i] == VariantArms(inc[i]);
    Collect(cs)
  }

  /** `from_str`: the first arm whose text equals the value, else `Err(())`. */
  function FromStr(arms: seq<StrArm>, value: string): (r: Result<string, Unit>)
    ensures r.Ok? <==> exists i :: 0 <= i < |arms| && arms[i].text == value
    ensures r.Ok? ==> exists i :: (0 <= i < |arms| && arms[i].text == value && arms[i].variant == r.value &&
      forall j :: 0 <= j < i ==> arms[j].text != value)
  {
    if arms == [] then Err(Unit)
    else if arms[0].text == value then Ok(arms[0].variant)
    else
      var r := FromStr(arms[1..], value);
      assert forall i :: 1 <= i < |arms| ==> arms[1..][i - 1] == arms[i];
      if r.Ok? then
        var i :| 0 <= i < |arms[1..]| && arms[1..][i].text == value && arms[1..][i].variant == r.value &&
          forall j :: 0 <= j < i ==> arms[1..][j].text != value;
        assert forall j :: 0 <= j < i + 1 ==> arms[j].text != value by {
          forall j | 0 <= j < i + 1 ensures arms[j].text != value {
            if j > 0 { assert arms[j] == arms[1..][j - 1]; }
          }
        }
        r
      else r
  }

  /** `try_from_string` panics exactly for a non-enum and for an enum one of whose included
      variants has a malformed `#[casing]`; an excluded variant's casing is never looked at. */
  lemma TryFromStringPanics(input: DeriveInput)
    ensures TryFromString(input).Panics? <==>
      (!input.data.EnumData? || exists i :: 0 <= i < |Included(input.data.variants)| && GetCasing(Included(input.data.variants)[i].attrs).Panics?)
    ensures !input.data.EnumData? ==> TryFromString(input) == Panics(NotAnEnum)
  {
  }

  /** `from_str` succeeds exactly on the text of some arm, and then with that arm's variant. */
  lemma FromStrArm(arms: seq<StrArm>, value: string)
    ensures FromStr(arms, value).Ok? <==> exists a :: a in arms && a.text == value
    ensures FromStr(arms, value).Ok? ==> StrArm(value, FromStr(arms, value).value) in arms
  {
    if exists a :: a in arms && a.text == value {
      var a :| a in arms && a.text == value;
      var k :| 0 <= k < |arms| && arms[k] == a;
    }
    if FromStr(arms, value).Ok? {
      var k :| 0 <= k < |arms| && arms[k].text == value && arms[k].variant == FromStr(arms, value).value;
      assert arms[k] == StrArm(value, FromStr(arms, value).value);
    }
  }

  /** The arms of the included variants, flattened, hold exactly the accepted spellings. */
  lemma FlattenArms(inc: seq<Variant>, arms: seq<seq<StrArm>>, value: string)
    requires |arms| == |inc|
    requires forall i :: 0 <= i < |inc| ==> VariantArms(inc[i]) == Returns(arms[i])
    ensures (exists a :: a in Flatten(arms) && a.text == value) <==>
      exists i :: 0 <= i < |inc| && VariantAccepts(inc[i], value)
    ensures forall a :: a in Flatten(arms) ==> exists i :: 0 <= i < |inc| && a.variant == inc[i].ident && VariantAccepts(inc[i], a.text)
  {
    forall a | a in Flatten(arms) ensures exists i :: 0 <= i < |inc| && a.variant == inc[i].ident && VariantAccepts(inc[i], a.text) {
      FlattenMember(arms, a);
      var i :| 0 <= i < |arms| && a in arms[i];
      VariantArmsAccept(inc[i], a.text);
    }
    if exists i :: 0 <= i < |inc| && VariantAccepts(inc[i], value) {
      var i :| 0 <= i < |inc| && VariantAccepts(inc[i], value);
      VariantArmsAccept(inc[i], value);
      var a :| a in arms[i] && a.text == value;
      FlattenMember(arms, a);
    }
  }

  /** The derived `from_str` succeeds exactly on a spelling an included variant's casing
      accepts, and then names a variant accepting it; any other text gives `Err(())`. */
  lemma TryFromStringParses(input: DeriveInput, value: string)
    requires TryFromString(input).Returns?
    ensures input.data.EnumData?
    ensures FromStr(TryFromString(input).value.arms, value).Ok? <==>
      exists i :: 0 <= i < |Included(input.data.variants)| && VariantAccepts(Included(input.data.variants)[i], value)
    ensures FromStr(TryFromString(input).value.arms, value).Ok? ==>
      exists i :: (0 <= i < |Included(input.data.variants)| && VariantAccepts(Included(input.data.variants)[i], value) &&
        Included(input.data.variants)[i].ident == FromStr(TryFromString(input).value.arms, value).value)
  {
    var inc := Included(input.data.variants);
    var arms := IncludedArms(inc).value;
    var flat := TryFromString(input).value.arms;
    assert flat == Flatten(arms);
    FlattenArms(inc, arms, value);
    FromStrArm(flat, value);
  }

  /** A variant gets arms exactly when it is not marked `#[exclude]`. */
  lemma IncludedVariants(vs: seq<Variant>, v: Variant)
    ensures v in Included(vs) <==> v in vs && !IsExcluded(v)
  {
    FilterMembership(vs, NotExcluded, v);
  }

  const TestEnum := DeriveInput("Enum", [], EnumData([
    Variant("A", [], UnitFields), Variant("B", [], UnitFields), Variant("C", [], UnitFields),
    Variant("HelloWorld", [MetaPath(Path(["exclude"]))], UnitFields)]))

  lemma TestEnumIncluded()
    ensures Included(TestEnum.data.variants) == [Variant("A", [], UnitFields), Variant("B", [], UnitFields), Variant("C", [], UnitFields)]
  {
    var a, b, c := Variant("A", [], UnitFields), Variant("B", [], UnitFields), Variant("C", [], UnitFields);
    var h := Variant("HelloWorld", [MetaPath(Path(["exclude"]))], UnitFields);
    assert IsExcluded(h) by { assert IsExcludeAttr(h.attrs[0]); }
    FilterLastOut(a, b, c, h, NotExcluded);
  }

  /** Four elements of which only the last one fails p. */
  lemma FilterLastOut<T>(a: T, b: T, c: T, h: T, p: T -> bool)
    requires p(a) && p(b) && p(c) && !p(h)
    ensures Filter([a, b, c, h], p) == [a, b, c]
  {
    FilterCons(h, [], p);
    FilterCons(c, [h], p);
    FilterCons(b, [c, h], p);
    FilterCons(a, [b, c, h], p);
  }

  /** A variant without attributes is matched in both casings. */
  lemma PlainVariantArms(v: Variant)
    requires v.attrs == []
    ensures VariantArms(v) == Returns([StrArm(ToLower(v.ident), v.ident), StrArm(ToUpper(v.ident), v.ident)])
  {
  }

  lemma SingleLetter(c: char, l: char, u: char)
    requires 'A' <= c <= 'Z' && l as int == c as int + 32 && u == c
    ensures ToLower([c]) == [l] && ToUpper([c]) == [u]
  {
  }

  const TestArms := [[StrArm("a", "A"), StrArm("A", "A")], [StrArm("b", "B"), StrArm("B", "B")], [StrArm("c", "C"), StrArm("C", "C")]]

  lemma TestEnumIncludedArms()
    ensures IncludedArms([Variant("A", [], UnitFields), Variant("B", [], UnitFields), Variant("C", [], UnitFields)]) == Returns(TestArms)
  {
    var a, b, c := Variant("A", [], UnitFields), Variant("B", [], UnitFields), Variant("C", [], UnitFields);
    SingleLetter('A', 'a', 'A');
    SingleLetter('B', 'b', 'B');
    SingleLetter('C', 'c', 'C');
    PlainVariantArms(a);
    PlainVariantArms(b);
    PlainVariantArms(c);
    var r := IncludedArms([a, b, c]);
    assert r.Returns?;
    assert r.value == TestArms;
  }

  lemma TestFlatten()
    ensures Flatten(TestArms) == TestFlat
  {
    var arms := TestArms;
    assert arms[1..] == [arms[1], arms[2]];
    assert arms[1..][1..] == [arms[2]];
    assert arms[1..][1..][1..] == [];
  }

  lemma TestEnumArms()
    ensures TryFromString(TestEnum) == Returns(FromStrImpl("Enum", Flatten(TestArms)))
  {
    TestEnumIncluded();
    TestEnumIncludedArms();
  }

  const TestFlat := [StrArm("a", "A"), StrArm("A", "A"), StrArm("b", "B"), StrArm("B", "B"), StrArm("c", "C"), StrArm("C", "C")]

  lemma TestParses()
    ensures FromStr(TestFlat, "a") == Ok("A") && FromStr(TestFlat, "B") == Ok("B")
  {
  }

  lemma TestRejects(value: string)
    requires |value| > 1
    ensures FromStr(TestFlat, value) == Err(Unit)
  {
    assert forall k :: 0 <= k < |TestFlat| ==> |TestFlat[k].text| == 1;
    assert FromStr(TestFlat, value).Err?;
    assert FromStr(TestFlat, value).error.Unit?;
  }

  /** `test_try_from_string`: for `enum Enum { A, B, C, #[exclude] HelloWorld }`, "a" parses
      as A, "B" as B, and "HelloWorld" (in any of its spellings) is an error. */
  lemma TestTryFromString()
    ensures TryFromString(TestEnum).Returns?
    ensures FromStr(TryFromString(TestEnum).value.arms, "a") == Ok("A")
    ensures FromStr(TryFromString(TestEnum).value.arms, "B") == Ok("B")
    ensures FromStr(TryFromString(TestEnum).value.arms, "HelloWorld") == Err(Unit)
    ensures FromStr(TryFromString(TestEnum).value.arms, "helloworld") == Err(Unit)
  {
    TestEnumArms();
    TestFlatten();
    TestParses();
    TestRejects("HelloWorld");
    TestRejects("helloworld");
  }
}
