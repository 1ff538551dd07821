/** The items the library's tests derive `Savable` for (src/lib.rs): the unit struct A, the
    tuple struct B, the named structs C and D, and the varint enum E. Each marks some fields
    `#[unsaved]` and some `#[custom(save = hello, load = world)]`. The lemmas run the derive of
    module ProcMacro on each: the struct generators skip the unsaved fields and ignore the
    custom ones, reject B outright, and the enum generator sends E's custom fields through
    `hello`/`world`. */
module LibDerives {
  import opened Wrappers
  import opened Bytes
  import opened Shape
  import opened Generated
  import opened Layout
  import ProcMacro
  import Savable
  import Savable2
  import Save
  import LibTests

  const UnsavedAttr := MetaPath(Path(["unsaved"]))
  const HelloPath := Path(["hello"])
  const WorldPath := Path(["world"])
  const CustomAttr := MetaList(Path(["custom"]), KeyValues([KeyValue("save", PathExpr(HelloPath)), KeyValue("load", PathExpr(WorldPath))]))

  /** `a: String`, `#[unsaved] _b: u32`, `#[custom(..)] c: i32`. */
  const FieldA := Field("a", "String", [])
  const FieldB := Field("_b", "u32", [UnsavedAttr])
  const FieldC := Field("c", "i32", [CustomAttr])

  /** `(String, #[unsaved] u32, #[custom(..)] i32)`. */
  const TupleFields3 := [Field("", "String", []), Field("", "u32", [UnsavedAttr]), Field("", "i32", [CustomAttr])]

  const StructA := DeriveInput("A", [], StructData(UnitFields))
  const StructB := DeriveInput("B", [], StructData(Unnamed(TupleFields3)))
  const StructC := DeriveInput("C", [], StructData(Named([FieldA, FieldB, FieldC])))
  const FieldsD := [FieldA, FieldB, FieldC, Field("d", "u32", []), Field("e", "String", [UnsavedAttr]),
                    Field("f", "u32", []), Field("g", "i32", [CustomAttr])]
  const StructD := DeriveInput("D", [], StructData(Named(FieldsD)))
  const VariantsE := [Variant("A", [], UnitFields), Variant("B", [], Unnamed(TupleFields3)),
                      Variant("C", [], Named([FieldA, FieldB, FieldC]))]
  const EnumE := DeriveInput("E", [MetaPath(Path(["varint"]))], EnumData(VariantsE))

  /** A field with no attributes is saved, through its type's own impl. */
  lemma PlainField(f: Field)
    requires f.attrs == []
    ensures IsSaved(f) && Savable2.GetCustom(f.attrs) == Returns(None)
    ensures Savable2.CustomCodec(f) == PlainCodec(f)
  {
  }

  /** A field marked `#[unsaved]` is not saved. */
  lemma UnsavedField(f: Field)
    requires f.attrs == [UnsavedAttr]
    ensures !IsSaved(f)
  {
    assert HasSegment(UnsavedAttr.path, "unsaved") by {
      assert UnsavedAttr.path.segments[0] == "unsaved";
    }
    assert IsUnsavedAttr(f.attrs[0]);
  }

  /** A field marked `#[custom(save = hello, load = world)]` is saved, and the enum generator
      sends it through `hello` and `world`. */
  lemma CustomField(f: Field)
    requires f.attrs == [CustomAttr]
    ensures IsSaved(f) && Savable2.GetCustom(f.attrs) == Returns(Some((HelloPath, WorldPath)))
    ensures Savable2.CustomCodec(f) == Codec(CustomSave(HelloPath), CustomLoad(WorldPath))
  {
    assert HasSegment(CustomAttr.path, "custom") by {
      assert CustomAttr.path.segments[0] == "custom";
    }
    assert Savable2.CustomOfAttr(CustomAttr) == Some(Returns((HelloPath, WorldPath)));
    assert f.attrs[1..] == [];
    assert !IsUnsavedAttr(f.attrs[0]);
  }

    /** Three elements of which only the middle one fails p. */
  lemma Filter3<T>(a: T, b: T, c: T, p: T -> bool)
    requires p(a) && !p(b) && p(c)
    ensures Filter([a, b, c], p) == [a, c] && Filter([a, b, c], Not(p)) == [b]
  {
    FilterCons(c, [], p);
    FilterCons(b, [c], p);
    FilterCons(a, [b, c], p);
    FilterCons(c, [], Not(p));
    FilterCons(b, [c], Not(p));
    FilterCons(a, [b, c], Not(p));
  }

  /** Four elements of which only the second one fails p. */
  lemma Filter4<T>(d: T, e: T, f: T, g: T, p: T -> bool)
    requires p(d) && !p(e) && p(f) && p(g)
    ensures Filter([d, e, f, g], p) == [d, f, g] && Filter([d, e, f, g], Not(p)) == [e]
  {
    FilterCons(g, [], p);
    FilterCons(f, [g], p);
    FilterCons(e, [f, g], p);
    FilterCons(d, [e, f, g], p);
    FilterCons(g, [], Not(p));
    FilterCons(f, [g], Not(p));
    FilterCons(e, [f, g], Not(p));
    FilterCons(d, [e, f, g], Not(p));
  }

  /** Fields laid out like C's (saved, unsaved, saved) split into [a, c] and [b]. */
  lemma Saved3(a: Field, b: Field, c: Field)
    requires IsSaved(a) && !IsSaved(b) && IsSaved(c)
    ensures Saved([a, b, c]) == [a, c] && Unsaved([a, b, c]) == [b]
  {
    Filter3(a, b, c, IsSaved);
  }

  /** Positional fields laid out like B's: 0 and 2 are saved, 1 is not. */
  lemma SavedPairs3(t0: Field, t1: Field, t2: Field)
    requires IsSaved(t0) && !IsSaved(t1) && IsSaved(t2)
    ensures SavedPairs([t0, t1, t2]) == [(0, t0), (2, t2)]
    ensures UnsavedPairs([t0, t1, t2]) == [(1, t1)]
  {
    var p0, p1, p2 := (0, t0), (1, t1), (2, t2);
    assert Enumerate([t0, t1, t2]) == [p0, p1, p2];
    Filter3(p0, p1, p2, SavedAt);
  }

  /** `derive(Savable)` on the unit struct A: nothing written, nothing read. */
  lemma DeriveA()
    ensures ProcMacro.DeriveSavable(StructA) == Returns(Savable.UnitStruct("A"))
    ensures ProcMacro.DeriveSavable(StructA).value.save == SaveFields([])
  {
  }

  /** `derive(Savable)` on `struct B(String, #[unsaved] u32, #[custom(..)] i32)` panics: the
      tuple-struct generator rejects the `#[unsaved]` field, so the test crate as it stands does
      not expand. */
  lemma DeriveBPanics()
    ensures ProcMacro.DeriveSavable(StructB) == Panics(Savable.UnsavedTupleField)
  {
    UnsavedField(TupleFields3[1]);
    Savable.UnnamedPanics(TupleFields3, "B");
  }

  /** The struct derive on three named fields laid out like C's: `save` writes the first and
      the third through their types' own impls (the struct generator does not look at
      `custom`), and `load` reads them back in that order and then defaults the second. */
  lemma DeriveNamed3(name: string, a: Field, b: Field, c: Field)
    requires a.attrs == [] && b.attrs == [UnsavedAttr] && c.attrs == [CustomAttr]
    ensures var r := ProcMacro.DeriveSavable(DeriveInput(name, [], StructData(Named([a, b, c]))));
      r.Returns? &&
      r.value.save == SaveFields([SaveValue(TypeCodec(a.ty), SelfField(FieldName(a.name))),
                                  SaveValue(TypeCodec(c.ty), SelfField(FieldName(c.name)))]) &&
      r.value.load == LoadStruct(LoadBody(
        [LetLoad(a.name, TypeCodec(a.ty)), LetLoad(c.name, TypeCodec(c.ty)), LetDefault(b.name, b.ty)],
        StructLiteral(None, [a.name, c.name], [b.name], true)))
  {
    PlainField(a);
    UnsavedField(b);
    CustomField(c);
    Saved3(a, b, c);
    var saves := NamedSave([a, c], PlainCodec, true);
    assert saves == [saves[0], saves[1]];
    var loads := LetLoads(NamedLoadEntries([a, c], PlainCodec));
    assert loads == [loads[0], loads[1]];
    var defaults := LetDefaults(NamedDefaultEntries([b]));
    assert defaults == [defaults[0]];
    assert Names([a, c]) == [a.name, c.name];
    assert Names([b]) == [b.name];
  }

  /** `derive(Savable)` on C: `save` writes `a` as a String and `c` as an i32, and `load` reads
      them back in that order and defaults `_b`. */
  lemma DeriveC()
    ensures ProcMacro.DeriveSavable(StructC).Returns?
    ensures ProcMacro.DeriveSavable(StructC).value.save == SaveFields([
      SaveValue(TypeCodec("String"), SelfField(FieldName("a"))),
      SaveValue(TypeCodec("i32"), SelfField(FieldName("c")))])
    ensures ProcMacro.DeriveSavable(StructC).value.load == LoadStruct(LoadBody(
      [LetLoad("a", TypeCodec("String")), LetLoad("c", TypeCodec("i32")), LetDefault("_b", "u32")],
      StructLiteral(None, ["a", "c"], ["_b"], true)))
  {
    DeriveNamed3("C", FieldA, FieldB, FieldC);
  }

  /** Seven fields laid out like D's keep their declaration order on both sides of the split. */
  lemma Saved7(a: Field, b: Field, c: Field, d: Field, e: Field, f: Field, g: Field)
    requires IsSaved(a) && !IsSaved(b) && IsSaved(c) && IsSaved(d) && !IsSaved(e) && IsSaved(f) && IsSaved(g)
    ensures Saved([a, b, c, d, e, f, g]) == [a, c, d, f, g]
    ensures Unsaved([a, b, c, d, e, f, g]) == [b, e]
  {
    Filter3(a, b, c, IsSaved);
    Filter4(d, e, f, g, IsSaved);
    assert [a, b, c, d, e, f, g] == [a, b, c] + [d, e, f, g];
    FilterAppend([a, b, c], [d, e, f, g], IsSaved);
    FilterAppend([a, b, c], [d, e, f, g], Not(IsSaved));
    assert [a, c] + [d, f, g] == [a, c, d, f, g];
    assert [b] + [e] == [b, e];
  }

  /** `derive(Savable)` on D: the saved fields `a, c, d, f, g` and the unsaved `_b, e` both keep
      their declaration order. */
  lemma DeriveD()
    ensures Names(Saved(FieldsD)) == ["a", "c", "d", "f", "g"]
    ensures Names(Unsaved(FieldsD)) == ["_b", "e"]
  {
    var a, b, c, d, e, f, g := FieldsD[0], FieldsD[1], FieldsD[2], FieldsD[3], FieldsD[4], FieldsD[5], FieldsD[6];
    PlainField(a);
    UnsavedField(b);
    CustomField(c);
    PlainField(d);
    UnsavedField(e);
    PlainField(f);
    CustomField(g);
    assert FieldsD == [a, b, c, d, e, f, g];
    Saved7(a, b, c, d, e, f, g);
  }

  /** A variant with named fields laid out like C's saves no field with a malformed `custom`. */
  lemma CustomsNamed3(v: Variant, a: Field, b: Field, c: Field)
    requires v.fields == Named([a, b, c])
    requires a.attrs == [] && b.attrs == [UnsavedAttr] && c.attrs == [CustomAttr]
    ensures Savable2.VariantCustoms(v) == Returns([None, Some((HelloPath, WorldPath))])
  {
    PlainField(a);
    UnsavedField(b);
    CustomField(c);
    Saved3(a, b, c);
    var r := Savable2.CustomsOf([a, c]);
    assert ([a, c])[0] == a && ([a, c])[1] == c;
    assert r.Returns?;
    assert r.value == [r.value[0], r.value[1]];
  }

  /** The same for a variant with positional fields laid out like B's. */
  lemma CustomsTuple3(v: Variant, t0: Field, t1: Field, t2: Field)
    requires v.fields == Unnamed([t0, t1, t2])
    requires t0.attrs == [] && t1.attrs == [UnsavedAttr] && t2.attrs == [CustomAttr]
    ensures Savable2.VariantCustoms(v) == Returns([None, Some((HelloPath, WorldPath))])
  {
    PlainField(t0);
    UnsavedField(t1);
    CustomField(t2);
    SavedPairs3(t0, t1, t2);
    var pairs := SavedPairs([t0, t1, t2]);
    var saved := Seconds(pairs);
    assert saved[0] == t0 && saved[1] == t2;
    assert saved == [t0, t2];
    assert Savable2.VariantCustoms(v) == Savable2.CustomsOf(saved);
    var r := Savable2.CustomsOf([t0, t2]);
    assert ([t0, t2])[0] == t0 && ([t0, t2])[1] == t2;
    assert r.Returns?;
    assert r.value == [r.value[0], r.value[1]];
    assert r.value[0] == None;
    assert r.value[1] == Some((HelloPath, WorldPath));
  }

  /** No field E saves has a malformed `custom` attribute. */
  lemma CustomsOfE()
    ensures forall i :: 0 <= i < |VariantsE| ==> Savable2.VariantCustoms(VariantsE[i]).Returns?
  {
    forall i | 0 <= i < |VariantsE| ensures Savable2.VariantCustoms(VariantsE[i]).Returns? {
      if i == 1 {
        CustomsTuple3(VariantsE[1], TupleFields3[0], TupleFields3[1], TupleFields3[2]);
      } else if i == 2 {
        CustomsNamed3(VariantsE[2], FieldA, FieldB, FieldC);
      } else {
        assert VariantsE[i].fields == UnitFields;
      }
    }
  }

  /** `derive(Savable)` on E goes to the enum generator with a varint discriminant, and expands. */
  lemma DeriveE()
    ensures ProcMacro.DeriveSavable(EnumE) == Savable2.Enumerator(VariantsE, "E", true)
    ensures ProcMacro.DeriveSavable(EnumE).Returns?
    ensures ProcMacro.DeriveSavable(EnumE).value.load.LoadMatch?
    ensures ProcMacro.DeriveSavable(EnumE).value.load.disc == VarintDisc
  {
    assert ProcMacro.IsVarintAttr(EnumE.attrs[0]) by {
      assert EnumE.attrs[0].path.segments[0] == "varint";
    }
    CustomsOfE();
    Savable2.EnumeratorPanics(VariantsE, "E", true);
  }

  /** The enum derive's arms for a variant with named fields laid out like C's: the save arm
      writes the index and then the first field through its type and the third through
      `hello`; the load arm reads the first, then the third through `world`, and defaults the
      second. */
  lemma VariantNamed3Arms(v: Variant, i: nat, a: Field, b: Field, c: Field)
    requires v.fields == Named([a, b, c])
    requires a.attrs == [] && b.attrs == [UnsavedAttr] && c.attrs == [CustomAttr]
    ensures VariantSaveArm(v, i, VarintDisc, Savable2.CustomCodec).body ==
      [SaveDisc(VarintDisc, i), SaveValue(TypeCodec(a.ty), Local(a.name)), SaveValue(CustomSave(HelloPath), Local(c.name))]
    ensures VariantLoadBody(v, Savable2.CustomCodec).lets ==
      [LetLoad(a.name, TypeCodec(a.ty)), LetLoad(c.name, CustomLoad(WorldPath)), LetDefault(b.name, b.ty)]
  {
    PlainField(a);
    UnsavedField(b);
    CustomField(c);
    Saved3(a, b, c);
    var saves := NamedSave([a, c], Savable2.CustomCodec, false);
    assert saves == [saves[0], saves[1]];
    var loads := LetLoads(NamedLoadEntries([a, c], Savable2.CustomCodec));
    assert loads == [loads[0], loads[1]];
    var defaults := LetDefaults(NamedDefaultEntries([b]));
    assert defaults == [defaults[0]];
  }

  /** Variant C of E: the save arm writes the index 2 as a varint, `a` as a String and `c`
      through `hello`; the load arm reads `a`, then `c` through `world`, and defaults `_b`. */
  lemma DeriveEVariantC()
    ensures VariantSaveArm(VariantsE[2], 2, VarintDisc, Savable2.CustomCodec).body ==
      [SaveDisc(VarintDisc, 2), SaveValue(TypeCodec("String"), Local("a")), SaveValue(CustomSave(HelloPath), Local("c"))]
    ensures VariantLoadBody(VariantsE[2], Savable2.CustomCodec).lets ==
      [LetLoad("a", TypeCodec("String")), LetLoad("c", CustomLoad(WorldPath)), LetDefault("_b", "u32")]
  {
    VariantNamed3Arms(VariantsE[2], 2, FieldA, FieldB, FieldC);
  }

  /** The first three positional fields are bound to `a`, `b` and `c`. */
  lemma FirstKeys()
    ensures Layout.Key(0) == "a" && Layout.Key(1) == "b" && Layout.Key(2) == "c"
  {
  }

  /** The enum derive's save arm for a variant with positional fields laid out like B's: they
      are bound to `a`, `b` and `c`, and it writes the index, then `a` through its type and
      `c` through `hello`. */
  lemma VariantTuple3Save(v: Variant, i: nat, t0: Field, t1: Field, t2: Field)
    requires v.fields == Unnamed([t0, t1, t2])
    requires t0.attrs == [] && t1.attrs == [UnsavedAttr] && t2.attrs == [CustomAttr]
    ensures VariantSaveArm(v, i, VarintDisc, Savable2.CustomCodec).body ==
      [SaveDisc(VarintDisc, i), SaveValue(TypeCodec(t0.ty), Local("a")), SaveValue(CustomSave(HelloPath), Local("c"))]
  {
    PlainField(t0);
    UnsavedField(t1);
    CustomField(t2);
    SavedPairs3(t0, t1, t2);
    FirstKeys();
    var saves := TupleSave([(0, t0), (2, t2)], Savable2.CustomCodec);
    assert saves[0] == SaveValue(TypeCodec(t0.ty), Local("a"));
    assert saves[1] == SaveValue(CustomSave(HelloPath), Local("c"));
    assert saves == [saves[0], saves[1]];
  }

  /** Its load arm reads `a` through its type, then `c` through `world`, and defaults `b`. */
  lemma VariantTuple3Load(v: Variant, t0: Field, t1: Field, t2: Field)
    requires v.fields == Unnamed([t0, t1, t2])
    requires t0.attrs == [] && t1.attrs == [UnsavedAttr] && t2.attrs == [CustomAttr]
    ensures VariantLoadBody(v, Savable2.CustomCodec).lets ==
      [LetLoad("a", TypeCodec(t0.ty)), LetLoad("c", CustomLoad(WorldPath)), LetDefault("b", t1.ty)]
  {
    PlainField(t0);
    UnsavedField(t1);
    CustomField(t2);
    SavedPairs3(t0, t1, t2);
    FirstKeys();
    var loads := LetLoads(TupleLoadEntries([(0, t0), (2, t2)], Savable2.CustomCodec));
    assert loads[0] == LetLoad("a", TypeCodec(t0.ty));
    assert loads[1] == LetLoad("c", CustomLoad(WorldPath));
    assert loads == [loads[0], loads[1]];
    var defaults := LetDefaults(TupleDefaultEntries([(1, t1)]));
    assert defaults == [LetDefault("b", t1.ty)];
  }

  /** Variant B of E: positional fields 0 and 2 are written from `a` and `c` (the second through
      `hello`), and on load `b`, the unsaved field, is defaulted. */
  lemma DeriveEVariantB()
    ensures VariantSaveArm(VariantsE[1], 1, VarintDisc, Savable2.CustomCodec).body ==
      [SaveDisc(VarintDisc, 1), SaveValue(TypeCodec("String"), Local("a")), SaveValue(CustomSave(HelloPath), Local("c"))]
    ensures VariantLoadBody(VariantsE[1], Savable2.CustomCodec).lets ==
      [LetLoad("a", TypeCodec("String")), LetLoad("c", CustomLoad(WorldPath)), LetDefault("b", "u32")]
  {
    VariantTuple3Save(VariantsE[1], 1, TupleFields3[0], TupleFields3[1], TupleFields3[2]);
    VariantTuple3Load(VariantsE[1], TupleFields3[0], TupleFields3[1], TupleFields3[2]);
  }

  /** E is an enum rustc accepts. */
  lemma WellFormedE()
    ensures WellFormedVariants(VariantsE)
  {
    assert VariantsE[0].ident == "A" && VariantsE[1].ident == "B" && VariantsE[2].ident == "C";
    assert NamesDistinct([FieldA, FieldB, FieldC]);
  }

  /** What restoring over named fields laid out like C's says about each of the three. */
  lemma RestoredAt3<V>(env: Env<V>, y: Obj<V>, x: Obj<V>, a: Field, b: Field, c: Field)
    requires IsSaved(a) && !IsSaved(b) && IsSaved(c)
    requires NamedRestored(env, y, x, [a, b, c])
    ensures y.variant == x.variant && y.fields.Keys == x.fields.Keys
    ensures FieldName(a.name) in y.fields && y.fields[FieldName(a.name)] == x.fields[FieldName(a.name)]
    ensures FieldName(b.name) in y.fields && y.fields[FieldName(b.name)] == env.default(b.ty)
    ensures FieldName(c.name) in y.fields && y.fields[FieldName(c.name)] == x.fields[FieldName(c.name)]
  {
    var fs := [a, b, c];
    assert fs[0] == a && fs[1] == b && fs[2] == c;
  }

  /** A value with exactly three named fields has no other field. */
  lemma OnlyFields3<V>(x: Obj<V>, a: Field, b: Field, c: Field)
    requires HasNamedFields(x, [a, b, c])
    ensures forall m :: m in x.fields ==> m == FieldName(a.name) || m == FieldName(b.name) || m == FieldName(c.name)
  {
    var fs := [a, b, c];
    forall m | m in x.fields
      ensures m == FieldName(a.name) || m == FieldName(b.name) || m == FieldName(c.name)
    {
      var i :| 0 <= i < |fs| && m == FieldName(fs[i].name);
      assert fs[i] == a || fs[i] == b || fs[i] == c;
    }
  }

  /** A map that agrees with x everywhere but at k, where it holds d, is x updated at k. */
  lemma UpdatedAt<K, V>(y: map<K, V>, x: map<K, V>, k: K, d: V)
    requires y.Keys == x.Keys && k in x && k in y && y[k] == d
    requires forall m :: m in y && m != k ==> y[m] == x[m]
    ensures y == x[k := d]
  {
  }

  /** A value restored over named fields laid out like C's is the original with the second
      field set to its type's default. */
  lemma RestoredNamed3<V>(env: Env<V>, y: Obj<V>, x: Obj<V>, a: Field, b: Field, c: Field)
    requires IsSaved(a) && !IsSaved(b) && IsSaved(c)
    requires HasNamedFields(x, [a, b, c]) && NamedRestored(env, y, x, [a, b, c])
    ensures y.variant == x.variant && y.fields == x.fields[FieldName(b.name) := env.default(b.ty)]
  {
    RestoredAt3(env, y, x, a, b, c);
    OnlyFields3(x, a, b, c);
    UpdatedAt(y.fields, x.fields, FieldName(b.name), env.default(b.ty));
  }

  /** `test_derive_savable`: a value of `E::C` saved and loaded again comes back as `E::C` with
      `a` and `c` as they were and `_b` reset to `u32::default()`, whenever the codecs of `a`
      (String) and `c` (hello/world) and the varint read back what they wrote. */
  lemma TestDeriveSavable<V>(env: Env<V>, x: Obj<V>, rest: seq<byte>)
    requires VariantShaped(x, VariantsE[2]) && VariantCodecsInvert(env, x, VariantsE[2], Savable2.CustomCodec)
    requires DiscInverts(env, VarintDisc, 2)
    ensures ProcMacro.DeriveSavable(EnumE).Returns?
    ensures var impl := ProcMacro.DeriveSavable(EnumE).value;
      SaveOf(env, impl, x).Some? &&
      var r := LoadOf(env, impl, SaveOf(env, impl, x).value + rest);
      r.Some? && r.value.rest == rest && r.value.result.Ok? &&
      r.value.result.value.variant == Some("C") &&
      r.value.result.value.fields == x.fields[FieldName("_b") := env.default("u32")]
  {
    DeriveE();
    WellFormedE();
    Savable2.EnumeratorRoundTrip(env, VariantsE, "E", true, x, 2, rest);
    var impl := ProcMacro.DeriveSavable(EnumE).value;
    var y := LoadOf(env, impl, SaveOf(env, impl, x).value + rest).value.result.value;
    PlainField(FieldA);
    UnsavedField(FieldB);
    CustomField(FieldC);
    RestoredNamed3(env, y, x, FieldA, FieldB, FieldC);
  }

  // ---------------------------------------------------------------------------------------
  // ShortString: a tuple struct with a `#[custom]` field

  const String8SavePath := Path(["string8_save"])
  const String8LoadPath := Path(["string8_load"])
  const String8Attr := MetaList(Path(["custom"]), KeyValues([KeyValue("save", PathExpr(String8SavePath)), KeyValue("load", PathExpr(String8LoadPath))]))

  /** `struct ShortString(#[custom(save = string8_save, load = string8_load)] String)`. */
  const ShortStringFields := [Field("", "String", [String8Attr])]
  const StructShortString := DeriveInput("ShortString", [], StructData(Unnamed(ShortStringFields)))

  /** The bytes of "Hello". */
  const HelloText: seq<byte> := [0x48, 0x65, 0x6C, 0x6C, 0x6F]
  const ShortHello := Obj(None, map[FieldIndex(0) := HelloText])

  /** The codecs `test_short_string` runs under, over string values: the string8 pair for
      the custom functions, and for `String`'s own impl the buffer's `push_string` /
      `pop_string` (a four-byte length prefix). */
  function ShortSave(c: CodecRef, v: seq<byte>): seq<byte>
  {
    match c
    case CustomSave(p) => if p == String8SavePath then LibTests.String8Bytes(v) else []
    case _ => Save.WriteString(v, BigEndian)
  }

  function ShortLoad(c: CodecRef, s: seq<byte>): Save.Loaded<seq<byte>>
  {
    match c
    case CustomLoad(p) =>
      if p != String8LoadPath then Save.Loaded(Err("no such function"), s)
      else
        (match LibTests.String8Read(s)
         case None => Save.Loaded(Err("Failed to load string8"), s)
         case Some(q) => Save.Loaded(Ok(q.value), q.rest))
    case _ =>
      match Save.ReadString(s, BigEndian)
      case None => Save.Loaded(Err("Failed to load String"), s)
      case Some(q) => Save.Loaded(Ok(q.value), q.rest)
  }

  const ShortEnv: Env<seq<byte>> := Env(ShortSave, ShortLoad, _ => [],
    (_, _) => [], (_, s) => Save.Loaded(Err("no discriminant"), s))

  /** The `#[custom]` attribute of ShortString's field names string8_save and string8_load. */
  lemma String8Field()
    ensures IsSaved(ShortStringFields[0])
    ensures Savable2.GetCustom(ShortStringFields[0].attrs) == Returns(Some((String8SavePath, String8LoadPath)))
    ensures Savable2.CustomCodec(ShortStringFields[0]) == Codec(CustomSave(String8SavePath), CustomLoad(String8LoadPath))
  {
    var f := ShortStringFields[0];
    assert HasSegment(String8Attr.path, "custom") by {
      assert String8Attr.path.segments[0] == "custom";
    }
    assert Savable2.CustomOfAttr(String8Attr) == Some(Returns((String8SavePath, String8LoadPath)));
    assert f.attrs[1..] == [];
    assert !IsUnsavedAttr(f.attrs[0]);
  }

  /** `derive(Savable)` on ShortString as the derive dispatches it: the tuple-struct generator
      does not look at `#[custom]`, so the field is written and read through `String`'s own impl.
      Under the buffer's string codec "Hello" then takes 9 bytes, where `test_short_string`
      asserts 6. */
  lemma DeriveShortString()
    ensures ProcMacro.DeriveSavable(StructShortString) == Savable.Unnamed(ShortStringFields, "ShortString")
    ensures ProcMacro.DeriveSavable(StructShortString).Returns?
    ensures var impl := ProcMacro.DeriveSavable(StructShortString).value;
      impl.save == SaveFields([SaveValue(TypeCodec("String"), SelfField(FieldIndex(0)))]) &&
      impl.load == LoadStruct(LoadBody([], TupleOfLoads([TypeCodec("String")])))
    ensures var impl := ProcMacro.DeriveSavable(StructShortString).value;
      SaveOf(ShortEnv, impl, ShortHello) == Some(Save.WriteString(HelloText, BigEndian)) &&
      |SaveOf(ShortEnv, impl, ShortHello).value| == 9
  {
    String8Field();
    Savable.UnnamedPanics(ShortStringFields, "ShortString");
    AllSaved(ShortStringFields);
    Savable.UnnamedSaves(ShortEnv, ShortStringFields, "ShortString", ShortHello);
    var impl := ProcMacro.DeriveSavable(StructShortString).value;
    var es := seq(1, i requires 0 <= i < 1 => (TypeCodec(ShortStringFields[i].ty), SelfField(FieldIndex(i))));
    assert es == [(TypeCodec("String"), SelfField(FieldIndex(0)))];
    assert SaveStmts(es) == [SaveValue(TypeCodec("String"), SelfField(FieldIndex(0)))];
    assert seq(1, i requires 0 <= i < 1 => TypeCodec(ShortStringFields[i].ty)) == [TypeCodec("String")];
    var vs := Savable.TupleOf(ShortHello, 1);
    assert vs == [HelloText];
    var codecs := Savable.TypeCodecs(ShortStringFields);
    assert codecs == [TypeCodec("String")];
    assert codecs[1..] == [] && vs[1..] == [];
    assert ShortEnv.save(codecs[0], vs[0]) == Save.WriteString(HelloText, BigEndian);
    assert SavesBytes(ShortEnv, codecs, vs) == Save.WriteString(HelloText, BigEndian) + [];
    assert Save.WriteString(HelloText, BigEndian) + [] == Save.WriteString(HelloText, BigEndian);
  }

  /** The corrected tuple-struct generator on ShortString: the field goes through string8_save
      and string8_load, "Hello" takes the 6 bytes `test_short_string` asserts, and loading them
      gives the value back with nothing left over. */
  lemma ShortStringCustom()
    ensures Savable2.UnnamedCustom(ShortStringFields, "ShortString").Returns?
    ensures var impl := Savable2.UnnamedCustom(ShortStringFields, "ShortString").value;
      SaveOf(ShortEnv, impl, ShortHello) == Some(LibTests.String8Bytes(HelloText)) &&
      |SaveOf(ShortEnv, impl, ShortHello).value| == 6 &&
      LoadOf(ShortEnv, impl, SaveOf(ShortEnv, impl, ShortHello).value) == Some(Save.Loaded(Ok(ShortHello), []))
  {
    String8Field();
    AllSaved(ShortStringFields);
    var f := ShortStringFields[0];
    assert Inverts(ShortEnv, Savable2.CustomCodec(f).save, Savable2.CustomCodec(f).load, ShortHello.fields[FieldIndex(0)]) by {
      forall rest ensures ShortLoad(CustomLoad(String8LoadPath), LibTests.String8Bytes(HelloText) + rest) == Save.Loaded(Ok(HelloText), rest) {
        LibTests.String8RoundTrip(HelloText, rest);
        assert HelloText[..5] == HelloText;
      }
    }
    Savable2.UnnamedCustomRoundTrip(ShortEnv, ShortStringFields, "ShortString", ShortHello, []);
    var vs := Savable.TupleOf(ShortHello, 1);
    assert vs == [HelloText];
    assert Savable2.CustomSaveCodecs(ShortStringFields) == [CustomSave(String8SavePath)];
    assert SavesBytes(ShortEnv, Savable2.CustomSaveCodecs(ShortStringFields), vs) == LibTests.String8Bytes(HelloText) + [];
    assert LibTests.String8Bytes(HelloText) + [] == LibTests.String8Bytes(HelloText);
  }
}
