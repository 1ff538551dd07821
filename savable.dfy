/** The `#[derive(Savable)]` generators of the proc-macro crate (Proc/src/savable.rs): the
    impl emitted for a struct with named fields, a tuple struct, a unit struct and an enum.

    Each generator is a function from the type's shape to the emitted impl, or to the panic
    that aborts the expansion. The lemmas run the emitted `save` and `load` with the
    semantics of module Generated: saving writes the saved fields in declaration order,
    loading reads them back and fills every `#[unsaved]` field with its type's `Default`.

    The struct-literal comma: the emitted `Self { #(saved),*, #(unsaved),* }` always writes
    the comma between the two lists, which is not Rust when no field is saved. `NamedAsWritten`
    and `EnumeratorAsWritten` keep that comma; `Named` and `Enumerator` write it only after a
    saved field (as the second generator, Proc/src/savable2.rs, does). */
module Savable {
  import opened Wrappers
  import opened Bytes
  import opened Save
  import opened Shape
  import opened Generated
  import opened Layout

  const UnsavedTupleField := "Unnamed fields cannot be marked as unsaved!"

  /** `id_ty`: `u8` below 256 variants, `u16` below 65536, `u32` otherwise. Every variant
      index of an enum with at most 2^32 variants fits the chosen type. */
  function DiscFor(n: nat): (k: DiscKind)
    ensures k != VarintDisc
    ensures n <= 0x1_0000_0000 ==> n <= DiscRange(k)
    ensures k != U32Disc ==> n < DiscRange(k)
    ensures k == U16Disc ==> n >= DiscRange(U8Disc)
    ensures k == U32Disc ==> n >= DiscRange(U16Disc)
  {
    if n < 256 then U8Disc else if n < 65536 then U16Disc else U32Disc
  }

  // ---------------------------------------------------------------------------------------
  // Structs

  /** `named`, with `sep` telling whether the comma between the saved and the unsaved names is emitted. */
  function NamedImpl(fs: seq<Field>, name: string, sep: bool): Impl
  {
    Impl(SavableTrait, name,
      SaveFields(NamedSave(Saved(fs), PlainCodec, true)),
      LoadStruct(NamedLoad(None, Saved(fs), Unsaved(fs), PlainCodec, sep)))
  }

  /** `named` as written: the comma is always emitted. */
  function NamedAsWritten(fs: seq<Field>, name: string): Impl
  {
    NamedImpl(fs, name, true)
  }

  /** `named` with the comma emitted only after a saved name. */
  function Named(fs: seq<Field>, name: string): Impl
  {
    NamedImpl(fs, name, Saved(fs) != [])
  }

  /** `named`: `save` writes exactly the saved fields, in declaration order, each through its
      type's `Savable` impl; `load` reads them back from those bytes, gives every unsaved field
      its type's default, and leaves the loader just after the saved bytes. */
  lemma NamedRoundTrip<V>(env: Env<V>, fs: seq<Field>, name: string, x: Obj<V>, rest: seq<byte>)
    requires NamesDistinct(fs) && x.variant == None && HasNamedFields(x, fs)
    requires NamedCodecsInvert(env, x, fs, PlainCodec)
    ensures forall k :: 0 <= k < |Saved(fs)| ==> FieldName(Saved(fs)[k].name) in x.fields
    ensures SaveOf(env, Named(fs, name), x) == Some(NamedBytes(env, x, Saved(fs), PlainCodec))
    ensures var r := LoadOf(env, Named(fs, name), NamedBytes(env, x, Saved(fs), PlainCodec) + rest);
      r.Some? && r.value.rest == rest && r.value.result.Ok? && NamedRestored(env, r.value.result.value, x, fs)
  {
    SavedInX(fs, x);
    NamedSaveRuns(env, Saved(fs), PlainCodec, true, x, map[]);
    NamedLoadRuns(env, fs, PlainCodec, x, rest);
  }

  /** Two values that agree on every saved field are saved to the same bytes. */
  lemma NamedSaveIgnoresUnsaved<V>(env: Env<V>, fs: seq<Field>, name: string, x: Obj<V>, x': Obj<V>)
    requires HasNamedFields(x, fs) && HasNamedFields(x', fs)
    requires forall i :: 0 <= i < |fs| && IsSaved(fs[i]) ==> x.fields[FieldName(fs[i].name)] == x'.fields[FieldName(fs[i].name)]
    ensures SaveOf(env, Named(fs, name), x) == SaveOf(env, Named(fs, name), x')
  {
    SavedInX(fs, x);
    SavedInX(fs, x');
    NamedSaveRuns(env, Saved(fs), PlainCodec, true, x, map[]);
    NamedSaveRuns(env, Saved(fs), PlainCodec, true, x', map[]);
    forall k | 0 <= k < |Saved(fs)| ensures NamedValues(x, Saved(fs))[k] == NamedValues(x', Saved(fs))[k] {
      var i := SavedOrigin(fs, k);
    }
    assert NamedValues(x, Saved(fs)) == NamedValues(x', Saved(fs));
  }

  /** With no saved field, a named body's `let`s only bind the defaults, and cannot fail. */
  lemma DefaultLetsRun<V>(env: Env<V>, fs: seq<Field>, variant: Option<string>, sep: bool, s: seq<byte>)
    requires Saved(fs) == []
    ensures ExecLets(env, NamedLoad(variant, [], Unsaved(fs), PlainCodec, sep).lets, s, map[]) ==
      Loaded(Ok(BindSeq(map[], Names(Unsaved(fs)), DefaultValues(env, Unsaved(fs)))), s)
  {
    var es := NamedDefaultEntries(Unsaved(fs));
    assert NamedLoad(variant, [], Unsaved(fs), PlainCodec, sep).lets == LetDefaults(es);
    ExecLetDefaults(env, es, DefaultValues(env, Unsaved(fs)), s, map[]);
    assert Firsts(es) == Names(Unsaved(fs));
  }

  /** With no saved field, the as-written literal `Self { , d1, .. }` is not Rust: the emitted
      `load` does not compile, whatever the loader holds. With at least one saved field the
      as-written and the corrected generator emit the same impl. */
  lemma NamedAsWrittenNoSavedField<V>(env: Env<V>, fs: seq<Field>, name: string, s: seq<byte>)
    ensures Saved(fs) != [] ==> NamedAsWritten(fs, name) == Named(fs, name)
    ensures Saved(fs) == [] ==> LoadOf(env, NamedAsWritten(fs, name), s) == None
  {
    if Saved(fs) == [] {
      DefaultLetsRun(env, fs, None, true, s);
      assert !LiteralCompiles(Names(Saved(fs)), Names(Unsaved(fs)), true);
    }
  }

  /** The corrected `named` with no saved field reads nothing and builds the value whose every
      field is its type's default. */
  lemma NamedNoSavedField<V>(env: Env<V>, fs: seq<Field>, name: string, s: seq<byte>)
    requires NamesDistinct(fs) && Saved(fs) == []
    ensures var r := LoadOf(env, Named(fs, name), s);
      r.Some? && r.value.rest == s && r.value.result.Ok? && r.value.result.value.variant == None &&
      forall i :: 0 <= i < |fs| ==>
        (FieldName(fs[i].name) in r.value.result.value.fields && r.value.result.value.fields[FieldName(fs[i].name)] == env.default(fs[i].ty))
  {
    AllUnsaved(fs);
    assert Named(fs, name).load == LoadStruct(NamedLoad(None, [], fs, PlainCodec, false));
    assert Distinct(Names(fs));
    var y := DefaultsBody(env, fs, None, s);
  }

  /** A body that only binds defaults and collects them, with no comma before them. */
  lemma DefaultsBody<V>(env: Env<V>, us: seq<Field>, variant: Option<string>, s: seq<byte>) returns (y: Obj<V>)
    requires Distinct(Names(us))
    ensures ExecBody(env, NamedLoad(variant, [], us, PlainCodec, false), s) == Some(Loaded(Ok(y), s))
    ensures y.variant == variant
    ensures forall i :: 0 <= i < |us| ==> FieldName(us[i].name) in y.fields && y.fields[FieldName(us[i].name)] == env.default(us[i].ty)
  {
    var es := NamedDefaultEntries(us);
    var body := NamedLoad(variant, [], us, PlainCodec, false);
    assert body.lets == LetDefaults(es);
    var vs := DefaultValues(env, us);
    ExecLetDefaults(env, es, vs, s, map[]);
    assert Firsts(es) == Names(us);
    var locals := BindSeq(map[], Names(us), vs);
    BindSeqLookup(map[], Names(us), vs);
    BuildStruct(variant, [], Names(us), false, locals);
    assert [] + Names(us) == Names(us);
    y := Obj(variant, StructFields(Names(us), locals));
    ExecBodyLets(env, body, s, locals, s, y);
    forall i | 0 <= i < |us| ensures FieldName(us[i].name) in y.fields && y.fields[FieldName(us[i].name)] == env.default(us[i].ty) {
      StructFieldAt(Names(us), locals, i);
      assert Names(us)[i] == us[i].name;
    }
  }

  /** With no saved field, the unsaved fields are all the fields. */
  lemma AllUnsaved(fs: seq<Field>)
    requires Saved(fs) == []
    ensures Unsaved(fs) == fs
  {
    forall i | 0 <= i < |fs| ensures !IsSaved(fs[i]) {
      FilterMembership(fs, IsSaved, fs[i]);
    }
    FilterAll(fs, Not(IsSaved));
    assert forall f :: Not(Not(IsSaved))(f) == IsSaved(f);
  }

  /** `unnamed`: the tuple fields in order, each through its type's `Savable` impl. */
  function Unnamed(fs: seq<Field>, name: string): (r: Fallible<Impl>)
  {
    if Unsaved(fs) != [] then Panics(UnsavedTupleField)
    else
      var saved := Saved(fs);
      Returns(Impl(SavableTrait, name,
        SaveFields(SaveStmts(seq(|saved|, i requires 0 <= i < |saved| => (TypeCodec(saved[i].ty), SelfField(FieldIndex(i)))))),
        LoadStruct(LoadBody([], TupleOfLoads(seq(|saved|, i requires 0 <= i < |saved| => TypeCodec(saved[i].ty)))))))
  }

  /** The codecs of the fields, in order. */
  function TypeCodecs(fs: seq<Field>): (r: seq<CodecRef>)
    ensures |r| == |fs| && forall i :: 0 <= i < |fs| ==> r[i] == TypeCodec(fs[i].ty)
  {
    seq(|fs|, i requires 0 <= i < |fs| => TypeCodec(fs[i].ty))
  }

  /** The values x.0, .., x.(n-1). */
  function TupleOf<V>(x: Obj<V>, n: nat): (r: seq<V>)
    requires HasTupleFields(x, n)
    ensures |r| == n && forall i :: 0 <= i < n ==> r[i] == x.fields[FieldIndex(i)]
  {
    seq(n, i requires 0 <= i < n => x.fields[FieldIndex(i)])
  }

  /** `unnamed` panics exactly when some field is marked `#[unsaved]`. */
  lemma UnnamedPanics(fs: seq<Field>, name: string)
    ensures Unnamed(fs, name).Panics? <==> exists i :: 0 <= i < |fs| && !IsSaved(fs[i])
    ensures Unnamed(fs, name).Panics? ==> Unnamed(fs, name).message == UnsavedTupleField
  {
    SavedUnsavedPartition(fs);
    if Unsaved(fs) != [] {
      var f := Unsaved(fs)[0];
      assert f in Unsaved(fs);
      var i :| 0 <= i < |fs| && fs[i] == f;
    } else {
      AllSaved(fs);
    }
  }

  /** `unnamed`: `save` writes field 0, 1, .. in order, each through its type's `Savable` impl. */
  lemma UnnamedSaves<V>(env: Env<V>, fs: seq<Field>, name: string, x: Obj<V>)
    requires Unsaved(fs) == [] && HasTupleFields(x, |fs|)
    ensures Unnamed(fs, name).Returns?
    ensures SaveOf(env, Unnamed(fs, name).value, x) == Some(SavesBytes(env, TypeCodecs(fs), TupleOf(x, |fs|)))
  {
    AllSaved(fs);
    var es := seq(|fs|, i requires 0 <= i < |fs| => (TypeCodec(fs[i].ty), SelfField(FieldIndex(i))));
    assert Unnamed(fs, name).value.save == SaveFields(SaveStmts(es));
    ExecSaveStmts(env, es, TupleOf(x, |fs|), x, map[]);
    assert Firsts(es) == TypeCodecs(fs);
  }

  /** `Self(<T0>::load(loader)?, ..)` over what the matching save codecs wrote from x.0, ..,
      x.(n-1) builds x. */
  lemma TupleOfLoadsRuns<V>(env: Env<V>, scs: seq<CodecRef>, codecs: seq<CodecRef>, x: Obj<V>, rest: seq<byte>)
    requires |scs| == |codecs| && x.variant == None && HasTupleFields(x, |codecs|)
    requires forall i :: 0 <= i < |codecs| ==> Inverts(env, scs[i], codecs[i], x.fields[FieldIndex(i)])
    ensures ExecBody(env, LoadBody([], TupleOfLoads(codecs)), SavesBytes(env, scs, TupleOf(x, |codecs|)) + rest) == Some(Loaded(Ok(x), rest))
  {
    var vs := TupleOf(x, |codecs|);
    ExecTupleLoadsInverse(env, scs, codecs, vs, 0, rest, map[]);
    var r := ExecTupleLoads(env, codecs, 0, SavesBytes(env, scs, vs) + rest, map[]);
    assert r.result.value == x.fields by {
      forall m | m in x.fields ensures m in r.result.value && r.result.value[m] == x.fields[m] {
        assert FieldIndex(0 + m.index) == m;
      }
    }
  }

  /** `unnamed`: `load` reads the fields back in order and returns exactly the value saved. */
  lemma UnnamedRoundTrip<V>(env: Env<V>, fs: seq<Field>, name: string, x: Obj<V>, rest: seq<byte>)
    requires Unsaved(fs) == [] && x.variant == None && HasTupleFields(x, |fs|)
    requires forall i :: 0 <= i < |fs| ==> Inverts(env, TypeCodec(fs[i].ty), TypeCodec(fs[i].ty), x.fields[FieldIndex(i)])
    ensures Unnamed(fs, name).Returns?
    ensures LoadOf(env, Unnamed(fs, name).value, SavesBytes(env, TypeCodecs(fs), TupleOf(x, |fs|)) + rest) == Some(Loaded(Ok(x), rest))
  {
    AllSaved(fs);
    var codecs := TypeCodecs(fs);
    assert Unnamed(fs, name).value.load == LoadStruct(LoadBody([], TupleOfLoads(codecs)));
    TupleOfLoadsRuns(env, codecs, codecs, x, rest);
  }

  /** `unit`: nothing is written, and `load` returns the value without reading. */
  function UnitStruct(name: string): Impl
  {
    Impl(SavableTrait, name, SaveFields([]), LoadStruct(LoadBody([], UnitValue(None))))
  }

  lemma UnitRoundTrip<V>(env: Env<V>, name: string, x: Obj<V>, s: seq<byte>)
    ensures SaveOf(env, UnitStruct(name), x) == Some([])
    ensures LoadOf(env, UnitStruct(name), s) == Some(Loaded(Ok(Obj(None, map[])), s))
  {
  }

  // ---------------------------------------------------------------------------------------
  // Enums

  /** The save arm of variant i: the pattern, `Savable::save(&(i as id_ty), saver)`, the saved fields. */
  function SaveArmOf(v: Variant, i: nat, kind: DiscKind): Fallible<SaveArm>
  {
    match v.fields
    case Named(fs) => Returns(SaveArm(StructPattern(v.ident, Names(fs)), [SaveDisc(kind, i)] + NamedSave(Saved(fs), PlainCodec, false)))
    case Unnamed(fs) =>
      if Unsaved(fs) != [] then Panics(UnsavedTupleField)
      else
        var saved := Saved(fs);
        Returns(SaveArm(TuplePattern(v.ident, Keys(|saved|)), [SaveDisc(kind, i)] + TupleSave(Enumerate(saved), PlainCodec)))
    case UnitFields => Returns(SaveArm(UnitPattern(v.ident), [SaveDisc(kind, i)]))
  }

  /** The load arm `i as u32 => ..` of variant i; `fixed` chooses the corrected struct-literal comma. */
  function LoadArmOf(v: Variant, i: nat, fixed: bool): Fallible<LoadArm>
  {
    match v.fields
    case Named(fs) =>
      Returns(LoadArm(i % 0x1_0000_0000, NamedLoad(Some(v.ident), Saved(fs), Unsaved(fs), PlainCodec, if fixed then Saved(fs) != [] else true)))
    case Unnamed(fs) =>
      if Unsaved(fs) != [] then Panics(UnsavedTupleField)
      else
        var saved := Saved(fs);
        Returns(LoadArm(i % 0x1_0000_0000, TupleLoad(Some(v.ident), Enumerate(saved), [], PlainCodec, |saved|)))
    case UnitFields => Returns(LoadArm(i % 0x1_0000_0000, LoadBody([], UnitValue(Some(v.ident)))))
  }

  /** The save arm of each variant, in order. */
  function SaveArmsOf(vs: seq<Variant>, kind: DiscKind): (r: seq<Fallible<SaveArm>>)
    ensures |r| == |vs| && forall i :: 0 <= i < |vs| ==> r[i] == SaveArmOf(vs[i], i, kind)
  {
    seq(|vs|, i requires 0 <= i < |vs| => SaveArmOf(vs[i], i, kind))
  }

  /** The load arm of each variant, in order. */
  function LoadArmsOf(vs: seq<Variant>, fixed: bool): (r: seq<Fallible<LoadArm>>)
    ensures |r| == |vs| && forall i :: 0 <= i < |vs| ==> r[i] == LoadArmOf(vs[i], i, fixed)
  {
    seq(|vs|, i requires 0 <= i < |vs| => LoadArmOf(vs[i], i, fixed))
  }

  /** `enumerator`: the save arms are generated first, then the load arms. */
  function EnumImpl(vs: seq<Variant>, name: string, fixed: bool): Fallible<Impl>
  {
    var kind := DiscFor(|vs|);
    match Collect(SaveArmsOf(vs, kind))
    case Panics(m) => Panics(m)
    case Returns(saves) =>
      match Collect(LoadArmsOf(vs, fixed))
      case Panics(m) => Panics(m)
      case Returns(loads) => Returns(Impl(SavableTrait, name, SaveMatch(saves), LoadMatch(kind, loads, name)))
  }

  function EnumeratorAsWritten(vs: seq<Variant>, name: string): Fallible<Impl>
  {
    EnumImpl(vs, name, false)
  }

  function Enumerator(vs: seq<Variant>, name: string): Fallible<Impl>
  {
    EnumImpl(vs, name, true)
  }

  /** The arms of a non-panicking `enumerator`, generated variant by variant. */
  lemma EnumParts(vs: seq<Variant>, name: string, fixed: bool) returns (saves: seq<SaveArm>, loads: seq<LoadArm>)
    requires EnumImpl(vs, name, fixed).Returns?
    ensures EnumImpl(vs, name, fixed).value == Impl(SavableTrait, name, SaveMatch(saves), LoadMatch(DiscFor(|vs|), loads, name))
    ensures |saves| == |vs| && forall i :: 0 <= i < |vs| ==> SaveArmOf(vs[i], i, DiscFor(|vs|)) == Returns(saves[i])
    ensures |loads| == |vs| && forall i :: 0 <= i < |vs| ==> LoadArmOf(vs[i], i, fixed) == Returns(loads[i])
    ensures forall i :: 0 <= i < |vs| ==> loads[i].index == i % 0x1_0000_0000
  {
    var kind := DiscFor(|vs|);
    var ss := SaveArmsOf(vs, kind);
    var ls := LoadArmsOf(vs, fixed);
    saves := Collect(ss).value;
    loads := Collect(ls).value;
    forall i | 0 <= i < |vs| ensures loads[i].index == i % 0x1_0000_0000 {
      LoadArmIndex(vs[i], i, fixed);
    }
  }

  lemma LoadArmIndex(v: Variant, i: nat, fixed: bool)
    ensures LoadArmOf(v, i, fixed).Returns? ==> LoadArmOf(v, i, fixed).value.index == i % 0x1_0000_0000
  {
  }

  /** A tuple variant with an `#[unsaved]` field. */
  predicate HasUnsavedTupleField(v: Variant)
  {
    v.fields.Unnamed? && Unsaved(v.fields.unnamed) != []
  }

  /** `enumerator` panics exactly when some tuple variant has an `#[unsaved]` field. */
  lemma EnumeratorPanics(vs: seq<Variant>, name: string, fixed: bool)
    ensures EnumImpl(vs, name, fixed).Panics? <==> exists i :: 0 <= i < |vs| && HasUnsavedTupleField(vs[i])
    ensures EnumImpl(vs, name, fixed).Panics? ==> EnumImpl(vs, name, fixed).message == UnsavedTupleField
  {
    var kind := DiscFor(|vs|);
    var ss := SaveArmsOf(vs, kind);
    var ls := LoadArmsOf(vs, fixed);
    forall i | 0 <= i < |vs|
      ensures ss[i].Panics? <==> HasUnsavedTupleField(vs[i])
      ensures ls[i].Panics? <==> HasUnsavedTupleField(vs[i])
      ensures ss[i].Panics? ==> ss[i].message == UnsavedTupleField
    {
      ArmPanics(vs[i], i, kind, fixed);
    }
    match Collect(ss)
    case Panics(m) =>
      var i :| 0 <= i < |ss| && ss[i] == Panics(m) && forall j :: 0 <= j < i ==> ss[j].Returns?;
    case Returns(_) =>
      match Collect(ls)
      case Panics(_) => assert false;
      case Returns(_) =>
  }

  /** One variant's save and load arms panic together, for a tuple variant with an unsaved field. */
  lemma ArmPanics(v: Variant, i: nat, kind: DiscKind, fixed: bool)
    ensures SaveArmOf(v, i, kind).Panics? <==> HasUnsavedTupleField(v)
    ensures LoadArmOf(v, i, fixed).Panics? <==> HasUnsavedTupleField(v)
    ensures SaveArmOf(v, i, kind).Panics? ==> SaveArmOf(v, i, kind).message == UnsavedTupleField
  {
  }

  /** The arms `enumerator` emits are, variant by variant, the arms of module Layout with each
      field's own `Savable` impl. */
  lemma EnumeratorArms(vs: seq<Variant>, name: string) returns (saves: seq<SaveArm>, loads: seq<LoadArm>)
    requires Enumerator(vs, name).Returns?
    ensures Enumerator(vs, name).value == Impl(SavableTrait, name, SaveMatch(saves), LoadMatch(DiscFor(|vs|), loads, name))
    ensures |saves| == |vs| && forall i :: 0 <= i < |vs| ==> saves[i] == VariantSaveArm(vs[i], i, DiscFor(|vs|), PlainCodec)
    ensures |loads| == |vs| && forall i :: 0 <= i < |vs| ==> loads[i] == LoadArm(i % 0x1_0000_0000, VariantLoadBody(vs[i], PlainCodec))
  {
    saves, loads := EnumParts(vs, name, true);
    forall i | 0 <= i < |vs|
      ensures saves[i] == VariantSaveArm(vs[i], i, DiscFor(|vs|), PlainCodec)
      ensures loads[i] == LoadArm(i % 0x1_0000_0000, VariantLoadBody(vs[i], PlainCodec))
    {
      if vs[i].fields.Unnamed? {
        var fs := vs[i].fields.unnamed;
        AllSaved(fs);
      }
    }
  }

  /** `enumerator`: saving a value of variant k writes k, as the narrowest of u8, u16, u32
      that holds every index, and then the variant's saved fields; loading those bytes gives
      the value back with its unsaved fields defaulted and leaves what follows. */
  lemma EnumeratorRoundTrip<V>(env: Env<V>, vs: seq<Variant>, name: string, x: Obj<V>, k: nat, rest: seq<byte>)
    requires Enumerator(vs, name).Returns? && WellFormedVariants(vs)
    requires k < |vs| && VariantShaped(x, vs[k]) && VariantCodecsInvert(env, x, vs[k], PlainCodec)
    requires DiscInverts(env, DiscFor(|vs|), k)
    ensures VariantFieldsPresent(x, vs[k])
    ensures var impl := Enumerator(vs, name).value;
      SaveOf(env, impl, x) == Some(env.discSave(DiscFor(|vs|), k) + VariantBytes(env, x, vs[k], PlainCodec)) &&
      var r := LoadOf(env, impl, SaveOf(env, impl, x).value + rest);
      r.Some? && r.value.rest == rest && r.value.result.Ok? && VariantRestored(env, r.value.result.value, x, vs[k])
  {
    var saves, loads := EnumeratorArms(vs, name);
    EnumRoundTrip(env, SavableTrait, name, vs, DiscFor(|vs|), PlainCodec, saves, loads, x, k, rest);
  }

  /** A discriminant that names no variant (after `as u32`) makes `load` fail with
      "Failed to load <name> from loader!" and consume only the discriminant. */
  lemma EnumeratorUnknown<V>(env: Env<V>, vs: seq<Variant>, name: string, s: seq<byte>, d: nat, rest: seq<byte>)
    requires Enumerator(vs, name).Returns?
    requires env.discLoad(DiscFor(|vs|), s) == Loaded(Ok(d), rest) && d % 0x1_0000_0000 >= |vs|
    ensures LoadOf(env, Enumerator(vs, name).value, s) == Some(Loaded(Err(UnknownVariant(name)), rest))
  {
    var saves, loads := EnumParts(vs, name, true);
    forall j | 0 <= j < |loads| ensures loads[j].index != d % 0x1_0000_0000 {
      ModAtMost(j, 0x1_0000_0000);
    }
    LoadOfUnknown(env, Enumerator(vs, name).value, s, d, rest);
  }

  /** As written, a struct variant with no saved field gets the load arm `V { , d1, .. }`,
      which does not compile; the corrected arm is what Layout's round trip describes. */
  lemma EnumeratorAsWrittenNoSavedField<V>(env: Env<V>, vs: seq<Variant>, name: string, k: nat, s: seq<byte>)
    requires EnumeratorAsWritten(vs, name).Returns?
    requires k < |vs| && vs[k].fields.Named? && Saved(vs[k].fields.named) == []
    ensures ExecBody(env, EnumeratorAsWritten(vs, name).value.load.arms[k].body, s) == None
  {
    var saves, loads := EnumParts(vs, name, false);
    var fs := vs[k].fields.named;
    assert EnumeratorAsWritten(vs, name).value.load.arms[k] == loads[k];
    var body := NamedLoad(Some(vs[k].ident), [], Unsaved(fs), PlainCodec, true);
    assert loads[k] == LoadArm(k % 0x1_0000_0000, body);
    DefaultLetsRun(env, fs, Some(vs[k].ident), true, s);
    assert !LiteralCompiles(Names(Saved(fs)), Names(Unsaved(fs)), true);
  }
}
