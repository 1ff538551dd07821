/** The second `Savable` generator of the proc-macro crate (Proc/src/savable2.rs): fields may
    carry `#[custom(save = f, load = g)]`, which replaces the field type's own impl by the two
    functions; enums may write their discriminant as a varint; and a struct with named fields
    gets a `Savable2` impl whose `load_into` overwrites the fields of an existing value. */
module Savable2 {
  import opened Wrappers
  import opened Bytes
  import opened Save
  import opened Shape
  import opened Generated
  import opened Layout
  import Savable

  const CustomArity := "Expected 'save' and 'load' values for custom attribute"
  const CustomPaths := "Expected 'save' and 'load' to be path attributes to saving and loading function"
  const CustomLoadInto := "Custom not supported in Savable2 get rekt"
  /** The panic of `.unwrap()` on a failed parse of the attribute's arguments, up to the
      `Debug` text of the `syn` error that `Result::unwrap` appends after it. */
  const ParseUnwrap := "called `Result::unwrap()` on an `Err` value: "

  // ---------------------------------------------------------------------------------------
  // `#[custom(save = f, load = g)]`

  /** What one attribute contributes to `get_custom`: nothing unless it is a list attribute
      with a `custom` segment; then its two paths, or the panic its arguments provoke. */
  function CustomOfAttr(m: Meta): Option<Fallible<(Path, Path)>>
  {
    if m.MetaList? && HasSegment(m.path, "custom") then
      Some(match m.args
        case KeyValues(vals) =>
          if |vals| != 2 then Panics(CustomArity)
          else if vals[0].key != "save" || vals[1].key != "load" then Panics(CustomArity)
          else if !vals[0].value.PathExpr? || !vals[1].value.PathExpr? then Panics(CustomPaths)
          else Returns((vals[0].value.path, vals[1].value.path))
        case _ => Panics(ParseUnwrap))
    else None
  }

  /** The custom attribute's result as `get_custom` returns it. */
  function AsFound(c: Fallible<(Path, Path)>): Fallible<Option<(Path, Path)>>
  {
    match c
    case Panics(m) => Panics(m)
    case Returns(p) => Returns(Some(p))
  }

  /** `get_custom`: the attributes are searched lazily, so the first custom attribute decides;
      without one the field has no custom functions. */
  function GetCustom(attrs: seq<Meta>): (r: Fallible<Option<(Path, Path)>>)
    ensures r == Returns(None) <==> forall i :: 0 <= i < |attrs| ==> CustomOfAttr(attrs[i]).None?
  {
    if attrs == [] then Returns(None)
    else
      match CustomOfAttr(attrs[0])
      case None =>
        assert forall i :: 1 <= i < |attrs| ==> attrs[1..][i - 1] == attrs[i];
        GetCustom(attrs[1..])
      case Some(c) => AsFound(c)
  }

  /** A field with a custom attribute gets what the first of them says, whatever follows it. */
  lemma {:induction false} GetCustomFirst(attrs: seq<Meta>, i: nat)
    requires i < |attrs| && CustomOfAttr(attrs[i]).Some?
    requires forall j :: 0 <= j < i ==> CustomOfAttr(attrs[j]).None?
    ensures GetCustom(attrs) == AsFound(CustomOfAttr(attrs[i]).value)
  {
    if i > 0 {
      assert forall j :: 0 <= j < i - 1 ==> attrs[1..][j] == attrs[j + 1];
      GetCustomFirst(attrs[1..], i - 1);
    }
  }

  /** A custom attribute is accepted exactly when it reads `custom(save = <path>, load = <path>)`. */
  lemma CustomAttrAccepted(m: Meta, s: Path, l: Path)
    requires m.MetaList? && HasSegment(m.path, "custom")
    ensures CustomOfAttr(m) == Some(Returns((s, l))) <==>
      m.args == KeyValues([KeyValue("save", PathExpr(s)), KeyValue("load", PathExpr(l))])
  {
    if m.args == KeyValues([KeyValue("save", PathExpr(s)), KeyValue("load", PathExpr(l))]) {
      assert CustomOfAttr(m) == Some(Returns((s, l)));
    }
  }

  /** The field's custom functions, or the codec given for a field without them. */
  function CustomOr(f: Field, plain: Codec): Codec
  {
    match GetCustom(f.attrs)
    case Returns(Some((s, l))) => Codec(CustomSave(s), CustomLoad(l))
    case _ => plain
  }

  /** Enum fields: the custom functions, or `mvutils::save::Savable` of the field type. */
  function CustomCodec(f: Field): Codec
  {
    CustomOr(f, PlainCodec(f))
  }

  /** `fields.map(|f| (f, get_custom(f))).collect()`: the first panic aborts the expansion. */
  function CustomsOf(fields: seq<Field>): (r: Fallible<seq<Option<(Path, Path)>>>)
    ensures r.Panics? <==> exists k :: 0 <= k < |fields| && GetCustom(fields[k].attrs).Panics?
    ensures r.Returns? ==> |r.value| == |fields| && forall k :: 0 <= k < |fields| ==> GetCustom(fields[k].attrs) == Returns(r.value[k])
  {
    var cs := seq(|fields|, k requires 0 <= k < |fields| => GetCustom(fields[k].attrs));
    assert forall k :: 0 <= k < |fields| ==> cs[k] == GetCustom(fields[k].attrs);
    Collect(cs)
  }

  // ---------------------------------------------------------------------------------------
  // Named structs: `Savable2` with `load_into`

  /** `save` of a field: the custom save function, or `mvutils::save2::Savable2::save`. */
  function Savable2FieldCodec(f: Field): Codec
  {
    CustomOr(f, Codec(Savable2Codec(f.ty), Savable2Codec(f.ty)))
  }

  /** `self.x.load_into(loader)?;` per saved field. */
  function LoadIntoSteps(saved: seq<Field>): seq<LoadIntoStmt>
  {
    seq(|saved|, k requires 0 <= k < |saved| => LoadIntoField(saved[k].name, Savable2Codec(saved[k].ty)))
  }

  /** `self.x = <T as Default>::default();` per unsaved field: the assignment the generator
      evidently means. */
  function DefaultSteps(unsaved: seq<Field>): seq<LoadIntoStmt>
  {
    seq(|unsaved|, k requires 0 <= k < |unsaved| => AssignDefault(unsaved[k].name, unsaved[k].ty))
  }

  /** `*self.#name = <#ty as Default>::default();` per unsaved field, as written: a dereference
      of the field, which does not compile. */
  function DerefDefaultSteps(unsaved: seq<Field>): seq<LoadIntoStmt>
  {
    seq(|unsaved|, k requires 0 <= k < |unsaved| => DerefAssignDefault(unsaved[k].name, unsaved[k].ty))
  }

  /** The impl `named` returns when no saved field has a custom attribute, with the unsaved
      fields' defaults assigned by the given steps. */
  function NamedImplWith(fs: seq<Field>, name: string, defaults: seq<LoadIntoStmt>): Impl
  {
    Impl(Savable2Trait, name,
      SaveFields(NamedSave(Saved(fs), Savable2FieldCodec, true)),
      LoadIntoFields(LoadIntoSteps(Saved(fs)) + defaults))
  }

  /** The corrected impl: `self.x = ..` for the defaults. */
  function NamedImpl(fs: seq<Field>, name: string): Impl
  {
    NamedImplWith(fs, name, DefaultSteps(Unsaved(fs)))
  }

  /** The custom functions of the saved fields are looked up first; a saved field that has
      them makes the generation of `load_into` panic. */
  function NamedGen(fs: seq<Field>, impl: Impl): Fallible<Impl>
  {
    match CustomsOf(Saved(fs))
    case Panics(m) => Panics(m)
    case Returns(cs) =>
      if exists k :: 0 <= k < |cs| && cs[k].Some? then Panics(CustomLoadInto)
      else Returns(impl)
  }

  /** `named` as written, whose defaults are `*self.x = ..`. */
  function NamedAsWritten(fs: seq<Field>, name: string): Fallible<Impl>
  {
    NamedGen(fs, NamedImplWith(fs, name, DerefDefaultSteps(Unsaved(fs))))
  }

  /** `named` with the defaults assigned to the fields, `self.x = ..`. */
  function Named(fs: seq<Field>, name: string): Fallible<Impl>
  {
    NamedGen(fs, NamedImpl(fs, name))
  }

  /** As written, `named` panics exactly when the corrected one does. Without an unsaved field
      the two emit the same impl; with one, the emitted `load_into` does not compile, so it
      has no behaviour whatever the value and the loader hold. */
  lemma NamedAsWrittenUnsavedField<V>(env: Env<V>, fs: seq<Field>, name: string, y0: Obj<V>, s: seq<byte>)
    ensures NamedAsWritten(fs, name).Panics? <==> Named(fs, name).Panics?
    ensures Unsaved(fs) == [] ==> NamedAsWritten(fs, name) == Named(fs, name)
    ensures Unsaved(fs) != [] && NamedAsWritten(fs, name).Returns? ==>
      LoadIntoOf(env, NamedAsWritten(fs, name).value, y0, s) == None
  {
    var u := Unsaved(fs);
    if u == [] {
      assert DerefDefaultSteps(u) == [] == DefaultSteps(u);
    } else if NamedAsWritten(fs, name).Returns? {
      var steps := LoadIntoSteps(Saved(fs)) + DerefDefaultSteps(u);
      assert steps[|LoadIntoSteps(Saved(fs))|] == DerefAssignDefault(u[0].name, u[0].ty);
      assert !LoadIntoCompiles(steps);
    }
  }

  /** A saved field with a custom attribute, well-formed or not, stops `named`; an unsaved one does not. */
  lemma NamedPanics(fs: seq<Field>, name: string)
    ensures Named(fs, name).Panics? <==> exists k :: 0 <= k < |Saved(fs)| && GetCustom(Saved(fs)[k].attrs) != Returns(None)
    ensures Named(fs, name).Panics? && (forall k :: 0 <= k < |Saved(fs)| ==> GetCustom(Saved(fs)[k].attrs).Returns?) ==>
      Named(fs, name).message == CustomLoadInto
  {
    var saved := Saved(fs);
    match CustomsOf(saved)
    case Returns(cs) => CustomsFound(saved, cs);
    case Panics(m) => CustomsPanic(saved);
  }

  /** Once every saved field's attributes parse, one of them names custom functions exactly when
      some saved field's lookup does not come back empty. */
  lemma CustomsFound(saved: seq<Field>, cs: seq<Option<(Path, Path)>>)
    requires CustomsOf(saved) == Returns(cs)
    ensures (exists k :: 0 <= k < |cs| && cs[k].Some?) <==> exists k :: 0 <= k < |saved| && GetCustom(saved[k].attrs) != Returns(None)
  {
    if exists k :: 0 <= k < |saved| && GetCustom(saved[k].attrs) != Returns(None) {
      var k :| 0 <= k < |saved| && GetCustom(saved[k].attrs) != Returns(None);
      assert cs[k].Some?;
    }
  }

  /** A lookup that panics is one that does not come back empty. */
  lemma CustomsPanic(saved: seq<Field>)
    requires CustomsOf(saved).Panics?
    ensures exists k :: 0 <= k < |saved| && GetCustom(saved[k].attrs) != Returns(None)
    ensures !forall k :: 0 <= k < |saved| ==> GetCustom(saved[k].attrs).Returns?
  {
    var k :| 0 <= k < |saved| && GetCustom(saved[k].attrs).Panics?;
  }

  /** In an impl `named` returns, every saved field goes through its type's `Savable2` impl. */
  lemma NamedCodecs(fs: seq<Field>, name: string)
    requires Named(fs, name).Returns?
    ensures forall k :: 0 <= k < |Saved(fs)| ==>
      Savable2FieldCodec(Saved(fs)[k]) == Codec(Savable2Codec(Saved(fs)[k].ty), Savable2Codec(Saved(fs)[k].ty))
  {
    NamedPanics(fs, name);
  }

  /** The value after assigning vs[i] to the field names[i], in order. */
  function SetFields<V>(y: Obj<V>, names: seq<string>, vs: seq<V>): Obj<V>
    requires |names| == |vs|
    decreases |names|
  {
    if names == [] then y else SetFields(y.(fields := y.fields[FieldName(names[0]) := vs[0]]), names[1..], vs[1..])
  }

  /** Assigning distinct fields: each holds its value, the others keep theirs, no field appears. */
  lemma {:induction false} SetFieldsLookup<V>(y: Obj<V>, names: seq<string>, vs: seq<V>)
    requires |names| == |vs| && Distinct(names)
    requires forall k :: 0 <= k < |names| ==> FieldName(names[k]) in y.fields
    ensures SetFields(y, names, vs).variant == y.variant
    ensures SetFields(y, names, vs).fields.Keys == y.fields.Keys
    ensures forall k :: 0 <= k < |names| ==> SetFields(y, names, vs).fields[FieldName(names[k])] == vs[k]
    ensures forall m :: m in y.fields && (forall k :: 0 <= k < |names| ==> m != FieldName(names[k])) ==>
      SetFields(y, names, vs).fields[m] == y.fields[m]
    decreases |names|
  {
    if names != [] {
      var y' := y.(fields := y.fields[FieldName(names[0]) := vs[0]]);
      assert forall k :: 0 <= k < |names[1..]| ==> names[1..][k] == names[k + 1];
      SetFieldsLookup(y', names[1..], vs[1..]);
      var r := SetFields(y, names, vs);
      assert r == SetFields(y', names[1..], vs[1..]);
      forall k | 0 <= k < |names| ensures r.fields[FieldName(names[k])] == vs[k] {
        if k > 0 {
          assert names[1..][k - 1] == names[k];
        } else {
          forall j | 0 <= j < |names[1..]| ensures FieldName(names[0]) != FieldName(names[1..][j]) {
            assert names[1..][j] == names[j + 1];
          }
        }
      }
      forall m | m in y.fields && (forall k :: 0 <= k < |names| ==> m != FieldName(names[k]))
        ensures r.fields[m] == y.fields[m]
      {
        assert m != FieldName(names[0]);
        forall j | 0 <= j < |names[1..]| ensures m != FieldName(names[1..][j]) {
          assert names[1..][j] == names[j + 1];
        }
      }
    }
  }

  /** Assigning two disjoint lists of fields one after the other: each field holds its value. */
  lemma SetBothLookup<V>(y: Obj<V>, a: seq<string>, va: seq<V>, b: seq<string>, vb: seq<V>)
    requires |a| == |va| && |b| == |vb| && Distinct(a + b)
    requires forall k :: 0 <= k < |a| ==> FieldName(a[k]) in y.fields
    requires forall k :: 0 <= k < |b| ==> FieldName(b[k]) in y.fields
    ensures SetFields(SetFields(y, a, va), b, vb).variant == y.variant
    ensures SetFields(SetFields(y, a, va), b, vb).fields.Keys == y.fields.Keys
    ensures forall k :: 0 <= k < |a| ==> SetFields(SetFields(y, a, va), b, vb).fields[FieldName(a[k])] == va[k]
    ensures forall k :: 0 <= k < |b| ==> SetFields(SetFields(y, a, va), b, vb).fields[FieldName(b[k])] == vb[k]
  {
    DistinctAppend(a, b);
    SetFieldsLookup(y, a, va);
    var y1 := SetFields(y, a, va);
    SetFieldsLookup(y1, b, vb);
    forall k | 0 <= k < |a| ensures SetFields(y1, b, vb).fields[FieldName(a[k])] == va[k] {
      forall m | 0 <= m < |b| ensures FieldName(a[k]) != FieldName(b[m]) {
        assert a[k] != b[m];
      }
    }
  }

  /** `self.x.load_into(loader)?` field after field, over what the fields' `save` wrote, assigns
      each field its value and leaves the loader after the last one. */
  lemma {:induction false} LoadIntoStepsRun<V>(env: Env<V>, saved: seq<Field>, cf: Field -> Codec, vs: seq<V>, more: seq<LoadIntoStmt>,
                                               y: Obj<V>, rest: seq<byte>)
    requires |vs| == |saved|
    requires forall k :: 0 <= k < |saved| ==> FieldName(saved[k].name) in y.fields
    requires forall k :: 0 <= k < |saved| ==> Inverts(env, cf(saved[k]).save, Savable2Codec(saved[k].ty), vs[k])
    ensures ExecLoadInto(env, LoadIntoSteps(saved) + more, y, SavesBytes(env, SaveCodecs(saved, cf), vs) + rest)
         == ExecLoadInto(env, more, SetFields(y, Names(saved), vs), rest)
    decreases |saved|
  {
    var bytes := SavesBytes(env, SaveCodecs(saved, cf), vs);
    if saved == [] {
      assert LoadIntoSteps(saved) + more == more;
      assert bytes + rest == rest;
    } else {
      var c := Savable2Codec(saved[0].ty);
      var sc := cf(saved[0]).save;
      var tail := SavesBytes(env, SaveCodecs(saved[1..], cf), vs[1..]) + rest;
      assert SaveCodecs(saved, cf)[0] == sc;
      assert SaveCodecs(saved, cf)[1..] == SaveCodecs(saved[1..], cf);
      assert bytes + rest == env.save(sc, vs[0]) + tail;
      assert env.load(c, env.save(sc, vs[0]) + tail) == Loaded(Ok(vs[0]), tail);
      assert (LoadIntoSteps(saved) + more)[0] == LoadIntoField(saved[0].name, c);
      assert (LoadIntoSteps(saved) + more)[1..] == LoadIntoSteps(saved[1..]) + more;
      var y' := y.(fields := y.fields[FieldName(saved[0].name) := vs[0]]);
      LoadIntoStepsRun(env, saved[1..], cf, vs[1..], more, y', rest);
      assert Names(saved)[1..] == Names(saved[1..]);
    }
  }

  /** The defaults step by step: every unsaved field gets its type's `Default`, nothing is read. */
  lemma {:induction false} DefaultStepsRun<V>(env: Env<V>, unsaved: seq<Field>, y: Obj<V>, s: seq<byte>)
    requires forall k :: 0 <= k < |unsaved| ==> FieldName(unsaved[k].name) in y.fields
    ensures ExecLoadInto(env, DefaultSteps(unsaved), y, s) == Some((SetFields(y, Names(unsaved), DefaultValues(env, unsaved)), Loaded(Ok(Unit), s)))
    decreases |unsaved|
  {
    if unsaved != [] {
      var y' := y.(fields := y.fields[FieldName(unsaved[0].name) := env.default(unsaved[0].ty)]);
      assert DefaultSteps(unsaved)[1..] == DefaultSteps(unsaved[1..]);
      DefaultStepsRun(env, unsaved[1..], y', s);
      assert Names(unsaved)[1..] == Names(unsaved[1..]);
      assert DefaultValues(env, unsaved)[1..] == DefaultValues(env, unsaved[1..]);
    }
  }


  /** The value `load_into` leaves: the saved fields assigned in order, then the defaults. */
  function LoadedInto<V>(env: Env<V>, y0: Obj<V>, fs: seq<Field>, vs: seq<V>): Obj<V>
    requires |vs| == |Saved(fs)|
  {
    SetFields(SetFields(y0, Names(Saved(fs)), vs), Names(Unsaved(fs)), DefaultValues(env, Unsaved(fs)))
  }

  /** `load_into` over what the saved fields' `save` wrote assigns them, then the defaults. */
  lemma NamedLoadIntoRuns<V>(env: Env<V>, fs: seq<Field>, name: string, cf: Field -> Codec, vs: seq<V>, y0: Obj<V>, rest: seq<byte>)
    requires HasNamedFields(y0, fs) && |vs| == |Saved(fs)|
    requires forall k :: 0 <= k < |Saved(fs)| ==> Inverts(env, cf(Saved(fs)[k]).save, Savable2Codec(Saved(fs)[k].ty), vs[k])
    ensures LoadIntoOf(env, NamedImpl(fs, name), y0, SavesBytes(env, SaveCodecs(Saved(fs), cf), vs) + rest) ==
      Some((LoadedInto(env, y0, fs, vs), Loaded(Ok(Unit), rest)))
  {
    var saved, unsaved := Saved(fs), Unsaved(fs);
    var bytes := SavesBytes(env, SaveCodecs(saved, cf), vs);
    SavedInX(fs, y0);
    LoadIntoStepsRun(env, saved, cf, vs, DefaultSteps(unsaved), y0, rest);
    var y1 := SetFields(y0, Names(saved), vs);
    UnsavedAfterSaved(fs, y0, vs);
    DefaultStepsRun(env, unsaved, y1, rest);
    assert LoadIntoOf(env, NamedImpl(fs, name), y0, bytes + rest) ==
      ExecLoadInto(env, LoadIntoSteps(saved) + DefaultSteps(unsaved), y0, bytes + rest);
  }

  /** Assigning the saved fields keeps every unsaved field in place for its default. */
  lemma UnsavedAfterSaved<V>(fs: seq<Field>, y0: Obj<V>, vs: seq<V>)
    requires HasNamedFields(y0, fs) && |vs| == |Saved(fs)|
    requires forall k :: 0 <= k < |Saved(fs)| ==> FieldName(Saved(fs)[k].name) in y0.fields
    ensures forall k :: 0 <= k < |Unsaved(fs)| ==> FieldName(Unsaved(fs)[k].name) in SetFields(y0, Names(Saved(fs)), vs).fields
  {
    SetFieldsKeys(y0, Names(Saved(fs)), vs);
    UnsavedInX(fs, y0);
  }

  /** The value `load_into` leaves has x's saved fields and the defaults of the unsaved ones. */
  lemma LoadedIntoRestored<V>(env: Env<V>, fs: seq<Field>, x: Obj<V>, y0: Obj<V>)
    requires NamesDistinct(fs) && HasNamedFields(x, fs) && HasNamedFields(y0, fs) && y0.variant == x.variant
    requires forall k :: 0 <= k < |Saved(fs)| ==> FieldName(Saved(fs)[k].name) in x.fields
    ensures NamedRestored(env, LoadedInto(env, y0, fs, NamedValues(x, Saved(fs))), x, fs)
  {
    var saved, unsaved := Saved(fs), Unsaved(fs);
    var y2 := LoadedInto(env, y0, fs, NamedValues(x, saved));
    LoadedIntoSaved(env, fs, NamedValues(x, saved), y0);
    LoadedIntoUnsaved(env, fs, NamedValues(x, saved), y0);
    forall i | 0 <= i < |fs|
      ensures FieldName(fs[i].name) in y2.fields && FieldName(fs[i].name) in x.fields
      ensures y2.fields[FieldName(fs[i].name)] == if IsSaved(fs[i]) then x.fields[FieldName(fs[i].name)] else env.default(fs[i].ty)
    {
      if IsSaved(fs[i]) {
        var k := SavedPos(fs, i);
        assert NamedValues(x, saved)[k] == x.fields[FieldName(saved[k].name)];
      } else {
        var k := UnsavedPos(fs, i);
      }
    }
    SameFields(fs, x, y0);
  }

  /** `load_into` keeps the variant and the field keys, and leaves vs[k] in the k-th saved field. */
  lemma LoadedIntoSaved<V>(env: Env<V>, fs: seq<Field>, vs: seq<V>, y0: Obj<V>)
    requires NamesDistinct(fs) && HasNamedFields(y0, fs) && |vs| == |Saved(fs)|
    ensures LoadedInto(env, y0, fs, vs).variant == y0.variant
    ensures LoadedInto(env, y0, fs, vs).fields.Keys == y0.fields.Keys
    ensures forall k :: 0 <= k < |Saved(fs)| ==>
      (FieldName(Saved(fs)[k].name) in LoadedInto(env, y0, fs, vs).fields &&
       LoadedInto(env, y0, fs, vs).fields[FieldName(Saved(fs)[k].name)] == vs[k])
  {
    var saved, unsaved := Saved(fs), Unsaved(fs);
    var ds := DefaultValues(env, unsaved);
    SavedInX(fs, y0);
    UnsavedInX(fs, y0);
    SplitNamesDistinct(fs);
    SetBothLookup(y0, Names(saved), vs, Names(unsaved), ds);
    var y2 := LoadedInto(env, y0, fs, vs);
    forall k | 0 <= k < |saved|
      ensures FieldName(saved[k].name) in y2.fields && y2.fields[FieldName(saved[k].name)] == vs[k]
    {
      assert Names(saved)[k] == saved[k].name;
    }
  }

  /** `load_into` leaves its type's default in each unsaved field. */
  lemma LoadedIntoUnsaved<V>(env: Env<V>, fs: seq<Field>, vs: seq<V>, y0: Obj<V>)
    requires NamesDistinct(fs) && HasNamedFields(y0, fs) && |vs| == |Saved(fs)|
    ensures forall k :: 0 <= k < |Unsaved(fs)| ==>
      (FieldName(Unsaved(fs)[k].name) in LoadedInto(env, y0, fs, vs).fields &&
       LoadedInto(env, y0, fs, vs).fields[FieldName(Unsaved(fs)[k].name)] == env.default(Unsaved(fs)[k].ty))
  {
    var saved, unsaved := Saved(fs), Unsaved(fs);
    var ds := DefaultValues(env, unsaved);
    SavedInX(fs, y0);
    UnsavedInX(fs, y0);
    SplitNamesDistinct(fs);
    SetBothLookup(y0, Names(saved), vs, Names(unsaved), ds);
    var y2 := LoadedInto(env, y0, fs, vs);
    forall k | 0 <= k < |unsaved|
      ensures FieldName(unsaved[k].name) in y2.fields && y2.fields[FieldName(unsaved[k].name)] == env.default(unsaved[k].ty)
    {
      assert Names(unsaved)[k] == unsaved[k].name && ds[k] == env.default(unsaved[k].ty);
    }
  }

  /** Two values with exactly the named fields fs have the same field keys. */
  lemma SameFields<V>(fs: seq<Field>, x: Obj<V>, y: Obj<V>)
    requires HasNamedFields(x, fs) && HasNamedFields(y, fs)
    ensures x.fields.Keys == y.fields.Keys
  {
    forall m | m in y.fields ensures m in x.fields {
      var i :| 0 <= i < |fs| && m == FieldName(fs[i].name);
    }
    forall m | m in x.fields ensures m in y.fields {
      var i :| 0 <= i < |fs| && m == FieldName(fs[i].name);
    }
  }

  /** `named`: `save` writes the saved fields in declaration order, each through its type's
      `Savable2` impl; `load_into`, given any value y0 with the struct's fields, reads them back
      from those bytes into y0, gives every unsaved field its type's default, returns `Ok(())`
      and leaves the loader just after the saved bytes. */
  lemma NamedLoadIntoRoundTrip<V>(env: Env<V>, fs: seq<Field>, name: string, x: Obj<V>, y0: Obj<V>, rest: seq<byte>)
    requires Named(fs, name).Returns? && NamesDistinct(fs)
    requires HasNamedFields(x, fs) && HasNamedFields(y0, fs) && y0.variant == x.variant
    requires NamedCodecsInvert(env, x, fs, Savable2FieldCodec)
    ensures forall k :: 0 <= k < |Saved(fs)| ==> FieldName(Saved(fs)[k].name) in x.fields
    ensures SaveOf(env, Named(fs, name).value, x) == Some(NamedBytes(env, x, Saved(fs), Savable2FieldCodec))
    ensures var r := LoadIntoOf(env, Named(fs, name).value, y0, NamedBytes(env, x, Saved(fs), Savable2FieldCodec) + rest);
      r.Some? && r.value.1 == Loaded(Ok(Unit), rest) && NamedRestored(env, r.value.0, x, fs)
  {
    var saved := Saved(fs);
    NamedIsImpl(fs, name);
    SavedInX(fs, x);
    NamedSaveRuns(env, saved, Savable2FieldCodec, true, x, map[]);
    var vs := NamedValues(x, saved);
    forall k | 0 <= k < |saved| ensures Inverts(env, Savable2FieldCodec(saved[k]).save, Savable2Codec(saved[k].ty), vs[k]) {
      var i := SavedOrigin(fs, k);
    }
    NamedLoadIntoRuns(env, fs, name, Savable2FieldCodec, vs, y0, rest);
    LoadedIntoRestored(env, fs, x, y0);
  }

  /** An impl `named` returns is `NamedImpl`, and its saved fields go through `Savable2`. */
  lemma NamedIsImpl(fs: seq<Field>, name: string)
    requires Named(fs, name).Returns?
    ensures Named(fs, name).value == NamedImpl(fs, name)
    ensures forall k :: 0 <= k < |Saved(fs)| ==>
      Savable2FieldCodec(Saved(fs)[k]) == Codec(Savable2Codec(Saved(fs)[k].ty), Savable2Codec(Saved(fs)[k].ty))
  {
    NamedCodecs(fs, name);
  }

  /** `load_into` is not all or nothing: when the saved field k fails to load, the fields
      before it already hold their new values, the others keep theirs, and the error is
      returned. */
  lemma NamedLoadIntoPartial<V>(env: Env<V>, fs: seq<Field>, name: string, y0: Obj<V>, k: nat, vs: seq<V>, s: seq<byte>, e: string)
    requires Named(fs, name).Returns? && HasNamedFields(y0, fs)
    requires k < |Saved(fs)| && |vs| == k
    requires forall j :: 0 <= j < k ==> Inverts(env, Savable2Codec(Saved(fs)[j].ty), Savable2Codec(Saved(fs)[j].ty), vs[j])
    requires env.load(Savable2Codec(Saved(fs)[k].ty), s).result == Err(e)
    ensures var r := LoadIntoOf(env, Named(fs, name).value, y0, SavesBytes(env, SaveCodecs(Saved(fs)[..k], Savable2FieldCodec), vs) + s);
      r == Some((SetFields(y0, Names(Saved(fs)[..k]), vs), Loaded(Err(e), env.load(Savable2Codec(Saved(fs)[k].ty), s).rest)))
  {
    NamedIsImpl(fs, name);
    SavedInX(fs, y0);
    LoadIntoPrefixFails(env, Saved(fs), Unsaved(fs), y0, k, vs, s, e);
  }

  lemma LoadIntoPrefixFails<V>(env: Env<V>, saved: seq<Field>, unsaved: seq<Field>, y0: Obj<V>, k: nat, vs: seq<V>, s: seq<byte>, e: string)
    requires forall j :: 0 <= j < |saved| ==> FieldName(saved[j].name) in y0.fields
    requires k < |saved| && |vs| == k
    requires forall j :: 0 <= j < k ==> Savable2FieldCodec(saved[j]) == Codec(Savable2Codec(saved[j].ty), Savable2Codec(saved[j].ty))
    requires forall j :: 0 <= j < k ==> Inverts(env, Savable2Codec(saved[j].ty), Savable2Codec(saved[j].ty), vs[j])
    requires env.load(Savable2Codec(saved[k].ty), s).result == Err(e)
    ensures ExecLoadInto(env, LoadIntoSteps(saved) + DefaultSteps(unsaved), y0, SavesBytes(env, SaveCodecs(saved[..k], Savable2FieldCodec), vs) + s) ==
      Some((SetFields(y0, Names(saved[..k]), vs), Loaded(Err(e), env.load(Savable2Codec(saved[k].ty), s).rest)))
  {
    var pre := saved[..k];
    var more := LoadIntoSteps(saved[k..]) + DefaultSteps(unsaved);
    StepsSplit(saved, unsaved, k);
    forall j | 0 <= j < |pre|
      ensures FieldName(pre[j].name) in y0.fields && Inverts(env, Savable2FieldCodec(pre[j]).save, Savable2Codec(pre[j].ty), vs[j])
    {
      assert pre[j] == saved[j];
    }
    LoadIntoStepsRun(env, pre, Savable2FieldCodec, vs, more, y0, s);
    var y1 := SetFields(y0, Names(pre), vs);
    SetFieldsKeys(y0, Names(pre), vs);
    assert saved[k..][0] == saved[k];
    FailingStep(env, saved[k], more, y1, s, e);
  }

  /** The steps of `load_into`, cut after the saved field k - 1. */
  lemma StepsSplit(saved: seq<Field>, unsaved: seq<Field>, k: nat)
    requires k < |saved|
    ensures LoadIntoSteps(saved) + DefaultSteps(unsaved) == LoadIntoSteps(saved[..k]) + (LoadIntoSteps(saved[k..]) + DefaultSteps(unsaved))
    ensures (LoadIntoSteps(saved[k..]) + DefaultSteps(unsaved))[0] == LoadIntoField(saved[k].name, Savable2Codec(saved[k].ty))
  {
    assert LoadIntoSteps(saved) == LoadIntoSteps(saved[..k]) + LoadIntoSteps(saved[k..]);
    assert saved[k..][0] == saved[k];
  }

  /** A `load_into` step whose load fails stops the run with that error, leaving the value as it
      is (the field's type loads through the blanket `load_into` of src/save2.rs:14-18). */
  lemma FailingStep<V>(env: Env<V>, f: Field, steps: seq<LoadIntoStmt>, y: Obj<V>, s: seq<byte>, e: string)
    requires steps != [] && steps[0] == LoadIntoField(f.name, Savable2Codec(f.ty)) && FieldName(f.name) in y.fields
    requires env.load(Savable2Codec(f.ty), s).result == Err(e)
    ensures ExecLoadInto(env, steps, y, s) == Some((y, Loaded(Err(e), env.load(Savable2Codec(f.ty), s).rest)))
  {
  }

  /** Assigning fields adds none. */
  lemma {:induction false} SetFieldsKeys<V>(y: Obj<V>, names: seq<string>, vs: seq<V>)
    requires |names| == |vs|
    requires forall k :: 0 <= k < |names| ==> FieldName(names[k]) in y.fields
    ensures SetFields(y, names, vs).fields.Keys == y.fields.Keys
    decreases |names|
  {
    if names != [] {
      var y' := y.(fields := y.fields[FieldName(names[0]) := vs[0]]);
      assert forall k :: 0 <= k < |names[1..]| ==> names[1..][k] == names[k + 1];
      SetFieldsKeys(y', names[1..], vs[1..]);
    }
  }

  // ---------------------------------------------------------------------------------------
  // Tuple structs with `#[custom]`

  /** The save functions of the fields, in order: each field's custom one, or its type's impl. */
  function CustomSaveCodecs(fs: seq<Field>): (r: seq<CodecRef>)
    ensures |r| == |fs| && forall i :: 0 <= i < |fs| ==> r[i] == CustomCodec(fs[i]).save
  {
    seq(|fs|, i requires 0 <= i < |fs| => CustomCodec(fs[i]).save)
  }

  /** The load functions of the fields, in order. */
  function CustomLoadCodecs(fs: seq<Field>): (r: seq<CodecRef>)
    ensures |r| == |fs| && forall i :: 0 <= i < |fs| ==> r[i] == CustomCodec(fs[i]).load
  {
    seq(|fs|, i requires 0 <= i < |fs| => CustomCodec(fs[i]).load)
  }

  /** The tuple-struct `Savable` impl with each field's `#[custom]` honoured, picking the
      functions the way this generator's tuple path does (`#save(saver, &self.#i)` and
      `#load(loader)?`). It keeps the shape of the first generator's `unnamed`, including its
      panic on an `#[unsaved]` field, and is what `test_short_string` evidently expects of
      `#[derive(Savable)]` on a tuple struct. */
  function UnnamedCustom(fs: seq<Field>, name: string): Fallible<Impl>
  {
    if Unsaved(fs) != [] then Panics(Savable.UnsavedTupleField)
    else
      match CustomsOf(fs)
      case Panics(m) => Panics(m)
      case Returns(_) =>
        Returns(Impl(SavableTrait, name,
          SaveFields(SaveStmts(seq(|fs|, i requires 0 <= i < |fs| => (CustomCodec(fs[i]).save, SelfField(FieldIndex(i)))))),
          LoadStruct(LoadBody([], TupleOfLoads(CustomLoadCodecs(fs))))))
  }

  /** Without any `#[custom]` field the corrected tuple generator emits what the first
      generator's `unnamed` does. */
  lemma UnnamedCustomPlain(fs: seq<Field>, name: string)
    requires forall i :: 0 <= i < |fs| ==> GetCustom(fs[i].attrs) == Returns(None)
    ensures UnnamedCustom(fs, name) == Savable.Unnamed(fs, name)
  {
    if Unsaved(fs) == [] {
      AllSaved(fs);
      assert CustomsOf(fs).Returns?;
      assert forall i :: 0 <= i < |fs| ==> CustomCodec(fs[i]) == PlainCodec(fs[i]);
      var saved := Saved(fs);
      assert CustomLoadCodecs(fs) == seq(|saved|, i requires 0 <= i < |saved| => TypeCodec(saved[i].ty));
      assert seq(|fs|, i requires 0 <= i < |fs| => (CustomCodec(fs[i]).save, SelfField(FieldIndex(i)))) ==
        seq(|saved|, i requires 0 <= i < |saved| => (TypeCodec(saved[i].ty), SelfField(FieldIndex(i))));
    }
  }

  /** The corrected tuple generator: `save` writes field 0, 1, .. in order, each through its
      custom save function or its type's impl; `load` reads them back through the matching load
      functions, returns exactly the value saved and leaves the loader after those bytes. */
  lemma UnnamedCustomRoundTrip<V>(env: Env<V>, fs: seq<Field>, name: string, x: Obj<V>, rest: seq<byte>)
    requires UnnamedCustom(fs, name).Returns? && x.variant == None && HasTupleFields(x, |fs|)
    requires forall i :: 0 <= i < |fs| ==> Inverts(env, CustomCodec(fs[i]).save, CustomCodec(fs[i]).load, x.fields[FieldIndex(i)])
    ensures SaveOf(env, UnnamedCustom(fs, name).value, x) == Some(SavesBytes(env, CustomSaveCodecs(fs), Savable.TupleOf(x, |fs|)))
    ensures LoadOf(env, UnnamedCustom(fs, name).value, SavesBytes(env, CustomSaveCodecs(fs), Savable.TupleOf(x, |fs|)) + rest) ==
      Some(Loaded(Ok(x), rest))
  {
    var es := seq(|fs|, i requires 0 <= i < |fs| => (CustomCodec(fs[i]).save, SelfField(FieldIndex(i))));
    var vs := Savable.TupleOf(x, |fs|);
    assert UnnamedCustom(fs, name).value.save == SaveFields(SaveStmts(es));
    ExecSaveStmts(env, es, vs, x, map[]);
    assert Firsts(es) == CustomSaveCodecs(fs);
    assert UnnamedCustom(fs, name).value.load == LoadStruct(LoadBody([], TupleOfLoads(CustomLoadCodecs(fs))));
    Savable.TupleOfLoadsRuns(env, CustomSaveCodecs(fs), CustomLoadCodecs(fs), x, rest);
  }

  // ---------------------------------------------------------------------------------------
  // Unit structs

  /** `unit`: the same `mvutils::save::Savable` impl the first generator emits. */
  function UnitStruct(name: string): (r: Impl)
    ensures r == Savable.UnitStruct(name)
  {
    Impl(SavableTrait, name, SaveFields([]), LoadStruct(LoadBody([], UnitValue(None))))
  }

  // ---------------------------------------------------------------------------------------
  // Enums

  /** `id_ty`: `u64` through `varint_save`/`varint_load` when asked for, otherwise the
      narrowest of u8, u16, u32 below the variant count. Every index of an enum with at most
      2^32 variants fits the chosen type. */
  function DiscKindFor(n: nat, varint: bool): (k: DiscKind)
    ensures k == VarintDisc <==> varint
    ensures n <= 0x1_0000_0000 ==> n <= DiscRange(k)
    ensures !varint ==> k == Savable.DiscFor(n)
  {
    if varint then VarintDisc else Savable.DiscFor(n)
  }

  /** The custom functions of the fields a variant saves. */
  function VariantCustoms(v: Variant): Fallible<seq<Option<(Path, Path)>>>
  {
    match v.fields
    case Named(fs) => CustomsOf(Saved(fs))
    case Unnamed(fs) => CustomsOf(Seconds(SavedPairs(fs)))
    case UnitFields => Returns([])
  }

  /** The save arm of every variant, in declaration order. */
  function SaveArms(vs: seq<Variant>, kind: DiscKind): seq<SaveArm>
  {
    seq(|vs|, i requires 0 <= i < |vs| => VariantSaveArm(vs[i], i, kind, CustomCodec))
  }

  /** The load arm `i as u32 => ..` of every variant. */
  function LoadArms(vs: seq<Variant>): seq<LoadArm>
  {
    seq(|vs|, i requires 0 <= i < |vs| => LoadArm(i % 0x1_0000_0000, VariantLoadBody(vs[i], CustomCodec)))
  }

  /** The custom functions of each variant's saved fields, variant by variant. */
  function VariantsCustoms(vs: seq<Variant>): (r: seq<Fallible<seq<Option<(Path, Path)>>>>)
    ensures |r| == |vs| && forall i :: 0 <= i < |vs| ==> r[i] == VariantCustoms(vs[i])
  {
    seq(|vs|, i requires 0 <= i < |vs| => VariantCustoms(vs[i]))
  }

  /** `enumerator`. A variant's custom functions are looked up when its save arm is built and
      again when its load arm is; the two lookups panic alike, so the expansion stops with the
      panic of the first variant whose lookup panics, and otherwise emits all the arms. */
  function Enumerator(vs: seq<Variant>, name: string, varint: bool): Fallible<Impl>
  {
    var kind := DiscKindFor(|vs|, varint);
    match Collect(VariantsCustoms(vs))
    case Panics(m) => Panics(m)
    case Returns(_) => Returns(Impl(SavableTrait, name, SaveMatch(SaveArms(vs, kind)), LoadMatch(kind, LoadArms(vs), name)))
  }

  /** `enumerator` panics exactly when a field some variant saves has a malformed custom
      attribute, and then with the first such variant's panic. */
  lemma EnumeratorPanics(vs: seq<Variant>, name: string, varint: bool)
    ensures Enumerator(vs, name, varint).Panics? <==> exists i :: 0 <= i < |vs| && VariantCustoms(vs[i]).Panics?
    ensures Enumerator(vs, name, varint).Panics? ==> exists i :: (0 <= i < |vs| &&
      VariantCustoms(vs[i]) == Panics(Enumerator(vs, name, varint).message) &&
      forall j :: 0 <= j < i ==> VariantCustoms(vs[j]).Returns?)
  {
    var cs := VariantsCustoms(vs);
    assert Enumerator(vs, name, varint).Panics? <==> Collect(cs).Panics?;
    if Collect(cs).Panics? {
      assert Enumerator(vs, name, varint).message == Collect(cs).message;
      var i := FirstPanic(cs);
      assert VariantCustoms(vs[i]) == cs[i];
    }
  }

  /** A custom field is written by its save function and read by its load function, at the
      same position among the variant's saved fields. */
  lemma NamedCustomPosition(v: Variant, i: nat, kind: DiscKind, k: nat, s: Path, l: Path)
    requires v.fields.Named? && k < |Saved(v.fields.named)|
    requires GetCustom(Saved(v.fields.named)[k].attrs) == Returns(Some((s, l)))
    ensures var f := Saved(v.fields.named)[k];
      VariantSaveArm(v, i, kind, CustomCodec).body[k + 1] == SaveValue(CustomSave(s), Local(f.name)) &&
      VariantLoadBody(v, CustomCodec).lets[k] == LetLoad(f.name, CustomLoad(l))
  {
    var saved := Saved(v.fields.named);
    assert NamedSave(saved, CustomCodec, false)[k] == SaveValue(CustomSave(s), Local(saved[k].name));
    assert LetLoads(NamedLoadEntries(saved, CustomCodec))[k] == LetLoad(saved[k].name, CustomLoad(l));
  }

  /** The same for the positional field with index p: written from and read into `key(p)`. */
  lemma TupleCustomPosition(v: Variant, i: nat, kind: DiscKind, k: nat, s: Path, l: Path)
    requires v.fields.Unnamed? && k < |SavedPairs(v.fields.unnamed)|
    requires GetCustom(SavedPairs(v.fields.unnamed)[k].1.attrs) == Returns(Some((s, l)))
    ensures var p := SavedPairs(v.fields.unnamed)[k].0;
      VariantSaveArm(v, i, kind, CustomCodec).body[k + 1] == SaveValue(CustomSave(s), Local(Layout.Key(p))) &&
      VariantLoadBody(v, CustomCodec).lets[k] == LetLoad(Layout.Key(p), CustomLoad(l))
  {
    var saved := SavedPairs(v.fields.unnamed);
    assert TupleSave(saved, CustomCodec)[k] == SaveValue(CustomSave(s), Local(Layout.Key(saved[k].0)));
    assert LetLoads(TupleLoadEntries(saved, CustomCodec))[k] == LetLoad(Layout.Key(saved[k].0), CustomLoad(l));
  }

  /** `enumerator`: saving a value of variant k writes k (as a varint, or as the narrowest
      integer type that holds every index) and then the variant's saved fields through their
      custom functions or their types' impls; loading those bytes gives back the value with its
      unsaved fields defaulted and leaves what follows. */
  lemma EnumeratorRoundTrip<V>(env: Env<V>, vs: seq<Variant>, name: string, varint: bool, x: Obj<V>, k: nat, rest: seq<byte>)
    requires Enumerator(vs, name, varint).Returns? && WellFormedVariants(vs)
    requires k < |vs| && VariantShaped(x, vs[k]) && VariantCodecsInvert(env, x, vs[k], CustomCodec)
    requires DiscInverts(env, DiscKindFor(|vs|, varint), k)
    ensures VariantFieldsPresent(x, vs[k])
    ensures var impl := Enumerator(vs, name, varint).value;
      SaveOf(env, impl, x) == Some(env.discSave(DiscKindFor(|vs|, varint), k) + VariantBytes(env, x, vs[k], CustomCodec)) &&
      var r := LoadOf(env, impl, SaveOf(env, impl, x).value + rest);
      r.Some? && r.value.rest == rest && r.value.result.Ok? && VariantRestored(env, r.value.result.value, x, vs[k])
  {
    EnumRoundTrip(env, SavableTrait, name, vs, DiscKindFor(|vs|, varint), CustomCodec,
                  SaveArms(vs, DiscKindFor(|vs|, varint)), LoadArms(vs), x, k, rest);
  }

  /** `match <discriminant> as u32`: a discriminant read as d selects the variant d mod 2^32,
      so with a varint discriminant 2^32 + k loads variant k. */
  lemma EnumeratorTruncates<V>(env: Env<V>, vs: seq<Variant>, name: string, varint: bool, s: seq<byte>, d: nat, rest: seq<byte>)
    requires Enumerator(vs, name, varint).Returns?
    requires env.discLoad(DiscKindFor(|vs|, varint), s) == Loaded(Ok(d), rest) && d % 0x1_0000_0000 < |vs|
    ensures LoadOf(env, Enumerator(vs, name, varint).value, s) == ExecBody(env, VariantLoadBody(vs[d % 0x1_0000_0000], CustomCodec), rest)
  {
    var loads := LoadArms(vs);
    var k := d % 0x1_0000_0000;
    ModSmall(k, 0x1_0000_0000);
    forall j | 0 <= j < k ensures loads[j].index != k {
      ModSmall(j, 0x1_0000_0000);
    }
    LoadOfMatch(env, Enumerator(vs, name, varint).value, s, d, rest, k);
  }

  /** A discriminant that names no variant after `as u32` makes `load` return
      "Failed to load <name> from loader!" having read only the discriminant. */
  lemma EnumeratorUnknown<V>(env: Env<V>, vs: seq<Variant>, name: string, varint: bool, s: seq<byte>, d: nat, rest: seq<byte>)
    requires Enumerator(vs, name, varint).Returns?
    requires env.discLoad(DiscKindFor(|vs|, varint), s) == Loaded(Ok(d), rest) && d % 0x1_0000_0000 >= |vs|
    ensures LoadOf(env, Enumerator(vs, name, varint).value, s) == Some(Loaded(Err(UnknownVariant(name)), rest))
  {
    var loads := LoadArms(vs);
    forall j | 0 <= j < |loads| ensures loads[j].index != d % 0x1_0000_0000 {
      ModAtMost(j, 0x1_0000_0000);
    }
    LoadOfUnknown(env, Enumerator(vs, name, varint).value, s, d, rest);
  }

  /** The positional names `key(0), .., key(amount - 1)`, pushed one by one. */
  method KeyNames(amount: nat) returns (names: seq<string>)
    ensures names == Keys(amount)
  {
    names := [];
    var i := 0;
    while i < amount
      invariant i <= amount && |names| == i
      invariant forall j :: 0 <= j < i ==> names[j] == Layout.Key(j)
    {
      var key := Shape.Key(i % 0x1_0000_0000);
      names := names + [key];
      i := i + 1;
    }
  }
}
