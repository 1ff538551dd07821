/** The statement lists both `Savable` generators emit for a list of fields, and why they
    round-trip: the writes of the saved fields, in declaration order, followed by the reads of the
    same fields in the same order, then the `Default` of every unsaved field.

    Named fields are written from `self.x` (structs) or from the name a `match self` pattern
    binds (enum variants), read into `let x = ..;` and collected by a struct literal. Positional
    fields of enum variants are bound to the names `key(i)` and collected by a tuple literal. */
module Layout {
  import opened Wrappers
  import opened Bytes
  import opened Save
  import opened Shape
  import opened Generated

  /** The function pair a field is written and read through. */
  datatype Codec = Codec(save: CodecRef, load: CodecRef)

  /** `Savable::save(..)` and `<T as Savable>::load(loader)`: the field type's own impl. */
  function PlainCodec(f: Field): Codec
  {
    Codec(TypeCodec(f.ty), TypeCodec(f.ty))
  }

  function NameOf(f: Field): string
  {
    f.name
  }

  /** Rust accepts only pairwise different field names. */
  predicate NamesDistinct(fs: seq<Field>)
  {
    forall i, j :: 0 <= i < j < |fs| ==> fs[i].name != fs[j].name
  }

  // ---------------------------------------------------------------------------------------
  // Named fields

  /** One write per saved field: from `self.x`, or from the pattern-bound name `x`. */
  function NamedSaveEntries(saved: seq<Field>, cf: Field -> Codec, fromSelf: bool): seq<(CodecRef, Place)>
  {
    seq(|saved|, k requires 0 <= k < |saved| =>
      (cf(saved[k]).save, if fromSelf then SelfField(FieldName(saved[k].name)) else Local(saved[k].name)))
  }

  function NamedSave(saved: seq<Field>, cf: Field -> Codec, fromSelf: bool): seq<SaveStmt>
  {
    SaveStmts(NamedSaveEntries(saved, cf, fromSelf))
  }

  /** `let x = <load>(loader)?;` per saved field. */
  function NamedLoadEntries(saved: seq<Field>, cf: Field -> Codec): seq<(string, CodecRef)>
  {
    seq(|saved|, k requires 0 <= k < |saved| => (saved[k].name, cf(saved[k]).load))
  }

  /** `let x = <T as Default>::default();` per unsaved field. */
  function NamedDefaultEntries(unsaved: seq<Field>): seq<(string, string)>
  {
    seq(|unsaved|, k requires 0 <= k < |unsaved| => (unsaved[k].name, unsaved[k].ty))
  }

  /** The loads, the defaults, and `V { saved.., unsaved.. }`. */
  function NamedLoad(variant: Option<string>, saved: seq<Field>, unsaved: seq<Field>, cf: Field -> Codec, sep: bool): LoadBody
  {
    LoadBody(LetLoads(NamedLoadEntries(saved, cf)) + LetDefaults(NamedDefaultEntries(unsaved)),
             StructLiteral(variant, Names(saved), Names(unsaved), sep))
  }

  function SaveCodecs(saved: seq<Field>, cf: Field -> Codec): seq<CodecRef>
  {
    seq(|saved|, k requires 0 <= k < |saved| => cf(saved[k]).save)
  }

  function NamedValues<V>(x: Obj<V>, saved: seq<Field>): seq<V>
    requires forall k :: 0 <= k < |saved| ==> FieldName(saved[k].name) in x.fields
  {
    seq(|saved|, k requires 0 <= k < |saved| => x.fields[FieldName(saved[k].name)])
  }

  /** The bytes of the saved fields of x, each through its own save function, in order. */
  function NamedBytes<V>(env: Env<V>, x: Obj<V>, saved: seq<Field>, cf: Field -> Codec): seq<byte>
    requires forall k :: 0 <= k < |saved| ==> FieldName(saved[k].name) in x.fields
  {
    SavesBytes(env, SaveCodecs(saved, cf), NamedValues(x, saved))
  }

  /** x has exactly the named fields fs. */
  ghost predicate HasNamedFields<V>(x: Obj<V>, fs: seq<Field>)
  {
    (forall i :: 0 <= i < |fs| ==> FieldName(fs[i].name) in x.fields) &&
    (forall m :: m in x.fields ==> exists i :: 0 <= i < |fs| && m == FieldName(fs[i].name))
  }

  /** Each saved field of x reads back through its load function from what its save function wrote. */
  ghost predicate NamedCodecsInvert<V>(env: Env<V>, x: Obj<V>, fs: seq<Field>, cf: Field -> Codec)
  {
    forall i :: 0 <= i < |fs| && IsSaved(fs[i]) ==>
      FieldName(fs[i].name) in x.fields && Inverts(env, cf(fs[i]).save, cf(fs[i]).load, x.fields[FieldName(fs[i].name)])
  }

  /** y is x with every unsaved field replaced by its type's `Default`. */
  ghost predicate NamedRestored<V>(env: Env<V>, y: Obj<V>, x: Obj<V>, fs: seq<Field>)
  {
    y.variant == x.variant && y.fields.Keys == x.fields.Keys &&
    forall i :: 0 <= i < |fs| ==>
      FieldName(fs[i].name) in y.fields && FieldName(fs[i].name) in x.fields &&
      y.fields[FieldName(fs[i].name)] == if IsSaved(fs[i]) then x.fields[FieldName(fs[i].name)] else env.default(fs[i].ty)
  }

  /** The writes of the saved fields append their encodings in declaration order. */
  lemma NamedSaveRuns<V>(env: Env<V>, saved: seq<Field>, cf: Field -> Codec, fromSelf: bool, x: Obj<V>, locals: map<string, V>)
    requires forall k :: 0 <= k < |saved| ==> FieldName(saved[k].name) in x.fields
    requires !fromSelf ==> forall k :: 0 <= k < |saved| ==>
      saved[k].name in locals && locals[saved[k].name] == x.fields[FieldName(saved[k].name)]
    ensures ExecSave(env, NamedSave(saved, cf, fromSelf), x, locals) == Some(NamedBytes(env, x, saved, cf))
  {
    var es := NamedSaveEntries(saved, cf, fromSelf);
    ExecSaveStmts(env, es, NamedValues(x, saved), x, locals);
    assert Firsts(es) == SaveCodecs(saved, cf);
  }

  /** Where a saved field sits in the list of saved fields, and back. */
  lemma SavedPos(fs: seq<Field>, i: nat) returns (k: nat)
    requires i < |fs| && IsSaved(fs[i])
    ensures k < |Saved(fs)| && Saved(fs)[k] == fs[i]
  {
    FilterMembership(fs, IsSaved, fs[i]);
    k :| 0 <= k < |Saved(fs)| && Saved(fs)[k] == fs[i];
  }

  lemma UnsavedPos(fs: seq<Field>, i: nat) returns (k: nat)
    requires i < |fs| && !IsSaved(fs[i])
    ensures k < |Unsaved(fs)| && Unsaved(fs)[k] == fs[i]
  {
    FilterMembership(fs, Not(IsSaved), fs[i]);
    k :| 0 <= k < |Unsaved(fs)| && Unsaved(fs)[k] == fs[i];
  }

  lemma SavedOrigin(fs: seq<Field>, k: nat) returns (i: nat)
    requires k < |Saved(fs)|
    ensures i < |fs| && fs[i] == Saved(fs)[k] && IsSaved(fs[i])
  {
    assert Saved(fs)[k] in Saved(fs);
    FilterMembership(fs, IsSaved, Saved(fs)[k]);
    i :| 0 <= i < |fs| && fs[i] == Saved(fs)[k];
  }

  lemma UnsavedOrigin(fs: seq<Field>, k: nat) returns (i: nat)
    requires k < |Unsaved(fs)|
    ensures i < |fs| && fs[i] == Unsaved(fs)[k] && !IsSaved(fs[i])
  {
    assert Unsaved(fs)[k] in Unsaved(fs);
    FilterMembership(fs, Not(IsSaved), Unsaved(fs)[k]);
    i :| 0 <= i < |fs| && fs[i] == Unsaved(fs)[k];
  }

  lemma SavedInX<V>(fs: seq<Field>, x: Obj<V>)
    requires HasNamedFields(x, fs)
    ensures forall k :: 0 <= k < |Saved(fs)| ==> FieldName(Saved(fs)[k].name) in x.fields
  {
    forall k | 0 <= k < |Saved(fs)| ensures FieldName(Saved(fs)[k].name) in x.fields {
      var i := SavedOrigin(fs, k);
    }
  }

  lemma UnsavedInX<V>(fs: seq<Field>, x: Obj<V>)
    requires HasNamedFields(x, fs)
    ensures forall k :: 0 <= k < |Unsaved(fs)| ==> FieldName(Unsaved(fs)[k].name) in x.fields
  {
    forall k | 0 <= k < |Unsaved(fs)| ensures FieldName(Unsaved(fs)[k].name) in x.fields {
      var i := UnsavedOrigin(fs, k);
    }
  }

  /** The names of the saved fields followed by those of the unsaved ones are distinct. */
  lemma SplitNamesDistinct(fs: seq<Field>)
    requires NamesDistinct(fs)
    ensures Distinct(Names(Saved(fs)) + Names(Unsaved(fs)))
  {
    FilterKeysDistinct(fs, IsSaved, NameOf);
    FilterKeysDistinct(fs, Not(IsSaved), NameOf);
    FilterKeysDisjoint(fs, IsSaved, NameOf);
    var a, b := Names(Saved(fs)), Names(Unsaved(fs));
    forall i, j | 0 <= i < j < |a + b| ensures (a + b)[i] != (a + b)[j] {
      if j < |a| {
        assert NameOf(Saved(fs)[i]) != NameOf(Saved(fs)[j]);
      } else if i >= |a| {
        assert NameOf(Unsaved(fs)[i - |a|]) != NameOf(Unsaved(fs)[j - |a|]);
      } else {
        assert NameOf(Saved(fs)[i]) != NameOf(Unsaved(fs)[j - |a|]);
      }
    }
  }

  /** Binding the saved names to their values and then the unsaved names to their defaults. */
  lemma BindBoth<V>(a: seq<string>, va: seq<V>, b: seq<string>, vb: seq<V>)
    requires |a| == |va| && |b| == |vb| && Distinct(a + b)
    ensures var l := BindSeq(BindSeq(map[], a, va), b, vb);
      (forall n :: n in l <==> n in a || n in b) &&
      (forall k :: 0 <= k < |a| ==> l[a[k]] == va[k]) &&
      (forall k :: 0 <= k < |b| ==> l[b[k]] == vb[k])
  {
    DistinctAppend(a, b);
    var l1 := BindSeq(map[], a, va);
    BindSeqLookup(map[], a, va);
    BindSeqLookup(l1, b, vb);
  }

  function DefaultValues<V>(env: Env<V>, unsaved: seq<Field>): seq<V>
  {
    seq(|unsaved|, k requires 0 <= k < |unsaved| => env.default(unsaved[k].ty))
  }

  /** The locals a named body's `let` statements leave: saved names bound to the values read,
      then unsaved names bound to their defaults. */
  function NamedLocalsOf<V>(env: Env<V>, x: Obj<V>, saved: seq<Field>, unsaved: seq<Field>): map<string, V>
    requires forall k :: 0 <= k < |saved| ==> FieldName(saved[k].name) in x.fields
  {
    BindSeq(BindSeq(map[], Names(saved), NamedValues(x, saved)), Names(unsaved), DefaultValues(env, unsaved))
  }

  /** The `let` statements of a named body read back what the saved fields wrote, in order,
      and consume exactly those bytes. */
  lemma NamedLetsRun<V>(env: Env<V>, saved: seq<Field>, unsaved: seq<Field>, cf: Field -> Codec, x: Obj<V>, rest: seq<byte>,
                        variant: Option<string>, sep: bool)
    requires forall k :: 0 <= k < |saved| ==> FieldName(saved[k].name) in x.fields
    requires forall k :: 0 <= k < |saved| ==>
      Inverts(env, cf(saved[k]).save, cf(saved[k]).load, x.fields[FieldName(saved[k].name)])
    ensures ExecLets(env, NamedLoad(variant, saved, unsaved, cf, sep).lets, NamedBytes(env, x, saved, cf) + rest, map[])
         == Loaded(Ok(NamedLocalsOf(env, x, saved, unsaved)), rest)
  {
    var vals := NamedValues(x, saved);
    var les, des := NamedLoadEntries(saved, cf), NamedDefaultEntries(unsaved);
    ExecLetLoads(env, les, SaveCodecs(saved, cf), vals, LetDefaults(des), rest, map[]);
    assert Firsts(les) == Names(saved);
    ExecLetDefaults(env, des, DefaultValues(env, unsaved), rest, BindSeq(map[], Names(saved), vals));
    assert Firsts(des) == Names(unsaved);
  }

  /** In those locals each field's name holds its saved value or its default, and nothing else is bound. */
  lemma NamedLocalsLookup<V>(env: Env<V>, fs: seq<Field>, x: Obj<V>)
    requires NamesDistinct(fs) && HasNamedFields(x, fs)
    requires forall k :: 0 <= k < |Saved(fs)| ==> FieldName(Saved(fs)[k].name) in x.fields
    ensures forall n :: n in NamedLocalsOf(env, x, Saved(fs), Unsaved(fs)) <==> n in Names(Saved(fs)) + Names(Unsaved(fs))
    ensures forall i :: 0 <= i < |fs| ==> (fs[i].name in NamedLocalsOf(env, x, Saved(fs), Unsaved(fs)) &&
      NamedLocalsOf(env, x, Saved(fs), Unsaved(fs))[fs[i].name] ==
        if IsSaved(fs[i]) then x.fields[FieldName(fs[i].name)] else env.default(fs[i].ty))
  {
    var saved, unsaved := Saved(fs), Unsaved(fs);
    SplitNamesDistinct(fs);
    BindBoth(Names(saved), NamedValues(x, saved), Names(unsaved), DefaultValues(env, unsaved));
    var l := NamedLocalsOf(env, x, saved, unsaved);
    forall i | 0 <= i < |fs|
      ensures fs[i].name in l && l[fs[i].name] == if IsSaved(fs[i]) then x.fields[FieldName(fs[i].name)] else env.default(fs[i].ty)
    {
      if IsSaved(fs[i]) {
        var k := SavedPos(fs, i);
        assert Names(saved)[k] == fs[i].name;
      } else {
        var k := UnsavedPos(fs, i);
        assert Names(unsaved)[k] == fs[i].name;
      }
    }
  }

  /** The names of both halves are exactly the names of x's fields. */
  lemma NamedKeys<V>(fs: seq<Field>, x: Obj<V>)
    requires HasNamedFields(x, fs)
    ensures forall n :: FieldName(n) in x.fields <==> n in Names(Saved(fs)) + Names(Unsaved(fs))
  {
    var saved, unsaved := Saved(fs), Unsaved(fs);
    forall n ensures FieldName(n) in x.fields <==> n in Names(saved) + Names(unsaved) {
      if FieldName(n) in x.fields {
        var i :| 0 <= i < |fs| && FieldName(n) == FieldName(fs[i].name);
        if IsSaved(fs[i]) {
          var k := SavedPos(fs, i);
          assert Names(saved)[k] == n;
        } else {
          var k := UnsavedPos(fs, i);
          assert Names(unsaved)[k] == n;
        }
      }
      if n in Names(saved) {
        var k :| 0 <= k < |saved| && Names(saved)[k] == n;
        var i := SavedOrigin(fs, k);
      } else if n in Names(unsaved) {
        var k :| 0 <= k < |unsaved| && Names(unsaved)[k] == n;
        var i := UnsavedOrigin(fs, k);
      }
    }
  }

  /** The struct literal over those locals is x with its unsaved fields defaulted. */
  lemma NamedBuild<V>(env: Env<V>, fs: seq<Field>, x: Obj<V>) returns (y: Obj<V>)
    requires NamesDistinct(fs) && HasNamedFields(x, fs)
    requires forall k :: 0 <= k < |Saved(fs)| ==> FieldName(Saved(fs)[k].name) in x.fields
    ensures Build(StructLiteral(x.variant, Names(Saved(fs)), Names(Unsaved(fs)), Saved(fs) != []),
                  NamedLocalsOf(env, x, Saved(fs), Unsaved(fs))) == Some(y)
    ensures NamedRestored(env, y, x, fs)
  {
    var saved, unsaved := Saved(fs), Unsaved(fs);
    var sep := saved != [];
    NamedLocalsLookup(env, fs, x);
    var l := NamedLocalsOf(env, x, saved, unsaved);
    var ns := Names(saved) + Names(unsaved);
    BuildStruct(x.variant, Names(saved), Names(unsaved), sep, l);
    y := Obj(x.variant, StructFields(ns, l));
    NamedRestoredFields(env, fs, x, l, y);
  }

  lemma NamedRestoredFields<V>(env: Env<V>, fs: seq<Field>, x: Obj<V>, l: map<string, V>, y: Obj<V>)
    requires HasNamedFields(x, fs)
    requires forall n :: n in Names(Saved(fs)) + Names(Unsaved(fs)) ==> n in l
    requires forall i :: 0 <= i < |fs| ==> (fs[i].name in l &&
      l[fs[i].name] == if IsSaved(fs[i]) then x.fields[FieldName(fs[i].name)] else env.default(fs[i].ty))
    requires y == Obj(x.variant, StructFields(Names(Saved(fs)) + Names(Unsaved(fs)), l))
    ensures NamedRestored(env, y, x, fs)
  {
    var ns := Names(Saved(fs)) + Names(Unsaved(fs));
    assert y.fields.Keys == x.fields.Keys by {
      NamedKeys(fs, x);
    }
    forall i | 0 <= i < |fs|
      ensures FieldName(fs[i].name) in y.fields && y.fields[FieldName(fs[i].name)] == l[fs[i].name]
    {
      assert FieldName(fs[i].name) in x.fields;
    }
  }

  /** Loading what the saved fields wrote builds x again, with the unsaved fields defaulted, and
      consumes exactly those bytes. */
  lemma NamedLoadRuns<V>(env: Env<V>, fs: seq<Field>, cf: Field -> Codec, x: Obj<V>, rest: seq<byte>)
    requires NamesDistinct(fs) && HasNamedFields(x, fs) && NamedCodecsInvert(env, x, fs, cf)
    ensures forall k :: 0 <= k < |Saved(fs)| ==> FieldName(Saved(fs)[k].name) in x.fields
    ensures var r := ExecBody(env, NamedLoad(x.variant, Saved(fs), Unsaved(fs), cf, Saved(fs) != []),
                              NamedBytes(env, x, Saved(fs), cf) + rest);
      r.Some? && r.value.rest == rest && r.value.result.Ok? && NamedRestored(env, r.value.result.value, x, fs)
  {
    var saved, unsaved := Saved(fs), Unsaved(fs);
    SavedInX(fs, x);
    forall k | 0 <= k < |saved|
      ensures Inverts(env, cf(saved[k]).save, cf(saved[k]).load, x.fields[FieldName(saved[k].name)])
    {
      var i := SavedOrigin(fs, k);
    }
    NamedLetsRun(env, saved, unsaved, cf, x, rest, x.variant, saved != []);
    var y := NamedBuild(env, fs, x);
    ExecBodyLets(env, NamedLoad(x.variant, saved, unsaved, cf, saved != []), NamedBytes(env, x, saved, cf) + rest,
                 NamedLocalsOf(env, x, saved, unsaved), rest, y);
  }

  // ---------------------------------------------------------------------------------------
  // Positional fields of enum variants, bound to `key(i)`

  /** `key(i as u32)`. */
  function Key(i: nat): string
  {
    KeyName(i % 0x1_0000_0000)
  }

  lemma KeyInjective(i: nat, j: nat)
    requires i < 0x1_0000_0000 && j < 0x1_0000_0000 && i != j
    ensures Key(i) != Key(j)
  {
    ModSmall(i, 0x1_0000_0000);
    ModSmall(j, 0x1_0000_0000);
    KeyNameInjective(i, j);
  }

  /** `key(0), .., key(n - 1)`. */
  function Keys(n: nat): seq<string>
  {
    seq(n, i requires 0 <= i < n => Key(i))
  }

  /** `iter().enumerate()`. */
  function Enumerate<T>(s: seq<T>): seq<(nat, T)>
  {
    seq(|s|, i requires 0 <= i < |s| => (i, s[i]))
  }

  predicate SavedAt(p: (nat, Field))
  {
    IsSaved(p.1)
  }

  function PosOf(p: (nat, Field)): nat
  {
    p.0
  }

  /** `(fields, unsaved_fields) = fields.iter().enumerate().partition(|(_, f)| filter(f))`. */
  function SavedPairs(fs: seq<Field>): seq<(nat, Field)>
  {
    Partition(Enumerate(fs), SavedAt).0
  }

  function UnsavedPairs(fs: seq<Field>): seq<(nat, Field)>
  {
    Partition(Enumerate(fs), SavedAt).1
  }

  function KeysOf(ps: seq<(nat, Field)>): seq<string>
  {
    seq(|ps|, k requires 0 <= k < |ps| => Key(ps[k].0))
  }

  /** One write per saved positional field, from the name `key(i)` the pattern binds. */
  function TupleSaveEntries(saved: seq<(nat, Field)>, cf: Field -> Codec): seq<(CodecRef, Place)>
  {
    seq(|saved|, k requires 0 <= k < |saved| => (cf(saved[k].1).save, Local(Key(saved[k].0))))
  }

  function TupleSave(saved: seq<(nat, Field)>, cf: Field -> Codec): seq<SaveStmt>
  {
    SaveStmts(TupleSaveEntries(saved, cf))
  }

  function TupleLoadEntries(saved: seq<(nat, Field)>, cf: Field -> Codec): seq<(string, CodecRef)>
  {
    seq(|saved|, k requires 0 <= k < |saved| => (Key(saved[k].0), cf(saved[k].1).load))
  }

  function TupleDefaultEntries(unsaved: seq<(nat, Field)>): seq<(string, string)>
  {
    seq(|unsaved|, k requires 0 <= k < |unsaved| => (Key(unsaved[k].0), unsaved[k].1.ty))
  }

  /** The loads, the defaults, and `V(key(0), .., key(amount - 1))`. */
  function TupleLoad(variant: Option<string>, saved: seq<(nat, Field)>, unsaved: seq<(nat, Field)>, cf: Field -> Codec, amount: nat): LoadBody
  {
    LoadBody(LetLoads(TupleLoadEntries(saved, cf)) + LetDefaults(TupleDefaultEntries(unsaved)),
             TupleLiteral(variant, Keys(amount)))
  }

  function TupleSaveCodecs(saved: seq<(nat, Field)>, cf: Field -> Codec): seq<CodecRef>
  {
    seq(|saved|, k requires 0 <= k < |saved| => cf(saved[k].1).save)
  }

  function TupleValues<V>(x: Obj<V>, saved: seq<(nat, Field)>): seq<V>
    requires forall k :: 0 <= k < |saved| ==> FieldIndex(saved[k].0) in x.fields
  {
    seq(|saved|, k requires 0 <= k < |saved| => x.fields[FieldIndex(saved[k].0)])
  }

  /** The bytes of the saved positional fields of x, in order. */
  function TupleBytes<V>(env: Env<V>, x: Obj<V>, saved: seq<(nat, Field)>, cf: Field -> Codec): seq<byte>
    requires forall k :: 0 <= k < |saved| ==> FieldIndex(saved[k].0) in x.fields
  {
    SavesBytes(env, TupleSaveCodecs(saved, cf), TupleValues(x, saved))
  }

  function TupleDefaultValues<V>(env: Env<V>, unsaved: seq<(nat, Field)>): seq<V>
  {
    seq(|unsaved|, k requires 0 <= k < |unsaved| => env.default(unsaved[k].1.ty))
  }

  function TupleLocalsOf<V>(env: Env<V>, x: Obj<V>, saved: seq<(nat, Field)>, unsaved: seq<(nat, Field)>): map<string, V>
    requires forall k :: 0 <= k < |saved| ==> FieldIndex(saved[k].0) in x.fields
  {
    BindSeq(BindSeq(map[], KeysOf(saved), TupleValues(x, saved)), KeysOf(unsaved), TupleDefaultValues(env, unsaved))
  }

  /** x has exactly the positional fields 0..n-1. */
  ghost predicate HasTupleFields<V>(x: Obj<V>, n: nat)
  {
    forall m :: m in x.fields <==> m.FieldIndex? && m.index < n
  }

  ghost predicate TupleCodecsInvert<V>(env: Env<V>, x: Obj<V>, fs: seq<Field>, cf: Field -> Codec)
  {
    forall i :: 0 <= i < |fs| && IsSaved(fs[i]) ==>
      FieldIndex(i) in x.fields && Inverts(env, cf(fs[i]).save, cf(fs[i]).load, x.fields[FieldIndex(i)])
  }

  /** y is x with every unsaved positional field replaced by its type's `Default`. */
  ghost predicate TupleRestored<V>(env: Env<V>, y: Obj<V>, x: Obj<V>, fs: seq<Field>)
  {
    y.variant == x.variant && y.fields.Keys == x.fields.Keys &&
    forall j :: 0 <= j < |fs| ==>
      FieldIndex(j) in y.fields && FieldIndex(j) in x.fields &&
      y.fields[FieldIndex(j)] == if IsSaved(fs[j]) then x.fields[FieldIndex(j)] else env.default(fs[j].ty)
  }

  lemma SavedPairPos(fs: seq<Field>, i: nat) returns (k: nat)
    requires i < |fs| && IsSaved(fs[i])
    ensures k < |SavedPairs(fs)| && SavedPairs(fs)[k] == (i, fs[i])
  {
    assert Enumerate(fs)[i] == (i, fs[i]);
    FilterMembership(Enumerate(fs), SavedAt, (i, fs[i]));
    k :| 0 <= k < |SavedPairs(fs)| && SavedPairs(fs)[k] == (i, fs[i]);
  }

  lemma UnsavedPairPos(fs: seq<Field>, i: nat) returns (k: nat)
    requires i < |fs| && !IsSaved(fs[i])
    ensures k < |UnsavedPairs(fs)| && UnsavedPairs(fs)[k] == (i, fs[i])
  {
    assert Enumerate(fs)[i] == (i, fs[i]);
    FilterMembership(Enumerate(fs), Not(SavedAt), (i, fs[i]));
    k :| 0 <= k < |UnsavedPairs(fs)| && UnsavedPairs(fs)[k] == (i, fs[i]);
  }

  lemma SavedPairOrigin(fs: seq<Field>, k: nat) returns (i: nat)
    requires k < |SavedPairs(fs)|
    ensures i < |fs| && SavedPairs(fs)[k] == (i, fs[i]) && IsSaved(fs[i])
  {
    assert SavedPairs(fs)[k] in SavedPairs(fs);
    FilterMembership(Enumerate(fs), SavedAt, SavedPairs(fs)[k]);
    var j :| 0 <= j < |Enumerate(fs)| && Enumerate(fs)[j] == SavedPairs(fs)[k];
    i := j;
  }

  lemma UnsavedPairOrigin(fs: seq<Field>, k: nat) returns (i: nat)
    requires k < |UnsavedPairs(fs)|
    ensures i < |fs| && UnsavedPairs(fs)[k] == (i, fs[i]) && !IsSaved(fs[i])
  {
    assert UnsavedPairs(fs)[k] in UnsavedPairs(fs);
    FilterMembership(Enumerate(fs), Not(SavedAt), UnsavedPairs(fs)[k]);
    assert Not(SavedAt)(UnsavedPairs(fs)[k]);
    var j :| 0 <= j < |Enumerate(fs)| && Enumerate(fs)[j] == UnsavedPairs(fs)[k];
    i := j;
  }

  lemma PairPosBound(fs: seq<Field>)
    ensures forall k :: 0 <= k < |SavedPairs(fs)| ==> SavedPairs(fs)[k].0 < |fs|
    ensures forall k :: 0 <= k < |UnsavedPairs(fs)| ==> UnsavedPairs(fs)[k].0 < |fs|
  {
    forall k | 0 <= k < |SavedPairs(fs)| ensures SavedPairs(fs)[k].0 < |fs| {
      var i := SavedPairOrigin(fs, k);
    }
    forall k | 0 <= k < |UnsavedPairs(fs)| ensures UnsavedPairs(fs)[k].0 < |fs| {
      var i := UnsavedPairOrigin(fs, k);
    }
  }

  /** The keys of the saved positions followed by those of the unsaved ones are distinct. */
  lemma SplitKeysDistinct(fs: seq<Field>)
    requires |fs| <= 0x1_0000_0000
    ensures Distinct(KeysOf(SavedPairs(fs)) + KeysOf(UnsavedPairs(fs)))
  {
    var e := Enumerate(fs);
    assert forall i, j :: 0 <= i < j < |e| ==> PosOf(e[i]) != PosOf(e[j]);
    FilterKeysDistinct(e, SavedAt, PosOf);
    FilterKeysDistinct(e, Not(SavedAt), PosOf);
    FilterKeysDisjoint(e, SavedAt, PosOf);
    var sp, up := SavedPairs(fs), UnsavedPairs(fs);
    PairPosBound(fs);
    var c := sp + up;
    forall i, j | 0 <= i < j < |c| ensures c[i].0 != c[j].0 {
      if j < |sp| {
        assert PosOf(sp[i]) != PosOf(sp[j]);
      } else if i >= |sp| {
        assert PosOf(up[i - |sp|]) != PosOf(up[j - |sp|]);
      } else {
        assert PosOf(sp[i]) != PosOf(up[j - |sp|]);
      }
    }
    KeysOfDistinct(c);
    assert KeysOf(c) == KeysOf(sp) + KeysOf(up);
  }

  /** Positions that are distinct and below 2^32 have distinct keys. */
  lemma KeysOfDistinct(ps: seq<(nat, Field)>)
    requires forall i, j :: 0 <= i < j < |ps| ==> ps[i].0 != ps[j].0
    requires forall k :: 0 <= k < |ps| ==> ps[k].0 < 0x1_0000_0000
    ensures Distinct(KeysOf(ps))
  {
    forall i, j | 0 <= i < j < |ps| ensures KeysOf(ps)[i] != KeysOf(ps)[j] {
      KeyInjective(ps[i].0, ps[j].0);
    }
  }

  /** The writes of the saved positional fields append their encodings in order. */
  lemma TupleSaveRuns<V>(env: Env<V>, fs: seq<Field>, cf: Field -> Codec, x: Obj<V>, locals: map<string, V>)
    requires HasTupleFields(x, |fs|)
    requires forall j :: 0 <= j < |fs| ==> Key(j) in locals && locals[Key(j)] == x.fields[FieldIndex(j)]
    ensures forall k :: 0 <= k < |SavedPairs(fs)| ==> FieldIndex(SavedPairs(fs)[k].0) in x.fields
    ensures ExecSave(env, TupleSave(SavedPairs(fs), cf), x, locals) == Some(TupleBytes(env, x, SavedPairs(fs), cf))
  {
    var saved := SavedPairs(fs);
    forall k | 0 <= k < |saved|
      ensures FieldIndex(saved[k].0) in x.fields
      ensures Key(saved[k].0) in locals && locals[Key(saved[k].0)] == x.fields[FieldIndex(saved[k].0)]
    {
      var i := SavedPairOrigin(fs, k);
    }
    PairsSaveRuns(env, saved, cf, x, locals);
  }

  /** The writes of positional fields whose locals hold x's values append their encodings. */
  lemma PairsSaveRuns<V>(env: Env<V>, saved: seq<(nat, Field)>, cf: Field -> Codec, x: Obj<V>, locals: map<string, V>)
    requires forall k :: 0 <= k < |saved| ==> FieldIndex(saved[k].0) in x.fields
    requires forall k :: 0 <= k < |saved| ==> Key(saved[k].0) in locals && locals[Key(saved[k].0)] == x.fields[FieldIndex(saved[k].0)]
    ensures ExecSave(env, TupleSave(saved, cf), x, locals) == Some(TupleBytes(env, x, saved, cf))
  {
    var es := TupleSaveEntries(saved, cf);
    ExecSaveStmts(env, es, TupleValues(x, saved), x, locals);
    assert Firsts(es) == TupleSaveCodecs(saved, cf);
  }

  lemma TupleLetsRun<V>(env: Env<V>, saved: seq<(nat, Field)>, unsaved: seq<(nat, Field)>, cf: Field -> Codec, x: Obj<V>,
                        rest: seq<byte>, variant: Option<string>, amount: nat)
    requires forall k :: 0 <= k < |saved| ==> FieldIndex(saved[k].0) in x.fields
    requires forall k :: 0 <= k < |saved| ==>
      Inverts(env, cf(saved[k].1).save, cf(saved[k].1).load, x.fields[FieldIndex(saved[k].0)])
    ensures ExecLets(env, TupleLoad(variant, saved, unsaved, cf, amount).lets, TupleBytes(env, x, saved, cf) + rest, map[])
         == Loaded(Ok(TupleLocalsOf(env, x, saved, unsaved)), rest)
  {
    var vals := TupleValues(x, saved);
    var les, des := TupleLoadEntries(saved, cf), TupleDefaultEntries(unsaved);
    ExecLetLoads(env, les, TupleSaveCodecs(saved, cf), vals, LetDefaults(des), rest, map[]);
    assert Firsts(les) == KeysOf(saved);
    ExecLetDefaults(env, des, TupleDefaultValues(env, unsaved), rest, BindSeq(map[], KeysOf(saved), vals));
    assert Firsts(des) == KeysOf(unsaved);
  }

  lemma TupleLocalsLookup<V>(env: Env<V>, fs: seq<Field>, x: Obj<V>)
    requires |fs| <= 0x1_0000_0000 && HasTupleFields(x, |fs|)
    requires forall k :: 0 <= k < |SavedPairs(fs)| ==> FieldIndex(SavedPairs(fs)[k].0) in x.fields
    ensures forall j :: 0 <= j < |fs| ==> (Key(j) in TupleLocalsOf(env, x, SavedPairs(fs), UnsavedPairs(fs)) &&
      TupleLocalsOf(env, x, SavedPairs(fs), UnsavedPairs(fs))[Key(j)] ==
        if IsSaved(fs[j]) then x.fields[FieldIndex(j)] else env.default(fs[j].ty))
  {
    var saved, unsaved := SavedPairs(fs), UnsavedPairs(fs);
    SplitKeysDistinct(fs);
    BindBoth(KeysOf(saved), TupleValues(x, saved), KeysOf(unsaved), TupleDefaultValues(env, unsaved));
    forall j | 0 <= j < |fs|
      ensures Key(j) in TupleLocalsOf(env, x, saved, unsaved) &&
        TupleLocalsOf(env, x, saved, unsaved)[Key(j)] == if IsSaved(fs[j]) then x.fields[FieldIndex(j)] else env.default(fs[j].ty)
    {
      if IsSaved(fs[j]) {
        var k := SavedPairPos(fs, j);
        assert KeysOf(saved)[k] == Key(j);
      } else {
        var k := UnsavedPairPos(fs, j);
        assert KeysOf(unsaved)[k] == Key(j);
      }
    }
  }

  /** Loading what the saved positional fields wrote builds x again, with the unsaved ones
      defaulted, and consumes exactly those bytes. */
  lemma TupleLoadRuns<V>(env: Env<V>, fs: seq<Field>, cf: Field -> Codec, x: Obj<V>, rest: seq<byte>)
    requires |fs| <= 0x1_0000_0000 && HasTupleFields(x, |fs|) && TupleCodecsInvert(env, x, fs, cf)
    ensures forall k :: 0 <= k < |SavedPairs(fs)| ==> FieldIndex(SavedPairs(fs)[k].0) in x.fields
    ensures var r := ExecBody(env, TupleLoad(x.variant, SavedPairs(fs), UnsavedPairs(fs), cf, |fs|),
                              TupleBytes(env, x, SavedPairs(fs), cf) + rest);
      r.Some? && r.value.rest == rest && r.value.result.Ok? && TupleRestored(env, r.value.result.value, x, fs)
  {
    var saved, unsaved := SavedPairs(fs), UnsavedPairs(fs);
    forall k | 0 <= k < |saved|
      ensures FieldIndex(saved[k].0) in x.fields
      ensures Inverts(env, cf(saved[k].1).save, cf(saved[k].1).load, x.fields[FieldIndex(saved[k].0)])
    {
      var i := SavedPairOrigin(fs, k);
    }
    TupleLetsRun(env, saved, unsaved, cf, x, rest, x.variant, |fs|);
    TupleLocalsLookup(env, fs, x);
    var l := TupleLocalsOf(env, x, saved, unsaved);
    var y := TupleBuild(env, fs, x, l);
    ExecBodyLets(env, TupleLoad(x.variant, saved, unsaved, cf, |fs|), TupleBytes(env, x, saved, cf) + rest, l, rest, y);
  }

  /** The tuple literal over locals holding each field's saved value or default is x restored. */
  lemma TupleBuild<V>(env: Env<V>, fs: seq<Field>, x: Obj<V>, l: map<string, V>) returns (y: Obj<V>)
    requires HasTupleFields(x, |fs|)
    requires forall j :: 0 <= j < |fs| ==> (Key(j) in l &&
      l[Key(j)] == if IsSaved(fs[j]) then x.fields[FieldIndex(j)] else env.default(fs[j].ty))
    ensures Build(TupleLiteral(x.variant, Keys(|fs|)), l) == Some(y)
    ensures TupleRestored(env, y, x, fs)
  {
    var keys := Keys(|fs|);
    assert forall j :: 0 <= j < |keys| ==> keys[j] in l;
    y := Obj(x.variant, TupleFields(keys, l));
    assert y.fields.Keys == x.fields.Keys;
  }

  /** With no unsaved field, the saved fields are all the fields, and the saved positions all the positions. */
  lemma AllSaved(fs: seq<Field>)
    requires Unsaved(fs) == []
    ensures Saved(fs) == fs && SavedPairs(fs) == Enumerate(fs) && UnsavedPairs(fs) == []
  {
    forall i | 0 <= i < |fs| ensures IsSaved(fs[i]) {
      FilterMembership(fs, Not(IsSaved), fs[i]);
    }
    FilterAll(fs, IsSaved);
    FilterAll(Enumerate(fs), SavedAt);
  }

  // ---------------------------------------------------------------------------------------
  // Enum variants

  /** `Name::V { a, b } => { <index>; <saved fields> }`, `Name::V(a, b) => ..`, `Name::V => <index>`. */
  function VariantSaveArm(v: Variant, i: nat, kind: DiscKind, cf: Field -> Codec): SaveArm
  {
    match v.fields
    case Named(fs) => SaveArm(StructPattern(v.ident, Names(fs)), [SaveDisc(kind, i)] + NamedSave(Saved(fs), cf, false))
    case Unnamed(fs) => SaveArm(TuplePattern(v.ident, Keys(|fs|)), [SaveDisc(kind, i)] + TupleSave(SavedPairs(fs), cf))
    case UnitFields => SaveArm(UnitPattern(v.ident), [SaveDisc(kind, i)])
  }

  /** The body of the load arm `i => { .. }` of a variant. */
  function VariantLoadBody(v: Variant, cf: Field -> Codec): LoadBody
  {
    match v.fields
    case Named(fs) => NamedLoad(Some(v.ident), Saved(fs), Unsaved(fs), cf, Saved(fs) != [])
    case Unnamed(fs) => TupleLoad(Some(v.ident), SavedPairs(fs), UnsavedPairs(fs), cf, |fs|)
    case UnitFields => LoadBody([], UnitValue(Some(v.ident)))
  }

  /** What rustc demands of an enum: distinct variant names, distinct field names, and (here)
      fewer than 2^32 variants and positional fields, so that `as u32` loses nothing. */
  predicate WellFormedVariants(vs: seq<Variant>)
  {
    |vs| <= 0x1_0000_0000 &&
    (forall i, j :: 0 <= i < j < |vs| ==> vs[i].ident != vs[j].ident) &&
    (forall i :: 0 <= i < |vs| ==> match vs[i].fields
      case Named(fs) => NamesDistinct(fs)
      case Unnamed(fs) => |fs| <= 0x1_0000_0000
      case UnitFields => true)
  }

  /** x has exactly the fields of the variant v. */
  ghost predicate VariantShaped<V>(x: Obj<V>, v: Variant)
  {
    x.variant == Some(v.ident) &&
    match v.fields
    case Named(fs) => NamesDistinct(fs) && HasNamedFields(x, fs)
    case Unnamed(fs) => |fs| <= 0x1_0000_0000 && HasTupleFields(x, |fs|)
    case UnitFields => x.fields == map[]
  }

  ghost predicate VariantCodecsInvert<V>(env: Env<V>, x: Obj<V>, v: Variant, cf: Field -> Codec)
  {
    match v.fields
    case Named(fs) => NamedCodecsInvert(env, x, fs, cf)
    case Unnamed(fs) => TupleCodecsInvert(env, x, fs, cf)
    case UnitFields => true
  }

  ghost predicate VariantRestored<V>(env: Env<V>, y: Obj<V>, x: Obj<V>, v: Variant)
  {
    match v.fields
    case Named(fs) => NamedRestored(env, y, x, fs)
    case Unnamed(fs) => TupleRestored(env, y, x, fs)
    case UnitFields => y == x
  }

  /** The saved fields the variant's save arm reads are fields of x. */
  ghost predicate VariantFieldsPresent<V>(x: Obj<V>, v: Variant)
  {
    match v.fields
    case Named(fs) => forall k :: 0 <= k < |Saved(fs)| ==> FieldName(Saved(fs)[k].name) in x.fields
    case Unnamed(fs) => forall k :: 0 <= k < |SavedPairs(fs)| ==> FieldIndex(SavedPairs(fs)[k].0) in x.fields
    case UnitFields => true
  }

  /** The bytes of the saved fields of x, a value of the variant v. */
  function VariantBytes<V>(env: Env<V>, x: Obj<V>, v: Variant, cf: Field -> Codec): seq<byte>
    requires VariantFieldsPresent(x, v)
  {
    match v.fields
    case Named(fs) => NamedBytes(env, x, Saved(fs), cf)
    case Unnamed(fs) => TupleBytes(env, x, SavedPairs(fs), cf)
    case UnitFields => []
  }

  lemma ShapedFieldsPresent<V>(x: Obj<V>, v: Variant)
    requires VariantShaped(x, v)
    ensures VariantFieldsPresent(x, v)
  {
    match v.fields
    case Named(fs) => SavedInX(fs, x);
    case Unnamed(fs) => PairPosBound(fs);
    case UnitFields =>
  }

  lemma KeysDistinct(n: nat)
    requires n <= 0x1_0000_0000
    ensures Distinct(Keys(n))
  {
    forall i, j | 0 <= i < j < n ensures Keys(n)[i] != Keys(n)[j] {
      KeyInjective(i, j);
    }
  }

  /** A struct pattern over all the names binds each saved name to its field. */
  lemma SavedLocals<V>(fs: seq<Field>, x: Obj<V>)
    requires HasNamedFields(x, fs)
    ensures forall n :: n in Names(fs) ==> FieldName(n) in x.fields
    ensures forall k :: 0 <= k < |Saved(fs)| ==> (Saved(fs)[k].name in StructLocals(Names(fs), x) &&
      StructLocals(Names(fs), x)[Saved(fs)[k].name] == x.fields[FieldName(Saved(fs)[k].name)])
  {
    var locals := StructLocals(Names(fs), x);
    forall k | 0 <= k < |Saved(fs)|
      ensures Saved(fs)[k].name in locals && locals[Saved(fs)[k].name] == x.fields[FieldName(Saved(fs)[k].name)]
    {
      var j := SavedOrigin(fs, k);
      assert Names(fs)[j] == fs[j].name;
    }
  }

  lemma NamedArmSaveRuns<V>(env: Env<V>, ident: string, fs: seq<Field>, i: nat, kind: DiscKind, cf: Field -> Codec, x: Obj<V>)
    requires HasNamedFields(x, fs)
    ensures forall k :: 0 <= k < |Saved(fs)| ==> FieldName(Saved(fs)[k].name) in x.fields
    ensures var arm := VariantSaveArm(Variant(ident, [], Named(fs)), i, kind, cf);
      Bind(arm.pattern, x).Some? &&
      ExecSave(env, arm.body, x, Bind(arm.pattern, x).value) == Some(env.discSave(kind, i % DiscRange(kind)) + NamedBytes(env, x, Saved(fs), cf))
  {
    SavedInX(fs, x);
    var locals := StructLocals(Names(fs), x);
    assert Bind(StructPattern(ident, Names(fs)), x) == Some(locals);
    SavedLocals(fs, x);
    NamedArmBody(env, Saved(fs), i, kind, cf, x, locals);
  }

  /** The index, then the saved fields from the names the pattern bound. */
  lemma NamedArmBody<V>(env: Env<V>, saved: seq<Field>, i: nat, kind: DiscKind, cf: Field -> Codec, x: Obj<V>, locals: map<string, V>)
    requires forall k :: 0 <= k < |saved| ==> FieldName(saved[k].name) in x.fields
    requires forall k :: 0 <= k < |saved| ==> (saved[k].name in locals && locals[saved[k].name] == x.fields[FieldName(saved[k].name)])
    ensures ExecSave(env, [SaveDisc(kind, i)] + NamedSave(saved, cf, false), x, locals) ==
      Some(env.discSave(kind, i % DiscRange(kind)) + NamedBytes(env, x, saved, cf))
  {
    NamedSaveRuns(env, saved, cf, false, x, locals);
    ExecSaveAppend(env, [SaveDisc(kind, i)], NamedSave(saved, cf, false), x, locals);
  }

  /** The tuple pattern of a variant binds `key(j)` to positional field j. */
  lemma TupleArmLocals<V>(ident: string, fs: seq<Field>, x: Obj<V>) returns (locals: map<string, V>)
    requires |fs| <= 0x1_0000_0000 && HasTupleFields(x, |fs|)
    ensures Bind(TuplePattern(ident, Keys(|fs|)), x) == Some(locals)
    ensures forall j :: 0 <= j < |fs| ==> Key(j) in locals && locals[Key(j)] == x.fields[FieldIndex(j)]
  {
    KeysDistinct(|fs|);
    var keys := Keys(|fs|);
    locals := BindTuple(ident, keys, x);
    forall j | 0 <= j < |fs| ensures Key(j) in locals && locals[Key(j)] == x.fields[FieldIndex(j)] {
      assert keys[j] == Key(j);
    }
  }

  lemma TupleArmSaveRuns<V>(env: Env<V>, ident: string, fs: seq<Field>, i: nat, kind: DiscKind, cf: Field -> Codec, x: Obj<V>)
    requires |fs| <= 0x1_0000_0000 && HasTupleFields(x, |fs|)
    ensures forall k :: 0 <= k < |SavedPairs(fs)| ==> FieldIndex(SavedPairs(fs)[k].0) in x.fields
    ensures var arm := VariantSaveArm(Variant(ident, [], Unnamed(fs)), i, kind, cf);
      Bind(arm.pattern, x).Some? &&
      ExecSave(env, arm.body, x, Bind(arm.pattern, x).value) == Some(env.discSave(kind, i % DiscRange(kind)) + TupleBytes(env, x, SavedPairs(fs), cf))
  {
    var locals := TupleArmLocals(ident, fs, x);
    TupleSaveRuns(env, fs, cf, x, locals);
    ExecSaveAppend(env, [SaveDisc(kind, i)], TupleSave(SavedPairs(fs), cf), x, locals);
  }

  /** The arm's pattern binds the variant's fields, and its body writes the index and then the saved fields. */
  lemma VariantSaveRuns<V>(env: Env<V>, v: Variant, i: nat, kind: DiscKind, cf: Field -> Codec, x: Obj<V>)
    requires VariantShaped(x, v)
    ensures VariantFieldsPresent(x, v)
    ensures var arm := VariantSaveArm(v, i, kind, cf);
      Bind(arm.pattern, x).Some? &&
      ExecSave(env, arm.body, x, Bind(arm.pattern, x).value) == Some(env.discSave(kind, i % DiscRange(kind)) + VariantBytes(env, x, v, cf))
  {
    ShapedFieldsPresent(x, v);
    match v.fields {
      case Named(fs) =>
        NamedArmSaveRuns(env, v.ident, fs, i, kind, cf, x);
        assert VariantSaveArm(v, i, kind, cf) == VariantSaveArm(Variant(v.ident, [], Named(fs)), i, kind, cf);
      case Unnamed(fs) =>
        TupleArmSaveRuns(env, v.ident, fs, i, kind, cf, x);
        assert VariantSaveArm(v, i, kind, cf) == VariantSaveArm(Variant(v.ident, [], Unnamed(fs)), i, kind, cf);
      case UnitFields =>
        assert [env.discSave(kind, i % DiscRange(kind))] + [] == [env.discSave(kind, i % DiscRange(kind))];
    }
  }

  /** The arm's body reads the saved fields back and rebuilds x with the unsaved ones defaulted. */
  lemma VariantLoadRuns<V>(env: Env<V>, v: Variant, cf: Field -> Codec, x: Obj<V>, rest: seq<byte>)
    requires VariantShaped(x, v) && VariantCodecsInvert(env, x, v, cf)
    ensures VariantFieldsPresent(x, v)
    ensures var r := ExecBody(env, VariantLoadBody(v, cf), VariantBytes(env, x, v, cf) + rest);
      r.Some? && r.value.rest == rest && r.value.result.Ok? && VariantRestored(env, r.value.result.value, x, v)
  {
    ShapedFieldsPresent(x, v);
    match v.fields {
      case Named(fs) => NamedLoadRuns(env, fs, cf, x, rest);
      case Unnamed(fs) => TupleLoadRuns(env, fs, cf, x, rest);
      case UnitFields =>
        assert [] + rest == rest;
    }
  }

  /** The save arm of variant i names variant i. */
  lemma ArmVariant(v: Variant, i: nat, kind: DiscKind, cf: Field -> Codec)
    ensures PatternVariant(VariantSaveArm(v, i, kind, cf).pattern) == v.ident
  {
  }

  /** Saving a value of variant k through the enum's arms writes k and then the variant's saved fields. */
  lemma EnumSaveRuns<V>(env: Env<V>, kind: Trait, name: string, vs: seq<Variant>, disc: DiscKind, cf: Field -> Codec,
                        saves: seq<SaveArm>, load: LoadFn, x: Obj<V>, k: nat)
    requires |vs| <= DiscRange(disc) && forall i, j :: 0 <= i < j < |vs| ==> vs[i].ident != vs[j].ident
    requires |saves| == |vs| && forall i :: 0 <= i < |vs| ==> saves[i] == VariantSaveArm(vs[i], i, disc, cf)
    requires k < |vs| && VariantShaped(x, vs[k])
    ensures VariantFieldsPresent(x, vs[k])
    ensures SaveOf(env, Impl(kind, name, SaveMatch(saves), load), x) == Some(env.discSave(disc, k) + VariantBytes(env, x, vs[k], cf))
  {
    ArmVariant(vs[k], k, disc, cf);
    forall j | 0 <= j < k ensures PatternVariant(saves[j].pattern) != x.variant.value {
      ArmVariant(vs[j], j, disc, cf);
    }
    SaveOfMatch(env, name, saves, k, x, load, kind);
    VariantSaveRuns(env, vs[k], k, disc, cf, x);
    ModSmall(k, DiscRange(disc));
    var l := Bind(saves[k].pattern, x).value;
    assert ExecSave(env, saves[k].body, x, l) == Some(env.discSave(disc, k) + VariantBytes(env, x, vs[k], cf));
  }

  /** Loading bytes that start with the index k runs the load arm of variant k on what follows. */
  lemma EnumLoadRuns<V>(env: Env<V>, save: SaveFn, name: string, kind: Trait, vs: seq<Variant>, disc: DiscKind, cf: Field -> Codec,
                        loads: seq<LoadArm>, k: nat, s: seq<byte>)
    requires |vs| <= 0x1_0000_0000
    requires |loads| == |vs| && forall i :: 0 <= i < |vs| ==> loads[i] == LoadArm(i % 0x1_0000_0000, VariantLoadBody(vs[i], cf))
    requires k < |vs| && DiscInverts(env, disc, k)
    ensures LoadOf(env, Impl(kind, name, save, LoadMatch(disc, loads, name)), env.discSave(disc, k) + s) ==
      ExecBody(env, VariantLoadBody(vs[k], cf), s)
  {
    var impl := Impl(kind, name, save, LoadMatch(disc, loads, name));
    assert env.discLoad(disc, env.discSave(disc, k) + s) == Loaded(Ok(k), s);
    forall j | 0 <= j < k ensures loads[j].index != k % 0x1_0000_0000 {
      assert loads[j].index == j;
    }
    LoadOfMatch(env, impl, env.discSave(disc, k) + s, k, s, k);
  }

  /** Loading the index k followed by the saved fields of x, a value of variant k, gives x back. */
  lemma EnumLoadBack<V>(env: Env<V>, save: SaveFn, name: string, kind: Trait, vs: seq<Variant>, disc: DiscKind, cf: Field -> Codec,
                        loads: seq<LoadArm>, x: Obj<V>, k: nat, rest: seq<byte>)
    requires |vs| <= 0x1_0000_0000
    requires |loads| == |vs| && forall i :: 0 <= i < |vs| ==> loads[i] == LoadArm(i % 0x1_0000_0000, VariantLoadBody(vs[i], cf))
    requires k < |vs| && DiscInverts(env, disc, k)
    requires VariantShaped(x, vs[k]) && VariantCodecsInvert(env, x, vs[k], cf)
    ensures VariantFieldsPresent(x, vs[k])
    ensures var r := LoadOf(env, Impl(kind, name, save, LoadMatch(disc, loads, name)), env.discSave(disc, k) + VariantBytes(env, x, vs[k], cf) + rest);
      r.Some? && r.value.rest == rest && r.value.result.Ok? && VariantRestored(env, r.value.result.value, x, vs[k])
  {
    ShapedFieldsPresent(x, vs[k]);
    var fb := VariantBytes(env, x, vs[k], cf);
    var d := env.discSave(disc, k);
    assert d + fb + rest == d + (fb + rest);
    EnumLoadRuns(env, save, name, kind, vs, disc, cf, loads, k, fb + rest);
    VariantLoadRuns(env, vs[k], cf, x, rest);
  }

  /** An enum impl whose arms are the variants' arms in declaration order: saving a value of
      variant k writes k and then that variant's saved fields, and loading those bytes gives
      back the value with its unsaved fields defaulted, leaving what follows untouched. */
  lemma EnumRoundTrip<V>(env: Env<V>, kind: Trait, name: string, vs: seq<Variant>, disc: DiscKind, cf: Field -> Codec,
                         saves: seq<SaveArm>, loads: seq<LoadArm>, x: Obj<V>, k: nat, rest: seq<byte>)
    requires WellFormedVariants(vs) && |vs| <= DiscRange(disc)
    requires |saves| == |vs| && forall i :: 0 <= i < |vs| ==> saves[i] == VariantSaveArm(vs[i], i, disc, cf)
    requires |loads| == |vs| && forall i :: 0 <= i < |vs| ==> loads[i] == LoadArm(i % 0x1_0000_0000, VariantLoadBody(vs[i], cf))
    requires k < |vs| && VariantShaped(x, vs[k]) && VariantCodecsInvert(env, x, vs[k], cf)
    requires DiscInverts(env, disc, k)
    ensures VariantFieldsPresent(x, vs[k])
    ensures var impl := Impl(kind, name, SaveMatch(saves), LoadMatch(disc, loads, name));
      SaveOf(env, impl, x) == Some(env.discSave(disc, k) + VariantBytes(env, x, vs[k], cf)) &&
      var r := LoadOf(env, impl, SaveOf(env, impl, x).value + rest);
      r.Some? && r.value.rest == rest && r.value.result.Ok? && VariantRestored(env, r.value.result.value, x, vs[k])
  {
    EnumSaveRuns(env, kind, name, vs, disc, cf, saves, LoadMatch(disc, loads, name), x, k);
    EnumLoadBack(env, SaveMatch(saves), name, kind, vs, disc, cf, loads, x, k, rest);
  }
}
