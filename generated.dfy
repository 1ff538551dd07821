/** The code the `Savable` derive macros emit, as a small syntax tree, and what that code
    does when it runs.

    An emitted `save` is a sequence of writes (`Savable::save(&self.x, saver)`, a custom save
    function, the variant index), possibly under a `match self` that binds the variant's fields.
    An emitted `load` is a sequence of `let x = ...load(loader)?;` and `let x = Default::default();`
    followed by a constructor expression, possibly under a `match` on the loaded variant index.

    The per-type codecs (`<T as Savable>`, custom functions, the discriminant and varint codecs)
    are not part of the generators: they are parameters, collected in an `Env`. Code that `rustc`
    would reject (a name that is not bound, a field the value does not have) has no behaviour:
    the semantic functions return `None` for it. */
module Generated {
  import opened Wrappers
  import opened Bytes
  import opened Save
  import opened Shape

  /** `self.name` or `self.0`. */
  datatype Member = FieldName(name: string) | FieldIndex(index: nat)

  /** Which function a write or read goes through: the field type's `Savable` impl, a
      `#[custom(save = f, load = g)]` function, or the field type's `Savable2` impl. */
  datatype CodecRef = TypeCodec(ty: string) | CustomSave(save: Path) | CustomLoad(load: Path) | Savable2Codec(ty2: string)

  /** Where a written value comes from: a field of `self`, or a name bound by a `match` pattern. */
  datatype Place = SelfField(member: Member) | Local(name: string)

  /** The discriminant's type: `u8`, `u16`, `u32`, or a varint written from a `u64`. */
  datatype DiscKind = U8Disc | U16Disc | U32Disc | VarintDisc

  /** The number of distinct values of the discriminant's type. */
  function DiscRange(k: DiscKind): (r: nat)
    ensures r >= 0x100
  {
    match k
    case U8Disc => 0x100
    case U16Disc => 0x1_0000
    case U32Disc => 0x1_0000_0000
    case VarintDisc => 0x1_0000_0000_0000_0000
  }

  datatype SaveStmt =
    | SaveValue(codec: CodecRef, from: Place)   // `Savable::save(&self.x, saver);`, `f(saver, x);`
    | SaveDisc(kind: DiscKind, index: nat)      // `Savable::save(&(i as u8), saver)`, `varint_save(saver, &(i as u64))`

  datatype LoadStmt =
    | LetLoad(name: string, codec: CodecRef)    // `let x = <T as Savable>::load(loader)?;`, `let x = g(loader)?;`
    | LetDefault(name: string, ty: string)      // `let x = <T as Default>::default();`

  /** A step of a `Savable2::load_into` body. */
  datatype LoadIntoStmt =
    | LoadIntoField(name: string, codec: CodecRef)      // `self.x.load_into(loader)?;`
    | AssignDefault(field: string, ty: string)          // `self.x = <T as Default>::default();`
    | DerefAssignDefault(field: string, ty: string)     // `*self.x = <T as Default>::default();`

  /** The value a `load` body returns. `StructLiteral` is `Self { n1, .., nk, d1, .., dm }` with
      `separated` telling whether the comma between the two name lists is emitted. */
  datatype Ctor =
    | StructLiteral(variant: Option<string>, names: seq<string>, defaults: seq<string>, separated: bool)
    | TupleLiteral(variant: Option<string>, args: seq<string>)   // `Name::V(a, b)`
    | TupleOfLoads(codecs: seq<CodecRef>)                         // `Self(<T>::load(loader)?, ..)`
    | UnitValue(variant: Option<string>)                          // `Self`, `Name::V`

  /** The pattern of a `match self` arm: `Name::V { a, b }`, `Name::V(a, b)`, `Name::V`. */
  datatype Pattern = StructPattern(variant: string, names: seq<string>) | TuplePattern(variant: string, keys: seq<string>) | UnitPattern(variant: string)

  datatype SaveArm = SaveArm(pattern: Pattern, body: seq<SaveStmt>)
  datatype LoadBody = LoadBody(lets: seq<LoadStmt>, ctor: Ctor)
  datatype LoadArm = LoadArm(index: nat, body: LoadBody)

  datatype SaveFn = SaveFields(body: seq<SaveStmt>) | SaveMatch(arms: seq<SaveArm>)

  datatype LoadFn =
    | LoadStruct(body: LoadBody)
    | LoadMatch(disc: DiscKind, arms: seq<LoadArm>, typeName: string)   // `match <disc> as u32 { i => .., _ => Err(..) }`
    | LoadIntoFields(steps: seq<LoadIntoStmt>)

  datatype Trait = SavableTrait | Savable2Trait

  /** `impl Savable for Name { fn save .. fn load .. }` (or `Savable2` with `load_into`). */
  datatype Impl = Impl(kind: Trait, typeName: string, save: SaveFn, load: LoadFn)

  /** A value of the derived type: its variant (none for a struct) and its fields. */
  datatype Obj<V> = Obj(variant: Option<string>, fields: map<Member, V>)

  /** The codecs the emitted code calls, over field values of type V. */
  datatype Env<!V> = Env(
    save: (CodecRef, V) -> seq<byte>,
    load: (CodecRef, seq<byte>) -> Loaded<V>,
    default: string -> V,
    discSave: (DiscKind, nat) -> seq<byte>,
    discLoad: (DiscKind, seq<byte>) -> Loaded<nat>)

  /** Loading through lc what was saved through sc gives v back and consumes exactly those bytes. */
  ghost predicate Inverts<V>(env: Env<V>, sc: CodecRef, lc: CodecRef, v: V)
  {
    forall rest :: env.load(lc, env.save(sc, v) + rest) == Loaded(Ok(v), rest)
  }

  /** The discriminant codec reads back what it wrote, for every value of its type. */
  ghost predicate DiscInverts<V>(env: Env<V>, k: DiscKind, i: nat)
  {
    forall rest :: env.discLoad(k, env.discSave(k, i) + rest) == Loaded(Ok(i), rest)
  }

  /** A discriminant read yields a value of the discriminant's type. */
  ghost predicate DiscInRange<V>(env: Env<V>, k: DiscKind)
  {
    forall s :: env.discLoad(k, s).result.Ok? ==> env.discLoad(k, s).result.value < DiscRange(k)
  }

  predicate Distinct<T(==)>(s: seq<T>)
  {
    forall i, j :: 0 <= i < j < |s| ==> s[i] != s[j]
  }

  /** The parts of a list of distinct elements are distinct, and share no element. */
  lemma DistinctAppend<T>(a: seq<T>, b: seq<T>)
    requires Distinct(a + b)
    ensures Distinct(a) && Distinct(b)
    ensures forall k, m :: 0 <= k < |a| && 0 <= m < |b| ==> a[k] != b[m]
  {
    forall i, j | 0 <= i < j < |a| ensures a[i] != a[j] {
      assert a[i] == (a + b)[i] && a[j] == (a + b)[j];
    }
    forall i, j | 0 <= i < j < |b| ensures b[i] != b[j] {
      assert b[i] == (a + b)[|a| + i] && b[j] == (a + b)[|a| + j];
    }
    forall k, m | 0 <= k < |a| && 0 <= m < |b| ensures a[k] != b[m] {
      assert (a + b)[k] == a[k] && (a + b)[|a| + m] == b[m];
    }
  }

  function Flatten(chunks: seq<seq<byte>>): seq<byte>
  {
    if chunks == [] then [] else chunks[0] + Flatten(chunks[1..])
  }

  // ---------------------------------------------------------------------------------------
  // Running `save`

  function Read<V>(p: Place, self: Obj<V>, locals: map<string, V>): Option<V>
  {
    match p
    case SelfField(m) => if m in self.fields then Some(self.fields[m]) else None
    case Local(n) => if n in locals then Some(locals[n]) else None
  }

  function SaveStmtBytes<V>(env: Env<V>, st: SaveStmt, self: Obj<V>, locals: map<string, V>): Option<seq<byte>>
  {
    match st
    case SaveValue(c, p) =>
      (match Read(p, self, locals)
       case Some(v) => Some(env.save(c, v))
       case None => None)
    case SaveDisc(k, i) => Some(env.discSave(k, i % DiscRange(k)))
  }

  /** The bytes a sequence of writes appends, in order. */
  function ExecSave<V>(env: Env<V>, body: seq<SaveStmt>, self: Obj<V>, locals: map<string, V>): Option<seq<byte>>
  {
    if body == [] then Some([])
    else
      match SaveStmtBytes(env, body[0], self, locals)
      case None => None
      case Some(b) =>
        match ExecSave(env, body[1..], self, locals)
        case None => None
        case Some(bs) => Some(b + bs)
  }

  function PatternVariant(p: Pattern): string
  {
    match p
    case StructPattern(v, _) => v
    case TuplePattern(v, _) => v
    case UnitPattern(v) => v
  }

  /** The names `{ n1, .., nk }` of a struct pattern, each bound to the field of that name. */
  function StructLocals<V>(names: seq<string>, self: Obj<V>): (r: map<string, V>)
    requires forall n :: n in names ==> FieldName(n) in self.fields
    ensures forall n :: n in r <==> n in names
    ensures forall n :: n in names ==> r[n] == self.fields[FieldName(n)]
  {
    map n | n in names :: self.fields[FieldName(n)]
  }

  /** The names a `match self` pattern binds, by reference, to the value's fields. */
  function Bind<V>(p: Pattern, self: Obj<V>): Option<map<string, V>>
  {
    match p
    case StructPattern(_, names) =>
      if forall n :: n in names ==> FieldName(n) in self.fields
      then Some(StructLocals(names, self))
      else None
    case TuplePattern(_, keys) =>
      if Distinct(keys) && forall j :: 0 <= j < |keys| ==> FieldIndex(j) in self.fields
      then Some(BindSeq(map[], keys, seq(|keys|, j requires 0 <= j < |keys| => self.fields[FieldIndex(j)])))
      else None
    case UnitPattern(_) => Some(map[])
  }

  /** The first arm whose pattern names the given variant. */
  function FindSaveArm(arms: seq<SaveArm>, variant: string): (r: Option<nat>)
    ensures r.Some? ==> r.value < |arms| && PatternVariant(arms[r.value].pattern) == variant
    ensures r.Some? ==> forall j :: 0 <= j < r.value ==> PatternVariant(arms[j].pattern) != variant
    ensures r.None? ==> forall j :: 0 <= j < |arms| ==> PatternVariant(arms[j].pattern) != variant
  {
    if arms == [] then None
    else if PatternVariant(arms[0].pattern) == variant then Some(0)
    else match FindSaveArm(arms[1..], variant)
      case None => None
      case Some(j) => Some(j + 1)
  }

  /** What the emitted `save` appends to the saver for the value x. */
  function SaveOf<V>(env: Env<V>, impl: Impl, x: Obj<V>): Option<seq<byte>>
  {
    match impl.save
    case SaveFields(body) => ExecSave(env, body, x, map[])
    case SaveMatch(arms) =>
      if x.variant.None? then None
      else
        match FindSaveArm(arms, x.variant.value)
        case None => None
        case Some(k) =>
          match Bind(arms[k].pattern, x)
          case None => None
          case Some(locals) => ExecSave(env, arms[k].body, x, locals)
  }

  // ---------------------------------------------------------------------------------------
  // Running `load`

  /** The `let` statements, each binding a name; the first `?` that meets an `Err` returns it. */
  function ExecLets<V>(env: Env<V>, lets: seq<LoadStmt>, s: seq<byte>, locals: map<string, V>): Loaded<map<string, V>>
  {
    if lets == [] then Loaded(Ok(locals), s)
    else
      match lets[0]
      case LetLoad(n, c) =>
        var r := env.load(c, s);
        (match r.result
         case Err(e) => Loaded(Err(e), r.rest)
         case Ok(v) => ExecLets(env, lets[1..], r.rest, locals[n := v]))
      case LetDefault(n, ty) => ExecLets(env, lets[1..], s, locals[n := env.default(ty)])
  }

  /** `Self(<T1>::load(loader)?, <T2>::load(loader)?, ..)`: the operands are evaluated left to right. */
  function ExecTupleLoads<V>(env: Env<V>, codecs: seq<CodecRef>, j: nat, s: seq<byte>, acc: map<Member, V>): Loaded<map<Member, V>>
    decreases |codecs|
  {
    if codecs == [] then Loaded(Ok(acc), s)
    else
      var r := env.load(codecs[0], s);
      match r.result
      case Err(e) => Loaded(Err(e), r.rest)
      case Ok(v) => ExecTupleLoads(env, codecs[1..], j + 1, r.rest, acc[FieldIndex(j) := v])
  }

  /** The tokens between the braces of a struct literal. */
  datatype Token = Ident(name: string) | Comma

  /** `#( #xs ),*`: the names separated by commas. */
  function CommaList(xs: seq<string>): (r: seq<Token>)
    ensures |r| == if xs == [] then 0 else 2 * |xs| - 1
    ensures forall i :: 0 <= i < |r| ==> r[i] == if i % 2 == 0 then Ident(xs[i / 2]) else Comma
  {
    if |xs| <= 1 then (if xs == [] then [] else [Ident(xs[0])])
    else [Ident(xs[0]), Comma] + CommaList(xs[1..])
  }

  /** `#( #names ),* <sep> #( #defaults ),*`, the sep comma emitted when `sep` holds. */
  function LiteralTokens(names: seq<string>, defaults: seq<string>, sep: bool): seq<Token>
  {
    CommaList(names) + (if sep then [Comma] else []) + CommaList(defaults)
  }

  /** A field list Rust accepts: names and commas alternate, starting with a name; a trailing
      comma is allowed. */
  predicate WellFormedFieldList(ts: seq<Token>)
  {
    forall i :: 0 <= i < |ts| ==> (ts[i].Comma? <==> i % 2 == 1)
  }

  /** The separating comma does not open the list and is present whenever there are names on
      both sides of it. */
  predicate LiteralCompiles(names: seq<string>, defaults: seq<string>, sep: bool)
  {
    (names == [] ==> !sep) && (names != [] && defaults != [] ==> sep)
  }

  /** The literal's tokens are a field list Rust accepts exactly when `LiteralCompiles` holds. */
  lemma FieldListWellFormed(names: seq<string>, defaults: seq<string>, sep: bool)
    ensures WellFormedFieldList(LiteralTokens(names, defaults, sep)) <==> LiteralCompiles(names, defaults, sep)
  {
    var a, d := CommaList(names), CommaList(defaults);
    var ts := LiteralTokens(names, defaults, sep);
    if names == [] && sep {
      assert ts[0] == Comma;
    } else if names != [] && defaults != [] && !sep {
      assert ts[|a|] == d[0];
    } else if names != [] && sep {
      SeparatedAlternates(names, defaults);
    } else {
      UnseparatedAlternates(names, defaults);
    }
  }

  /** Names, the separating comma, then defaults: names and commas alternate. */
  lemma SeparatedAlternates(names: seq<string>, defaults: seq<string>)
    requires names != []
    ensures WellFormedFieldList(LiteralTokens(names, defaults, true))
  {
    var a, d := CommaList(names), CommaList(defaults);
    var ts := LiteralTokens(names, defaults, true);
    assert ts == a + [Comma] + d;
    assert |a| + 1 == 2 * |names|;
    forall i | 0 <= i < |ts| ensures ts[i].Comma? <==> i % 2 == 1 {
      if i < |a| {
        assert ts[i] == a[i];
      } else if i == |a| {
        assert ts[i] == Comma;
        Parity(0, |names| - 1);
      } else {
        var j := i - 2 * |names|;
        assert ts[i] == d[j];
        Parity(j, |names|);
      }
    }
  }

  /** Adding an even number keeps the parity. */
  lemma Parity(j: nat, n: nat)
    ensures (j + 2 * n) % 2 == j % 2
    ensures (2 * n + 1) % 2 == 1
  {
  }

  /** Without the separating comma, names and commas alternate when one side is empty. */
  lemma UnseparatedAlternates(names: seq<string>, defaults: seq<string>)
    requires names == [] || defaults == []
    ensures WellFormedFieldList(LiteralTokens(names, defaults, false))
  {
    var a, d := CommaList(names), CommaList(defaults);
    var ts := LiteralTokens(names, defaults, false);
    assert ts == a + d;
    forall i | 0 <= i < |ts| ensures ts[i].Comma? <==> i % 2 == 1 {
      if i >= |a| {
        assert ts[i] == d[i - |a|];
      }
    }
  }

  /** The fields `{ n1, .., nk }` of a struct literal, each taken from the local of that name. */
  function StructFields<V>(ns: seq<string>, locals: map<string, V>): (r: map<Member, V>)
    requires forall n :: n in ns ==> n in locals
    ensures forall m :: m in r <==> m.FieldName? && m.name in ns
    ensures forall n :: n in ns ==> r[FieldName(n)] == locals[n]
  {
    map n | n in ns :: FieldName(n) := locals[n]
  }

  lemma StructFieldAt<V>(ns: seq<string>, locals: map<string, V>, i: nat)
    requires forall n :: n in ns ==> n in locals
    requires i < |ns|
    ensures FieldName(ns[i]) in StructFields(ns, locals) && StructFields(ns, locals)[FieldName(ns[i])] == locals[ns[i]]
  {
  }

  /** The fields `(a0, .., ak)` of a tuple literal: field j is the local named args[j]. */
  function TupleFields<V>(args: seq<string>, locals: map<string, V>): (r: map<Member, V>)
    requires forall j :: 0 <= j < |args| ==> args[j] in locals
    ensures forall m :: m in r <==> m.FieldIndex? && m.index < |args|
    ensures forall j :: 0 <= j < |args| ==> r[FieldIndex(j)] == locals[args[j]]
  {
    map j | 0 <= j < |args| :: FieldIndex(j) := locals[args[j]]
  }

  /** A tuple pattern over distinct names binds name j to field j. */
  lemma BindTuple<V>(v: string, keys: seq<string>, x: Obj<V>) returns (l: map<string, V>)
    requires Distinct(keys) && forall j :: 0 <= j < |keys| ==> FieldIndex(j) in x.fields
    ensures Bind(TuplePattern(v, keys), x) == Some(l)
    ensures forall j :: 0 <= j < |keys| ==> keys[j] in l && l[keys[j]] == x.fields[FieldIndex(j)]
  {
    var vs := seq(|keys|, j requires 0 <= j < |keys| => x.fields[FieldIndex(j)]);
    l := BindSeq(map[], keys, vs);
    BindSeqLookup(map[], keys, vs);
  }

  /** The value a constructor expression builds from the bound names. */
  function Build<V>(c: Ctor, locals: map<string, V>): Option<Obj<V>>
  {
    match c
    case StructLiteral(v, names, defaults, sep) =>
      if LiteralCompiles(names, defaults, sep) && forall n :: n in names + defaults ==> n in locals
      then Some(Obj(v, StructFields(names + defaults, locals)))
      else None
    case TupleLiteral(v, args) =>
      if forall j :: 0 <= j < |args| ==> args[j] in locals
      then Some(Obj(v, TupleFields(args, locals)))
      else None
    case TupleOfLoads(_) => None
    case UnitValue(v) => Some(Obj(v, map[]))
  }

  /** A well-formed struct literal whose names are all bound builds the value holding them. */
  lemma BuildStruct<V>(v: Option<string>, names: seq<string>, defaults: seq<string>, sep: bool, locals: map<string, V>)
    requires LiteralCompiles(names, defaults, sep)
    requires forall n :: n in names + defaults ==> n in locals
    ensures Build(StructLiteral(v, names, defaults, sep), locals) == Some(Obj(v, StructFields(names + defaults, locals)))
  {
  }

  function ExecBody<V>(env: Env<V>, body: LoadBody, s: seq<byte>): Option<Loaded<Obj<V>>>
  {
    match body.ctor
    case TupleOfLoads(codecs) =>
      if body.lets != [] then None
      else
        var r := ExecTupleLoads(env, codecs, 0, s, map[]);
        (match r.result
         case Err(e) => Some(Loaded(Err(e), r.rest))
         case Ok(fields) => Some(Loaded(Ok(Obj(None, fields)), r.rest)))
    case _ =>
      var l := ExecLets(env, body.lets, s, map[]);
      match l.result
      case Err(e) => Some(Loaded(Err(e), l.rest))
      case Ok(locals) =>
        match Build(body.ctor, locals)
        case None => None
        case Some(o) => Some(Loaded(Ok(o), l.rest))
  }

  /** A body of `let`s and a literal returns the value the literal builds over the bound locals. */
  lemma ExecBodyLets<V>(env: Env<V>, body: LoadBody, s: seq<byte>, locals: map<string, V>, rest: seq<byte>, y: Obj<V>)
    requires !body.ctor.TupleOfLoads?
    requires ExecLets(env, body.lets, s, map[]) == Loaded(Ok(locals), rest)
    requires Build(body.ctor, locals) == Some(y)
    ensures ExecBody(env, body, s) == Some(Loaded(Ok(y), rest))
  {
  }

  /** The first arm whose literal equals the (widened) discriminant. */
  function FindLoadArm(arms: seq<LoadArm>, d: nat): (r: Option<nat>)
    ensures r.Some? ==> r.value < |arms| && arms[r.value].index == d
    ensures r.Some? ==> forall j :: 0 <= j < r.value ==> arms[j].index != d
    ensures r.None? ==> forall j :: 0 <= j < |arms| ==> arms[j].index != d
  {
    if arms == [] then None
    else if arms[0].index == d then Some(0)
    else match FindLoadArm(arms[1..], d)
      case None => None
      case Some(j) => Some(j + 1)
  }

  function UnknownVariant(typeName: string): string
  {
    "Failed to load " + typeName + " from loader!"
  }

  /** What the emitted `load` returns when the loader holds s. */
  function LoadOf<V>(env: Env<V>, impl: Impl, s: seq<byte>): Option<Loaded<Obj<V>>>
  {
    match impl.load
    case LoadStruct(body) => ExecBody(env, body, s)
    case LoadMatch(k, arms, name) =>
      var d := env.discLoad(k, s);
      (match d.result
       case Err(e) => Some(Loaded(Err(e), d.rest))
       case Ok(n) =>
         match FindLoadArm(arms, n % 0x1_0000_0000)
         case None => Some(Loaded(Err(UnknownVariant(name)), d.rest))
         case Some(k) => ExecBody(env, arms[k].body, d.rest))
    case LoadIntoFields(_) => None
  }

  /** `*self.x = ..` parses as `*(self.x)`: it dereferences the field's value, not `self`.
      `rustc` rejects it for every field type whose `Deref` target is not the type itself
      (`u32` has no `Deref`; `*` of a `String` is a `str`, of a `Box<T>` a `T`), so a body
      holding such a step does not compile. */
  predicate LoadIntoCompiles(steps: seq<LoadIntoStmt>)
  {
    forall i :: 0 <= i < |steps| ==> !steps[i].DerefAssignDefault?
  }

  /** `load_into` on the value x: each step updates x in place; the first `?` that meets an
      `Err` returns it, and the updates made before it stay. A field's own `load_into` is the
      blanket impl of src/save2.rs:14-18: load the whole field, then assign it. */
  function ExecLoadInto<V>(env: Env<V>, steps: seq<LoadIntoStmt>, x: Obj<V>, s: seq<byte>): Option<(Obj<V>, Loaded<Unit>)>
  {
    if steps == [] then Some((x, Loaded(Ok(Unit), s)))
    else
      match steps[0]
      case LoadIntoField(n, c) =>
        if FieldName(n) !in x.fields then None
        else
          var r := env.load(c, s);
          (match r.result
           case Err(e) => Some((x, Loaded(Err(e), r.rest)))
           case Ok(v) => ExecLoadInto(env, steps[1..], x.(fields := x.fields[FieldName(n) := v]), r.rest))
      case AssignDefault(n, ty) =>
        if FieldName(n) !in x.fields then None
        else ExecLoadInto(env, steps[1..], x.(fields := x.fields[FieldName(n) := env.default(ty)]), s)
      case DerefAssignDefault(_, _) => None
  }

  /** What the emitted `load_into` does to x when the loader holds s; nothing when the body
      does not compile. */
  function LoadIntoOf<V>(env: Env<V>, impl: Impl, x: Obj<V>, s: seq<byte>): Option<(Obj<V>, Loaded<Unit>)>
  {
    match impl.load
    case LoadIntoFields(steps) => if LoadIntoCompiles(steps) then ExecLoadInto(env, steps, x, s) else None
    case _ => None
  }

  // ---------------------------------------------------------------------------------------
  // Emitted field lists, built by `map` over the generator's field lists

  /** One `SaveValue` per (codec, place) entry, in order. */
  function SaveStmts(es: seq<(CodecRef, Place)>): (r: seq<SaveStmt>)
    ensures |r| == |es|
    ensures forall i :: 0 <= i < |es| ==> r[i] == SaveValue(es[i].0, es[i].1)
  {
    if es == [] then [] else [SaveValue(es[0].0, es[0].1)] + SaveStmts(es[1..])
  }

  /** One `LetLoad` per (name, codec) entry, in order. */
  function LetLoads(es: seq<(string, CodecRef)>): (r: seq<LoadStmt>)
    ensures |r| == |es|
    ensures forall i :: 0 <= i < |es| ==> r[i] == LetLoad(es[i].0, es[i].1)
  {
    if es == [] then [] else [LetLoad(es[0].0, es[0].1)] + LetLoads(es[1..])
  }

  /** One `LetDefault` per (name, type) entry, in order. */
  function LetDefaults(es: seq<(string, string)>): (r: seq<LoadStmt>)
    ensures |r| == |es|
    ensures forall i :: 0 <= i < |es| ==> r[i] == LetDefault(es[i].0, es[i].1)
  {
    if es == [] then [] else [LetDefault(es[0].0, es[0].1)] + LetDefaults(es[1..])
  }

  /** The bytes of saving vs[i] through codecs[i], one after another. */
  function SavesBytes<V>(env: Env<V>, codecs: seq<CodecRef>, vs: seq<V>): seq<byte>
    requires |codecs| == |vs|
  {
    if codecs == [] then [] else env.save(codecs[0], vs[0]) + SavesBytes(env, codecs[1..], vs[1..])
  }

  /** The locals after binding names[i] to vs[i] in order. */
  function BindSeq<V>(locals: map<string, V>, names: seq<string>, vs: seq<V>): map<string, V>
    requires |names| == |vs|
    decreases |names|
  {
    if names == [] then locals else BindSeq(locals[names[0] := vs[0]], names[1..], vs[1..])
  }

  function Firsts<A, B>(s: seq<(A, B)>): (r: seq<A>)
    ensures |r| == |s| && forall i :: 0 <= i < |s| ==> r[i] == s[i].0
  {
    if s == [] then [] else [s[0].0] + Firsts(s[1..])
  }

  function Seconds<A, B>(s: seq<(A, B)>): (r: seq<B>)
    ensures |r| == |s| && forall i :: 0 <= i < |s| ==> r[i] == s[i].1
  {
    if s == [] then [] else [s[0].1] + Seconds(s[1..])
  }

  // ---------------------------------------------------------------------------------------
  // The emitted lists do what they say

  /** A list of writes appends each value's encoding in list order. */
  lemma {:induction false} ExecSaveStmts<V>(env: Env<V>, es: seq<(CodecRef, Place)>, vs: seq<V>, self: Obj<V>, locals: map<string, V>)
    requires |es| == |vs|
    requires forall i :: 0 <= i < |es| ==> Read(es[i].1, self, locals) == Some(vs[i])
    ensures ExecSave(env, SaveStmts(es), self, locals) == Some(SavesBytes(env, Firsts(es), vs))
  {
    if es != [] {
      ExecSaveStmts(env, es[1..], vs[1..], self, locals);
      assert SaveStmts(es)[1..] == SaveStmts(es[1..]);
      assert Firsts(es)[1..] == Firsts(es[1..]);
    }
  }

  /** Writes followed by more writes. */
  lemma {:induction false} ExecSaveAppend<V>(env: Env<V>, a: seq<SaveStmt>, b: seq<SaveStmt>, self: Obj<V>, locals: map<string, V>)
    requires ExecSave(env, a, self, locals).Some? && ExecSave(env, b, self, locals).Some?
    ensures ExecSave(env, a + b, self, locals) == Some(ExecSave(env, a, self, locals).value + ExecSave(env, b, self, locals).value)
  {
    if a == [] {
      assert a + b == b;
      assert [] + ExecSave(env, b, self, locals).value == ExecSave(env, b, self, locals).value;
    } else {
      assert (a + b)[0] == a[0];
      assert (a + b)[1..] == a[1..] + b;
      assert ExecSave(env, a[1..], self, locals).Some?;
      ExecSaveAppend(env, a[1..], b, self, locals);
      var h := SaveStmtBytes(env, a[0], self, locals).value;
      var ta, tb := ExecSave(env, a[1..], self, locals).value, ExecSave(env, b, self, locals).value;
      assert ExecSave(env, a, self, locals).value == h + ta;
      assert ExecSave(env, a + b, self, locals) == Some(h + (ta + tb));
      assert h + (ta + tb) == (h + ta) + tb;
    }
  }

  /** Loading, name by name, what was saved value by value binds each name to its value and
      leaves the loader just after the last one. */
  lemma {:induction false} ExecLetLoads<V>(env: Env<V>, es: seq<(string, CodecRef)>, scs: seq<CodecRef>, vs: seq<V>,
                                           more: seq<LoadStmt>, rest: seq<byte>, locals: map<string, V>)
    requires |es| == |scs| == |vs|
    requires forall i :: 0 <= i < |es| ==> Inverts(env, scs[i], es[i].1, vs[i])
    ensures ExecLets(env, LetLoads(es) + more, SavesBytes(env, scs, vs) + rest, locals)
         == ExecLets(env, more, rest, BindSeq(locals, Firsts(es), vs))
  {
    if es != [] {
      var tail := SavesBytes(env, scs[1..], vs[1..]) + rest;
      var lets := LetLoads(es[1..]) + more;
      assert SavesBytes(env, scs, vs) + rest == env.save(scs[0], vs[0]) + tail;
      assert LetLoads(es) + more == [LetLoad(es[0].0, es[0].1)] + lets;
      LetLoadHead(env, es[0].0, es[0].1, scs[0], vs[0], lets, tail, locals);
      ExecLetLoads(env, es[1..], scs[1..], vs[1..], more, rest, locals[es[0].0 := vs[0]]);
      assert Firsts(es)[1..] == Firsts(es[1..]);
      assert BindSeq(locals, Firsts(es), vs) == BindSeq(locals[es[0].0 := vs[0]], Firsts(es[1..]), vs[1..]);
    } else {
      assert LetLoads(es) + more == more;
      assert SavesBytes(env, scs, vs) + rest == rest;
    }
  }

  /** `let n = <c>::load(loader)?;` over what the matching save wrote binds n and moves on. */
  lemma LetLoadHead<V>(env: Env<V>, n: string, c: CodecRef, sc: CodecRef, v: V, lets: seq<LoadStmt>, tail: seq<byte>,
                       locals: map<string, V>)
    requires Inverts(env, sc, c, v)
    ensures ExecLets(env, [LetLoad(n, c)] + lets, env.save(sc, v) + tail, locals) == ExecLets(env, lets, tail, locals[n := v])
  {
    assert env.load(c, env.save(sc, v) + tail) == Loaded(Ok(v), tail);
    assert ([LetLoad(n, c)] + lets)[1..] == lets;
  }

  /** A list of `let x = Default::default();` binds each name to its type's default. */
  lemma {:induction false} ExecLetDefaults<V>(env: Env<V>, es: seq<(string, string)>, vs: seq<V>, s: seq<byte>, locals: map<string, V>)
    requires |es| == |vs|
    requires forall i :: 0 <= i < |es| ==> vs[i] == env.default(es[i].1)
    ensures ExecLets(env, LetDefaults(es), s, locals) == Loaded(Ok(BindSeq(locals, Firsts(es), vs)), s)
  {
    if es != [] {
      assert LetDefaults(es)[1..] == LetDefaults(es[1..]);
      ExecLetDefaults(env, es[1..], vs[1..], s, locals[es[0].0 := env.default(es[0].1)]);
      assert Firsts(es)[1..] == Firsts(es[1..]);
    }
  }

  /** After binding distinct names, each name holds its value and every other name is untouched. */
  lemma {:induction false} BindSeqLookup<V>(locals: map<string, V>, names: seq<string>, vs: seq<V>)
    requires |names| == |vs| && Distinct(names)
    ensures forall i :: 0 <= i < |names| ==> names[i] in BindSeq(locals, names, vs) && BindSeq(locals, names, vs)[names[i]] == vs[i]
    ensures forall n :: n !in names ==> (n in BindSeq(locals, names, vs) <==> n in locals)
    ensures forall n :: n !in names && n in locals ==> BindSeq(locals, names, vs)[n] == locals[n]
    decreases |names|
  {
    if names != [] {
      BindSeqLookup(locals[names[0] := vs[0]], names[1..], vs[1..]);
      var r := BindSeq(locals, names, vs);
      forall i | 0 <= i < |names| ensures names[i] in r && r[names[i]] == vs[i] {
        if i > 0 {
          assert names[1..][i - 1] == names[i];
        } else {
          assert names[0] !in names[1..];
        }
      }
    }
  }

  /** Loading a tuple of values, left to right, through the load codecs from what the matching
      save codecs wrote. */
  lemma {:induction false} ExecTupleLoadsInverse<V>(env: Env<V>, scs: seq<CodecRef>, codecs: seq<CodecRef>, vs: seq<V>, j: nat, rest: seq<byte>, acc: map<Member, V>)
    requires |scs| == |codecs| == |vs|
    requires forall i :: 0 <= i < |codecs| ==> Inverts(env, scs[i], codecs[i], vs[i])
    ensures ExecTupleLoads(env, codecs, j, SavesBytes(env, scs, vs) + rest, acc).result.Ok?
    ensures ExecTupleLoads(env, codecs, j, SavesBytes(env, scs, vs) + rest, acc).rest == rest
    ensures forall i :: 0 <= i < |codecs| ==>
      FieldIndex(j + i) in ExecTupleLoads(env, codecs, j, SavesBytes(env, scs, vs) + rest, acc).result.value &&
      ExecTupleLoads(env, codecs, j, SavesBytes(env, scs, vs) + rest, acc).result.value[FieldIndex(j + i)] == vs[i]
    ensures forall m :: m in ExecTupleLoads(env, codecs, j, SavesBytes(env, scs, vs) + rest, acc).result.value <==>
      m in acc || (m.FieldIndex? && j <= m.index < j + |codecs|)
    ensures forall m :: m in acc && !(m.FieldIndex? && j <= m.index < j + |codecs|) ==>
      ExecTupleLoads(env, codecs, j, SavesBytes(env, scs, vs) + rest, acc).result.value[m] == acc[m]
  {
    if codecs != [] {
      var tail := SavesBytes(env, scs[1..], vs[1..]) + rest;
      assert SavesBytes(env, scs, vs) + rest == env.save(scs[0], vs[0]) + tail;
      assert env.load(codecs[0], env.save(scs[0], vs[0]) + tail) == Loaded(Ok(vs[0]), tail);
      ExecTupleLoadsInverse(env, scs[1..], codecs[1..], vs[1..], j + 1, rest, acc[FieldIndex(j) := vs[0]]);
      var r := ExecTupleLoads(env, codecs, j, SavesBytes(env, scs, vs) + rest, acc).result.value;
      forall i | 0 <= i < |codecs| ensures FieldIndex(j + i) in r && r[FieldIndex(j + i)] == vs[i] {
        if i > 0 {
          assert FieldIndex(j + 1 + (i - 1)) == FieldIndex(j + i);
        }
      }
    }
  }

  /** The value an arm's `match self` pattern selects, for a value of that variant. */
  lemma SaveOfMatch<V>(env: Env<V>, typeName: string, arms: seq<SaveArm>, k: nat, x: Obj<V>, load: LoadFn, kind: Trait)
    requires k < |arms| && x.variant == Some(PatternVariant(arms[k].pattern))
    requires forall j :: 0 <= j < k ==> PatternVariant(arms[j].pattern) != x.variant.value
    ensures SaveOf(env, Impl(kind, typeName, SaveMatch(arms), load), x) ==
      match Bind(arms[k].pattern, x)
      case None => None
      case Some(locals) => ExecSave(env, arms[k].body, x, locals)
  {
  }

  /** Loading a value whose discriminant selects the arm k runs that arm's body after the discriminant. */
  lemma LoadOfMatch<V>(env: Env<V>, impl: Impl, s: seq<byte>, d: nat, rest: seq<byte>, k: nat)
    requires impl.load.LoadMatch?
    requires env.discLoad(impl.load.disc, s) == Loaded(Ok(d), rest)
    requires k < |impl.load.arms| && impl.load.arms[k].index == d % 0x1_0000_0000
    requires forall j :: 0 <= j < k ==> impl.load.arms[j].index != d % 0x1_0000_0000
    ensures LoadOf(env, impl, s) == ExecBody(env, impl.load.arms[k].body, rest)
  {
    var r := FindLoadArm(impl.load.arms, d % 0x1_0000_0000);
    assert r == Some(k);
  }

  /** A discriminant that no arm's literal equals makes `load` return the "Failed to load" error. */
  lemma LoadOfUnknown<V>(env: Env<V>, impl: Impl, s: seq<byte>, d: nat, rest: seq<byte>)
    requires impl.load.LoadMatch?
    requires env.discLoad(impl.load.disc, s) == Loaded(Ok(d), rest)
    requires forall j :: 0 <= j < |impl.load.arms| ==> impl.load.arms[j].index != d % 0x1_0000_0000
    ensures LoadOf(env, impl, s) == Some(Loaded(Err(UnknownVariant(impl.load.typeName)), rest))
  {
  }
}
