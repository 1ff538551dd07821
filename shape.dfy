/** The type shape a derive macro receives (what `syn` parses from the item), and the
    helpers both `Savable` generators share: the `unsaved` filter, the order-keeping
    partition of fields, and `key`, which names positional fields `a`, `b`, …, `z`, `aa`, ….

    Token parsing itself is not modelled: an attribute's argument list is given by what it
    parses as. */
module Shape {
  import opened Wrappers
  import opened Bytes

  /** A path such as `unsaved`, `mvutils::save::custom::varint_save`, as its identifier segments. */
  datatype Path = Path(segments: seq<string>)

  datatype Expr = PathExpr(path: Path) | OtherExpr

  /** `key = value` inside `#[custom(save = f, load = g)]`. */
  datatype KeyValue = KeyValue(key: string, value: Expr)

  /** What the tokens between an attribute's parentheses parse as: a comma-separated list of
      `key = value` entries (possibly empty), a single path, or neither. */
  datatype Args = KeyValues(entries: seq<KeyValue>) | PathArg(path: Path) | Unparsable

  /** `syn::Meta`: `#[p]`, `#[p(args)]` or `#[p = value]`. */
  datatype Meta = MetaPath(path: Path) | MetaList(path: Path, args: Args) | MetaNameValue(path: Path, value: Expr)

  /** A field: its name (unused for tuple fields), its type and its attributes. */
  datatype Field = Field(name: string, ty: string, attrs: seq<Meta>)

  datatype Fields = Named(named: seq<Field>) | Unnamed(unnamed: seq<Field>) | UnitFields

  datatype Variant = Variant(ident: string, attrs: seq<Meta>, fields: Fields)

  datatype Data = StructData(fields: Fields) | EnumData(variants: seq<Variant>) | UnionData

  datatype DeriveInput = DeriveInput(ident: string, attrs: seq<Meta>, data: Data)

  function MetaPathOf(m: Meta): Path
  {
    match m
    case MetaPath(p) => p
    case MetaList(p, _) => p
    case MetaNameValue(p, _) => p
  }

  /** `path.segments.iter().any(|s| s.ident == name)`. */
  predicate HasSegment(p: Path, name: string)
  {
    exists i :: 0 <= i < |p.segments| && p.segments[i] == name
  }

  /** `path.is_ident(name)`: the path is exactly the one identifier. */
  predicate IsIdent(p: Path, name: string)
  {
    p.segments == [name]
  }

  /** `is_unsaved`: a bare path attribute with a segment `unsaved`. */
  predicate IsUnsavedAttr(m: Meta)
  {
    m.MetaPath? && HasSegment(m.path, "unsaved")
  }

  /** `filter`: a field is saved unless one of its attributes is `unsaved`. */
  predicate IsSaved(f: Field)
  {
    !exists i :: 0 <= i < |f.attrs| && IsUnsavedAttr(f.attrs[i])
  }

  /** The elements of s satisfying p, in their original order. */
  function Filter<T>(s: seq<T>, p: T -> bool): (r: seq<T>)
    ensures |r| <= |s|
  {
    if s == [] then [] else (if p(s[0]) then [s[0]] else []) + Filter(s[1..], p)
  }

  /** One step of `Filter` on a list given by its head. */
  lemma FilterCons<T>(x: T, s: seq<T>, p: T -> bool)
    ensures Filter([x] + s, p) == (if p(x) then [x] else []) + Filter(s, p)
  {
    assert ([x] + s)[1..] == s;
  }

  /** `iter().partition(p)`: the elements satisfying p and the others. */
  function Partition<T>(s: seq<T>, p: T -> bool): (r: (seq<T>, seq<T>))
  {
    (Filter(s, p), Filter(s, Not(p)))
  }

  function Not<T>(p: T -> bool): T -> bool
  {
    x => !p(x)
  }

  /** Filtering distributes over concatenation: an element that comes before another in the
      input comes before it in the output. */
  lemma {:induction false} FilterAppend<T>(s: seq<T>, t: seq<T>, p: T -> bool)
    ensures Filter(s + t, p) == Filter(s, p) + Filter(t, p)
  {
    if s == [] {
      assert s + t == t;
    } else {
      var h := if p(s[0]) then [s[0]] else [];
      assert s + t != [] && (s + t)[0] == s[0];
      assert (s + t)[1..] == s[1..] + t;
      FilterAppend(s[1..], t, p);
      assert Filter(s + t, p) == h + (Filter(s[1..], p) + Filter(t, p));
      assert h + (Filter(s[1..], p) + Filter(t, p)) == (h + Filter(s[1..], p)) + Filter(t, p);
    }
  }

  /** The two halves of a partition together hold every element exactly once. */
  lemma {:induction false} PartitionComplete<T>(s: seq<T>, p: T -> bool)
    ensures |Partition(s, p).0| + |Partition(s, p).1| == |s|
    ensures multiset(Partition(s, p).0) + multiset(Partition(s, p).1) == multiset(s)
    ensures forall x :: x in Partition(s, p).0 ==> p(x)
    ensures forall x :: x in Partition(s, p).1 ==> !p(x)
  {
    if s != [] {
      PartitionComplete(s[1..], p);
      assert s == [s[0]] + s[1..];
    }
  }

  /** An element is kept by the filter exactly when it satisfies p. */
  lemma {:induction false} FilterMembership<T>(s: seq<T>, p: T -> bool, x: T)
    ensures x in Filter(s, p) <==> x in s && p(x)
  {
    if s != [] {
      FilterMembership(s[1..], p, x);
    }
  }

  /** Filtering keeps keys distinct: elements with pairwise different keys still have them
      after filtering. */
  lemma {:induction false} FilterKeysDistinct<T, K>(s: seq<T>, p: T -> bool, key: T -> K)
    requires forall i, j :: 0 <= i < j < |s| ==> key(s[i]) != key(s[j])
    ensures forall i, j :: 0 <= i < j < |Filter(s, p)| ==> key(Filter(s, p)[i]) != key(Filter(s, p)[j])
  {
    if s != [] {
      var tl := s[1..];
      assert forall i, j :: 0 <= i < j < |tl| ==> key(tl[i]) != key(tl[j]) by {
        forall i, j | 0 <= i < j < |tl| ensures key(tl[i]) != key(tl[j]) {
          assert tl[i] == s[i + 1] && tl[j] == s[j + 1];
        }
      }
      FilterKeysDistinct(tl, p, key);
      var t := Filter(tl, p);
      var r := Filter(s, p);
      if p(s[0]) {
        assert r == [s[0]] + t;
        forall i, j | 0 <= i < j < |r| ensures key(r[i]) != key(r[j]) {
          if i == 0 {
            assert r[j] == t[j - 1];
            FilterMembership(tl, p, t[j - 1]);
            var m :| 0 <= m < |tl| && tl[m] == t[j - 1];
            assert s[m + 1] == r[j];
          } else {
            assert r[i] == t[i - 1] && r[j] == t[j - 1];
          }
        }
      } else {
        assert r == t;
      }
    }
  }

  /** No key is shared between the two halves of a partition, when keys are distinct. */
  lemma FilterKeysDisjoint<T, K>(s: seq<T>, p: T -> bool, key: T -> K)
    requires forall i, j :: 0 <= i < j < |s| ==> key(s[i]) != key(s[j])
    ensures forall a, b :: 0 <= a < |Filter(s, p)| && 0 <= b < |Filter(s, Not(p))| ==>
      key(Filter(s, p)[a]) != key(Filter(s, Not(p))[b])
  {
    forall a, b | 0 <= a < |Filter(s, p)| && 0 <= b < |Filter(s, Not(p))|
      ensures key(Filter(s, p)[a]) != key(Filter(s, Not(p))[b])
    {
      var x, y := Filter(s, p)[a], Filter(s, Not(p))[b];
      assert x in Filter(s, p) && y in Filter(s, Not(p));
      FilterMembership(s, p, x);
      FilterMembership(s, Not(p), y);
      var i :| 0 <= i < |s| && s[i] == x;
      var j :| 0 <= j < |s| && s[j] == y;
      assert p(x) && !p(y);
    }
  }

  /** A filter that every element passes keeps the whole sequence, and its complement is empty. */
  lemma {:induction false} FilterAll<T>(s: seq<T>, p: T -> bool)
    requires forall i :: 0 <= i < |s| ==> p(s[i])
    ensures Filter(s, p) == s
    ensures Filter(s, Not(p)) == []
  {
    if s != [] {
      assert forall i :: 0 <= i < |s[1..]| ==> p(s[1..][i]) by {
        forall i | 0 <= i < |s[1..]| ensures p(s[1..][i]) {
          assert s[1..][i] == s[i + 1];
        }
      }
      FilterAll(s[1..], p);
      assert !Not(p)(s[0]);
      assert Filter(s, Not(p)) == Filter(s[1..], Not(p));
      assert Filter(s, p) == [s[0]] + Filter(s[1..], p);
      assert s == [s[0]] + s[1..];
    }
  }

  /** `(fields, unsaved_fields) = fields.iter().partition(filter)`. */
  function Saved(fs: seq<Field>): (r: seq<Field>)
  {
    Partition(fs, IsSaved).0
  }

  function Unsaved(fs: seq<Field>): (r: seq<Field>)
  {
    Partition(fs, IsSaved).1
  }

  lemma SavedUnsavedPartition(fs: seq<Field>)
    ensures forall f :: f in Saved(fs) <==> f in fs && IsSaved(f)
    ensures forall f :: f in Unsaved(fs) <==> f in fs && !IsSaved(f)
    ensures |Saved(fs)| + |Unsaved(fs)| == |fs|
  {
    PartitionComplete(fs, IsSaved);
    forall f ensures f in Saved(fs) <==> f in fs && IsSaved(f) {
      FilterMembership(fs, IsSaved, f);
    }
    forall f ensures f in Unsaved(fs) <==> f in fs && !IsSaved(f) {
      FilterMembership(fs, Not(IsSaved), f);
    }
  }

  function Names(fs: seq<Field>): (r: seq<string>)
    ensures |r| == |fs|
    ensures forall i :: 0 <= i < |fs| ==> r[i] == fs[i].name
  {
    if fs == [] then [] else [fs[0].name] + Names(fs[1..])
  }

  // ---------------------------------------------------------------------------------------
  // key: bijective base-26 names for positional fields

  /** The lowercase letter for a digit 0..25. */
  function Letter(d: nat): (c: char)
    requires d < 26
    ensures 'a' <= c <= 'z'
  {
    (('a' as int) + d) as char
  }

  function LetterIndex(c: char): (d: nat)
    requires 'a' <= c <= 'z'
    ensures d < 26 && Letter(d) == c
  {
    (c as int) - ('a' as int)
  }

  /** Bijective base-26 numeral of n in the digits a..z, most significant first. */
  function KeyName(n: nat): (r: string)
    ensures |r| >= 1
    ensures forall i :: 0 <= i < |r| ==> 'a' <= r[i] <= 'z'
  {
    if n < 26 then [Letter(n)] else KeyName(n / 26 - 1) + [Letter(n % 26)]
  }

  predicate IsLowerWord(s: string)
  {
    |s| >= 1 && forall i :: 0 <= i < |s| ==> 'a' <= s[i] <= 'z'
  }

  /** The number a lowercase word names: the inverse of KeyName. */
  function KeyIndex(s: string): nat
    requires IsLowerWord(s)
  {
    if |s| == 1 then LetterIndex(s[0])
    else (KeyIndex(s[..|s| - 1]) + 1) * 26 + LetterIndex(s[|s| - 1])
  }

  lemma {:induction false} KeyIndexOfKeyName(n: nat)
    ensures KeyIndex(KeyName(n)) == n
  {
    if n >= 26 {
      var k := KeyName(n / 26 - 1);
      KeyIndexOfKeyName(n / 26 - 1);
      assert KeyName(n)[..|KeyName(n)| - 1] == k;
      assert LetterIndex(Letter(n % 26)) == n % 26;
    }
  }

  lemma {:induction false} KeyNameOfKeyIndex(s: string)
    requires IsLowerWord(s)
    ensures KeyName(KeyIndex(s)) == s
  {
    if |s| > 1 {
      var init := s[..|s| - 1];
      KeyNameOfKeyIndex(init);
      var n := KeyIndex(s);
      var d := LetterIndex(s[|s| - 1]);
      assert n == (KeyIndex(init) + 1) * 26 + d;
      assert n / 26 - 1 == KeyIndex(init) && n % 26 == d;
      assert s == init + [s[|s| - 1]];
    }
  }

  /** Distinct numbers get distinct names ... */
  lemma KeyNameInjective(m: nat, n: nat)
    ensures KeyName(m) == KeyName(n) ==> m == n
  {
    KeyIndexOfKeyName(m);
    KeyIndexOfKeyName(n);
  }

  /** ... and every lowercase word is the name of some number: the naming is a bijection. */
  lemma KeyNameSurjective(s: string)
    requires IsLowerWord(s)
    ensures exists n: nat :: KeyName(n) == s
  {
    KeyNameOfKeyIndex(s);
  }

  lemma KeyNameExamples()
    ensures KeyName(0) == "a" && KeyName(25) == "z" && KeyName(26) == "aa"
    ensures KeyName(27) == "ab" && KeyName(701) == "zz" && KeyName(702) == "aaa"
  {
    assert KeyName(26) == KeyName(0) + [Letter(0)];
    assert KeyName(27) == KeyName(0) + [Letter(1)];
    assert KeyName(701) == KeyName(25) + [Letter(25)];
    assert KeyName(702) == KeyName(26) + [Letter(0)];
  }

  /** `key(n)`: the loop that pushes the least significant digit first and reverses at the end. */
  method Key(n0: u32) returns (s: string)
    ensures s == KeyName(n0)
  {
    var n: nat := n0;
    var result: string := [];
    while true
      invariant n <= n0
      invariant KeyName(n0) == KeyName(n) + Reverse(result)
      decreases n
    {
      var remainder := n % 26;
      ghost var before := result;
      ghost var m := n;
      result := result + [Letter(remainder)];
      ReverseSnoc(before, Letter(remainder));
      n := n / 26;
      if n == 0 {
        assert KeyName(m) == [Letter(remainder)];
        break;
      }
      n := n - 1;
      assert KeyName(m) == KeyName(n) + [Letter(remainder)];
    }
    s := Reverse(result);
  }

  lemma ReverseSnoc<T>(s: seq<T>, x: T)
    ensures Reverse(s + [x]) == [x] + Reverse(s)
  {
    var r := Reverse(s + [x]);
    assert |r| == |s| + 1;
    forall i | 0 <= i < |r| ensures r[i] == ([x] + Reverse(s))[i] {
    }
  }
}
