/** The fixed-length vector of src/static_vec.rs: a heap buffer of `len` slots with
    bounds-checked access, and its three iterators. The buffer is an array whose length never
    changes; its slots are written in place. */
module StaticVector {
  import opened Wrappers
  import Text

  /** The panic of `Index` and `IndexMut`. */
  function OutOfBounds(index: nat, len: nat): string
  {
    "Index " + Text.Decimal(index) + " out of bounds for length " + Text.Decimal(len) + "!"
  }

  class StaticVec<T> {
    const data: array<T>
    const len: nat

    /** The buffer holds exactly `len` slots. */
    predicate Valid()
    {
      data.Length == len
    }

    /** The buffer `new(len)` builds once the allocation succeeds: len zero-filled slots; zero
        stands for the value whose bytes are all zero. */
    constructor Zeroed(len: nat, zero: T)
      ensures Valid() && this.len == len && fresh(data)
      ensures forall i :: 0 <= i < len ==> data[i] == zero
    {
      this.len := len;
      data := new T[len](_ => zero);
    }

    /** `From<Vec<T>>` and `FromIterator`: the collected vector's buffer becomes the StaticVec's,
        in the same order. */
    constructor FromVec(v: seq<T>)
      ensures Valid() && len == |v| && fresh(data) && data[..] == v
    {
      len := |v|;
      data := new T[|v|](i requires 0 <= i < |v| => v[i]);
    }

    /** `Deref`: the slots as a slice. */
    function Contents(): (r: seq<T>)
      requires Valid()
      reads data
      ensures |r| == len
      ensures forall i :: 0 <= i < len ==> r[i] == data[i]
    {
      data[..]
    }

    /** `is_empty`. */
    function IsEmpty(): (r: bool)
      requires Valid()
      ensures r <==> len == 0
      ensures r <==> Contents() == []
    {
      len == 0
    }

    /** `get`: the element at index, or None past the end. */
    function Get(index: nat): (r: Option<T>)
      requires Valid()
      reads data
      ensures r.None? <==> index >= len
      ensures r.Some? ==> r.value == Contents()[index]
    {
      if index >= len then None else Some(data[index])
    }

    /** `Index`: the element at index, or a panic naming the index and the length. */
    function Index(index: nat): (r: Fallible<T>)
      requires Valid()
      reads data
      ensures r.Panics? <==> index >= len
      ensures r.Panics? ==> r.message == OutOfBounds(index, len)
      ensures r.Returns? ==> Get(index) == Some(r.value)
    {
      if index >= len then Panics(OutOfBounds(index, len)) else Returns(data[index])
    }

    /** `set`: writes slot index, or panics past the end without writing anything. */
    method Set(index: nat, value: T) returns (r: Fallible<Unit>)
      requires Valid()
      modifies data
      ensures r.Panics? <==> index >= len
      ensures r.Panics? ==> r.message == "Index out of bounds!"
      ensures index < len ==> data[..] == old(data[..])[index := value]
      ensures index >= len ==> data[..] == old(data[..])
    {
      if index >= len {
        return Panics("Index out of bounds!");
      }
      data[index] := value;
      return Returns(Unit);
    }

    /** `vec[index] = value` through `IndexMut`: the same write as `set`, with the panic of
        `Index`. */
    method IndexSet(index: nat, value: T) returns (r: Fallible<Unit>)
      requires Valid()
      modifies data
      ensures r.Panics? <==> index >= len
      ensures r.Panics? ==> r.message == OutOfBounds(index, len)
      ensures index < len ==> data[..] == old(data[..])[index := value]
      ensures index >= len ==> data[..] == old(data[..])
    {
      if index >= len {
        return Panics(OutOfBounds(index, len));
      }
      data[index] := value;
      return Returns(Unit);
    }

    /** `if let Some(x) = vec.get_mut(index) { *x = f(*x) }`: `get_mut` borrows slot index when
        it exists, so the update lands in that slot and nowhere else. */
    method GetMutUpdate(index: nat, f: T -> T) returns (found: bool)
      requires Valid()
      modifies data
      ensures found <==> index < len
      ensures found ==> data[..] == old(data[..])[index := f(old(data[index]))]
      ensures !found ==> data[..] == old(data[..])
    {
      if index >= len {
        return false;
      }
      data[index] := f(data[index]);
      return true;
    }
  }

  /** `isize::MAX` on a 64-bit target. */
  const IsizeMax: nat := 0x7FFF_FFFF_FFFF_FFFF

  /** `Layout::array::<T>(len)` succeeds for an element of the given size and alignment: a
      zero-sized element always fits, any other only up to `(isize::MAX - (align - 1)) / size`
      elements. */
  predicate LayoutFits(len: nat, size: nat, align: nat)
    requires 1 <= align <= IsizeMax + 1
  {
    size == 0 || len <= (IsizeMax - (align - 1)) / size
  }

  /** The array fits exactly when its byte size, rounded up to the alignment, is at most
      `isize::MAX`. */
  lemma LayoutFitsBytes(len: nat, size: nat, align: nat)
    requires 1 <= align <= IsizeMax + 1
    ensures LayoutFits(len, size, align) <==> len * size <= IsizeMax - (align - 1)
  {
    if size > 0 {
      var m := IsizeMax - (align - 1);
      var q, r := m / size, m % size;
      assert m == q * size + r && 0 <= r < size;
      if len <= q {
        MulMono(len, q, size);
      } else {
        MulMono(q + 1, len, size);
        assert (q + 1) * size == q * size + size;
      }
    }
  }

  /** 2^60 eight-byte elements are one too many on a 64-bit target; zero-sized elements
      always fit. */
  lemma LayoutExamples(n: nat)
    ensures LayoutFits(0x0FFF_FFFF_FFFF_FFFF, 8, 8) && !LayoutFits(0x1000_0000_0000_0000, 8, 8)
    ensures LayoutFits(n, 0, 1)
  {
  }

  lemma MulMono(a: nat, b: nat, c: nat)
    requires a <= b
    ensures a * c <= b * c
  {
    assert b * c == a * c + (b - a) * c;
  }

  /** The panic of `Layout::array` failing. */
  function LayoutInvalid(len: nat): string
  {
    "Length of " + Text.Decimal(len) + " not valid!"
  }

  const AllocFailed := "Failed to allocate memory for StaticVec!"

  /** `StaticVec::new(len)` for an element type of the given size and alignment: it panics when
      the array's layout is invalid, and when the allocator returns null (`allocates` is
      false); otherwise it owns len fresh zero-filled slots. */
  method NewStaticVec<T>(len: nat, zero: T, size: nat, align: nat, allocates: bool) returns (r: Fallible<StaticVec<T>>)
    requires 1 <= align <= IsizeMax + 1
    ensures r.Panics? <==> !LayoutFits(len, size, align) || !allocates
    ensures !LayoutFits(len, size, align) ==> r == Panics(LayoutInvalid(len))
    ensures LayoutFits(len, size, align) && !allocates ==> r == Panics(AllocFailed)
    ensures r.Returns? ==> fresh(r.value) && fresh(r.value.data) && r.value.Valid() && r.value.len == len
    ensures r.Returns? ==> forall i :: 0 <= i < len ==> r.value.data[i] == zero
  {
    if !LayoutFits(len, size, align) {
      return Panics(LayoutInvalid(len));
    }
    if !allocates {
      return Panics(AllocFailed);
    }
    var v := new StaticVec.Zeroed(len, zero);
    return Returns(v);
  }

  /** `From<&[T]>`: a zero-filled vector of the slice's length, then `vec[i] = t.clone()` for
      each element in turn. */
  method FromSlice<T>(s: seq<T>, zero: T) returns (v: StaticVec<T>)
    ensures fresh(v) && fresh(v.data) && v.Valid() && v.Contents() == s
  {
    v := new StaticVec.Zeroed(|s|, zero);
    var i := 0;
    while i < |s|
      invariant 0 <= i <= |s| && v.Valid() && v.len == |s|
      invariant forall j :: 0 <= j < i ==> v.data[j] == s[j]
      modifies v.data
    {
      var _ := v.IndexSet(i, s[i]);
      i := i + 1;
    }
  }

  /** `iter`: each call to `next` asks `get` for the current index and moves on, so past the end
      it keeps returning None. */
  class Iter<T> {
    const vec: StaticVec<T>
    var index: nat

    constructor (vec: StaticVec<T>)
      ensures this.vec == vec && index == 0
    {
      this.vec := vec;
      index := 0;
    }

    method Next() returns (r: Option<T>)
      requires vec.Valid()
      modifies this
      ensures r == vec.Get(old(index)) && index == old(index) + 1
    {
      r := vec.Get(index);
      index := index + 1;
    }
  }

  /** `vec.iter().collect()`: the elements come out in order, and the first None ends them. */
  method CollectIter<T>(vec: StaticVec<T>) returns (xs: seq<T>)
    requires vec.Valid()
    ensures xs == vec.Contents()
  {
    var it := new Iter(vec);
    xs := [];
    var x := it.Next();
    while x.Some?
      invariant x.Some? ==> 1 <= it.index <= vec.len && x.value == vec.data[it.index - 1]
      invariant x.None? ==> it.index == vec.len + 1
      invariant xs == vec.data[..it.index - 1]
      decreases vec.len + 1 - it.index
    {
      assert vec.data[..it.index] == vec.data[..it.index - 1] + [x.value];
      xs := xs + [x.value];
      x := it.Next();
    }
    assert vec.data[..vec.len] == vec.data[..];
  }

  /** `iter_mut`: next hands out the slot at the current index (a mutable borrow of it) until
      the end, and then None without moving. */
  class IterMut<T> {
    const vec: StaticVec<T>
    var index: nat

    constructor (vec: StaticVec<T>)
      ensures this.vec == vec && index == 0
    {
      this.vec := vec;
      index := 0;
    }

    method Next() returns (slot: Option<nat>)
      requires vec.Valid()
      modifies this
      ensures old(index) >= vec.len ==> slot == None && index == old(index)
      ensures old(index) < vec.len ==> slot == Some(old(index)) && index == old(index) + 1
    {
      if index >= vec.len {
        return None;
      }
      slot := Some(index);
      index := index + 1;
    }
  }

  /** `for x in vec.iter_mut() { *x = f(*x) }`: every slot is borrowed once, in order, so every
      element is updated exactly once. */
  method UpdateAll<T>(vec: StaticVec<T>, f: T -> T)
    requires vec.Valid()
    modifies vec.data
    ensures |vec.Contents()| == |old(vec.Contents())|
    ensures forall i :: 0 <= i < vec.len ==> vec.data[i] == f(old(vec.data[i]))
  {
    var it := new IterMut(vec);
    var slot := it.Next();
    while slot.Some?
      invariant slot.Some? ==> 1 <= it.index <= vec.len && slot.value == it.index - 1
      invariant slot.None? ==> it.index == vec.len
      invariant forall i :: 0 <= i < vec.len ==>
        vec.data[i] == if i < it.index - (if slot.Some? then 1 else 0) then f(old(vec.data[i])) else old(vec.data[i])
      invariant fresh(it)
      modifies vec.data, it
      decreases vec.len + 1 - it.index, slot.Some?
    {
      vec.data[slot.value] := f(vec.data[slot.value]);
      slot := it.Next();
    }
  }

  /** `into_iter`: moves the elements out one by one, in order, and answers None once the index
      reaches the length. */
  class IntoIter<T> {
    const vec: StaticVec<T>
    var index: nat

    /** The index never passes the length. */
    predicate Valid()
      reads this
    {
      vec.Valid() && index <= vec.len
    }

    constructor (vec: StaticVec<T>)
      requires vec.Valid()
      ensures this.vec == vec && index == 0 && Valid()
    {
      this.vec := vec;
      index := 0;
    }

    method Next() returns (r: Option<T>)
      requires Valid()
      modifies this
      ensures Valid()
      ensures old(index) == vec.len ==> r == None && index == old(index)
      ensures old(index) < vec.len ==> r == Some(vec.data[old(index)]) && index == old(index) + 1
    {
      if index == vec.len {
        return None;
      }
      r := Some(vec.data[index]);
      index := index + 1;
    }
  }

  /** `vec.into_iter().collect()`: the elements, in order. */
  method CollectIntoIter<T>(vec: StaticVec<T>) returns (xs: seq<T>)
    requires vec.Valid()
    ensures xs == vec.Contents()
  {
    var it := new IntoIter(vec);
    xs := [];
    var x := it.Next();
    while x.Some?
      invariant it.Valid() && it.vec == vec
      invariant x.Some? ==> 1 <= it.index && x.value == vec.data[it.index - 1]
      invariant x.None? ==> it.index == vec.len
      invariant xs == vec.data[..it.index - (if x.Some? then 1 else 0)]
      decreases vec.len + 1 - it.index, x.Some?
    {
      assert vec.data[..it.index] == vec.data[..it.index - 1] + [x.value];
      xs := xs + [x.value];
      x := it.Next();
    }
    assert vec.data[..vec.len] == vec.data[..];
  }
}
