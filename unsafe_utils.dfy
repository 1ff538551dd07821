/** The nullable holders and the reference-counted pointer of src/unsafe_utils.rs, as their
    logical state: a heap allocation is an object with a `freed` flag, a null pointer is `null`,
    and a panic is a `Panics` result. */
module UnsafeUtils {
  import opened Wrappers

  const NullDeref := "Null pointer dereference!"

  /** One heap allocation holding a value. */
  class Slot<T> {
    var value: T
    var freed: bool

    constructor (value: T)
      ensures this.value == value && !freed
    {
      this.value := value;
      freed := false;
    }
  }

  // ---------------------------------------------------------------------------------------
  // Nullable: a value or nothing, held inline

  class Nullable<T> {
    var val: Option<T>

    /** `new`: holds the value. */
    constructor New(value: T)
      ensures val == Some(value)
    {
      val := Some(value);
    }

    /** `null`: holds nothing. */
    constructor Null()
      ensures val == None
    {
      val := None;
    }

    /** `From<Option<T>>`: the option as it is. */
    constructor FromOption(o: Option<T>)
      ensures val == o
    {
      val := o;
    }

    function IsNull(): (r: bool)
      reads this
      ensures r <==> val == None
    {
      val.None?
    }

    /** `replace`: holds the new value, null or not before. */
    method Replace(value: T)
      modifies this
      ensures val == Some(value)
    {
      val := Some(value);
    }

    /** `replace_null`: holds nothing. */
    method ReplaceNull()
      modifies this
      ensures val == None
    {
      val := None;
    }

    /** `take_replace`: swaps the new value in and hands the old one out; on null the new value
        is stored all the same and then the missing old one panics. */
    method TakeReplace(value: T) returns (r: Fallible<T>)
      modifies this
      ensures val == Some(value)
      ensures old(val).Some? ==> r == Returns(old(val).value)
      ensures old(val).None? ==> r == Panics(NullDeref)
    {
      var previous := val;
      val := Some(value);
      if previous.None? {
        return Panics(NullDeref);
      }
      return Returns(previous.value);
    }

    /** `take_replace_null`: hands the value out and leaves null; on null it panics. */
    method TakeReplaceNull() returns (r: Fallible<T>)
      modifies this
      ensures val == None
      ensures old(val).Some? ==> r == Returns(old(val).value)
      ensures old(val).None? ==> r == Panics(NullDeref)
    {
      var previous := val;
      val := None;
      if previous.None? {
        return Panics(NullDeref);
      }
      return Returns(previous.value);
    }

    /** `extract`: the value, or a panic on null. */
    function Extract(): (r: Fallible<T>)
      reads this
      ensures r.Panics? <==> IsNull()
      ensures r.Panics? ==> r.message == "Extracting a null value!"
      ensures r.Returns? ==> val == Some(r.value)
    {
      if val.None? then Panics("Extracting a null value!") else Returns(val.value)
    }

    /** `Deref`: the value, or a panic on null. */
    function Deref(): (r: Fallible<T>)
      reads this
      ensures r.Panics? <==> IsNull()
      ensures r.Panics? ==> r.message == NullDeref + " Check using StackNullable::is_null() before dereferencing!"
      ensures r.Returns? ==> val == Some(r.value)
    {
      if val.None? then Panics(NullDeref + " Check using StackNullable::is_null() before dereferencing!")
      else Returns(val.value)
    }

    /** `Display`: "null", or the value as `show` prints it. */
    function Display(show: T -> string): (r: string)
      reads this
      ensures IsNull() ==> r == "null"
      ensures !IsNull() ==> r == show(val.value)
    {
      if val.None? then "null" else show(val.value)
    }
  }

  /** Storing a value and taking it back out gives the value, and leaves null. */
  method ReplaceThenTake<T>(n: Nullable<T>, v: T) returns (r: Fallible<T>)
    modifies n
    ensures r == Returns(v) && n.IsNull()
  {
    n.Replace(v);
    r := n.TakeReplaceNull();
  }

  // ---------------------------------------------------------------------------------------
  // HeapNullable: a value or nothing, held behind a heap pointer

  class HeapNullable<T(==)> {
    var ptr: Slot?<T>
    /** Whether dropping the holder frees the allocation. */
    var drop: bool

    /** The model keeps `drop` set exactly while there is a live allocation. */
    predicate Valid()
      reads this, ptr
    {
      (ptr != null <==> drop) && (ptr != null ==> !ptr.freed)
    }

    /** The value held, or None for a null pointer. */
    function State(): Option<T>
      reads this, ptr
    {
      if ptr == null then None else Some(ptr.value)
    }

    /** `new`: a fresh allocation holding the value, freed on drop. */
    constructor New(value: T)
      ensures Valid() && fresh(ptr) && State() == Some(value)
    {
      ptr := new Slot(value);
      drop := true;
    }

    /** `null`: a null pointer, nothing to free. */
    constructor Null()
      ensures Valid() && ptr == null && State() == None
    {
      ptr := null;
      drop := false;
    }

    function IsNull(): (r: bool)
      reads this
      ensures r <==> ptr == null
    {
      ptr == null
    }

    /** `replace`: on null a fresh allocation is made; otherwise the value is overwritten in
        the existing allocation. */
    method Replace(value: T)
      requires Valid()
      modifies this, ptr
      ensures Valid() && State() == Some(value)
      ensures old(ptr) == null ==> fresh(ptr)
      ensures old(ptr) != null ==> ptr == old(ptr)
    {
      if ptr == null {
        ptr := new Slot(value);
        drop := true;
      } else {
        ptr.value := value;
      }
    }

    /** `replace_null`: frees a live allocation and becomes null; on null nothing happens. */
    method ReplaceNull()
      requires Valid()
      modifies this, ptr
      ensures Valid() && ptr == null && State() == None
      ensures old(ptr) != null ==> old(ptr).freed
    {
      if ptr != null {
        ptr.freed := true;
        ptr := null;
        drop := false;
      }
    }

    /** `take_replace`: swaps the value in the allocation; panics on null and changes nothing. */
    method TakeReplace(value: T) returns (r: Fallible<T>)
      requires Valid()
      modifies ptr
      ensures Valid() && ptr == old(ptr)
      ensures old(ptr) == null ==> r == Panics(NullDeref)
      ensures old(ptr) != null ==> r == Returns(old(ptr.value)) && State() == Some(value)
    {
      if ptr == null {
        return Panics(NullDeref);
      }
      var v := ptr.value;
      ptr.value := value;
      return Returns(v);
    }

    /** `take_replace_null`: hands the value out, frees the allocation and becomes null; panics
        on null. */
    method TakeReplaceNull() returns (r: Fallible<T>)
      requires Valid()
      modifies this, ptr
      ensures Valid() && ptr == null
      ensures old(ptr) == null ==> r == Panics(NullDeref)
      ensures old(ptr) != null ==> r == Returns(old(ptr.value)) && old(ptr).freed
    {
      if ptr == null {
        return Panics(NullDeref);
      }
      var v := ptr.value;
      ptr.freed := true;
      ptr := null;
      drop := false;
      return Returns(v);
    }

    /** `Deref`: the value, or a panic on null. */
    function Deref(): (r: Fallible<T>)
      reads this, ptr
      ensures r.Panics? <==> IsNull()
      ensures r.Panics? ==> r.message == NullDeref + " Check using HeapNullable::is_null() before dereferencing!"
      ensures r.Returns? ==> State() == Some(r.value)
    {
      if ptr == null then Panics(NullDeref + " Check using HeapNullable::is_null() before dereferencing!")
      else Returns(ptr.value)
    }

    /** `PartialEq`: null equals only null; two live pointers compare what they point to. So
        holders are equal exactly when they hold the same, whether or not they share an
        allocation. */
    function Eq(other: HeapNullable<T>): (r: bool)
      reads this, ptr, other, other.ptr
      ensures r <==> State() == other.State()
    {
      if ptr == null then other.ptr == null
      else if other.ptr == null then false
      else ptr.value == other.ptr.value
    }

    /** `Display`: "null", or the value as `show` prints it. */
    function Display(show: T -> string): (r: string)
      reads this, ptr
      ensures IsNull() ==> r == "null"
      ensures !IsNull() ==> r == show(ptr.value)
    {
      if ptr == null then "null" else show(ptr.value)
    }

    /** `Drop`: frees the allocation when the holder owns one. */
    method Drop()
      requires Valid()
      modifies ptr
      ensures ptr != null ==> ptr.freed
    {
      if drop && ptr != null {
        ptr.freed := true;
      }
    }
  }

  // ---------------------------------------------------------------------------------------
  // UnsafeRc: a shared pointer with a heap-allocated reference count

  /** The heap-allocated count of an `UnsafeRc`, with the handles that share it. */
  class Counter {
    var count: nat
    var freed: bool
    ghost var holders: set<object>

    constructor ()
      ensures count == 1 && !freed && holders == {}
    {
      count := 1;
      freed := false;
      holders := {};
    }
  }

  class UnsafeRc<T(==)> {
    const ptr: Slot<T>
    /** Whether the payload was allocated by the pointer (and so is freed with it). */
    const alloc: bool
    const refCount: Counter

    /** The count is live and equals the number of handles sharing it, this one among them. */
    ghost predicate Valid()
      reads this, refCount
    {
      !refCount.freed && this in refCount.holders && refCount.count == |refCount.holders|
    }

    /** `new`: moves the value into a fresh allocation that the last drop frees. */
    constructor New(value: T)
      ensures Valid() && fresh(ptr) && fresh(refCount) && ptr.value == value && !ptr.freed
      ensures alloc && refCount.count == 1 && refCount.holders == {this}
    {
      ptr := new Slot(value);
      alloc := true;
      var counter := new Counter();
      refCount := counter;
      new;
      counter.holders := {this};
    }

    /** `from_ref`: points at a value it does not own, which no drop frees. */
    constructor FromRef(value: Slot<T>)
      ensures Valid() && ptr == value && fresh(refCount)
      ensures !alloc && refCount.count == 1 && refCount.holders == {this}
    {
      ptr := value;
      alloc := false;
      var counter := new Counter();
      refCount := counter;
      new;
      counter.holders := {this};
    }

    /** The handle `clone` builds: the same payload, the same count. */
    constructor Share(ptr: Slot<T>, alloc: bool, refCount: Counter)
      ensures this.ptr == ptr && this.alloc == alloc && this.refCount == refCount
    {
      this.ptr := ptr;
      this.alloc := alloc;
      this.refCount := refCount;
    }

    /** `clone`: a new handle to the same payload; the shared count goes up by one. */
    method Clone() returns (c: UnsafeRc<T>)
      requires Valid()
      modifies refCount
      ensures fresh(c) && c.ptr == ptr && c.alloc == alloc && c.refCount == refCount
      ensures refCount.count == old(refCount.count) + 1
      ensures refCount.holders == old(refCount.holders) + {c}
      ensures Valid() && c.Valid()
    {
      c := new UnsafeRc.Share(ptr, alloc, refCount);
      refCount.count := refCount.count + 1;
      refCount.holders := refCount.holders + {c};
    }

    /** `Drop`: the last handle frees the count, and the payload only if it allocated it;
        any other handle just takes itself off the count. */
    method Drop()
      requires Valid()
      modifies refCount, ptr
      ensures old(refCount.count) == 1 ==>
        refCount.freed && ptr.freed == (old(ptr.freed) || alloc)
      ensures old(refCount.count) > 1 ==>
        !refCount.freed && refCount.count == old(refCount.count) - 1 &&
        refCount.holders == old(refCount.holders) - {this} &&
        refCount.count == |refCount.holders| && ptr.freed == old(ptr.freed)
      ensures ptr.value == old(ptr.value)
    {
      if refCount.count == 1 {
        if alloc {
          ptr.freed := true;
        }
        refCount.freed := true;
      } else {
        refCount.count := refCount.count - 1;
        refCount.holders := refCount.holders - {this};
      }
    }

    /** `Deref`: the payload. The `expect("Dereferencing a nulled UnsafeRc!")` of the source
        never fires: `ptr` has a non-null type here, because every constructor stores a
        non-null pointer. */
    function Deref(): (r: Fallible<T>)
      reads ptr
      ensures r.Returns? && r.value == ptr.value
    {
      Returns(ptr.value)
    }

    /** `PartialEq`: compares the payloads, not the pointers. */
    function Eq(other: UnsafeRc<T>): (r: bool)
      reads ptr, other, other.ptr
      ensures r <==> ptr.value == other.ptr.value
    {
      Deref().value == other.Deref().value
    }
  }

  /** Handles built by `new` dereference to the value they were given and compare by it: two
      separate allocations are equal iff their values are, and a clone equals its original. */
  method RcDerefEq<T(==)>(x: T, y: T) returns (dx: Fallible<T>, same: bool, cloned: bool)
    ensures dx == Returns(x)
    ensures same <==> x == y
    ensures cloned
  {
    var a := new UnsafeRc.New(x);
    var b := new UnsafeRc.New(y);
    dx := a.Deref();
    same := a.Eq(b);
    var c := a.Clone();
    cloned := a.Eq(c);
  }

  /** Two handles from one `clone` chain share the count, so dropping one leaves the other
      valid and the payload alive. */
  method CloneThenDrop<T(==)>(value: T) returns (rc: UnsafeRc<T>)
    ensures fresh(rc) && rc.Valid() && rc.refCount.count == 1 && !rc.ptr.freed && rc.ptr.value == value
  {
    rc := new UnsafeRc.New(value);
    var other := rc.Clone();
    other.Drop();
  }
}
