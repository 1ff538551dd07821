/** `Remake` of src/remake.rs: a holder whose item can be rebuilt from itself in place. The item
    is an `Option` only so that `replace` can move it out; every operation leaves it present, and
    reading an absent one panics. */
module Remakes {
  import opened Wrappers

  const Missing := "Remake item should never be None"

  class Remake<T> {
    var item: Option<T>

    /** The item is present. */
    predicate Valid()
      reads this
    {
      item.Some?
    }

    /** `new` (and `From<T>`): holds the item. */
    constructor New(x: T)
      ensures Valid() && item == Some(x) && Get() == Returns(x)
    {
      item := Some(x);
    }

    /** `get` (and `Deref`): the item; only an absent one would panic. */
    function Get(): (r: Fallible<T>)
      reads this
      ensures Valid() ==> r == Returns(item.value)
      ensures !Valid() ==> r == Panics(Missing)
    {
      if item.Some? then Returns(item.value) else Panics(Missing)
    }

    /** `take`: consumes the holder and returns its item. */
    method Take() returns (r: Fallible<T>)
      ensures r == Get()
    {
      if item.None? {
        return Panics(Missing);
      }
      return Returns(item.value);
    }

    /** `replace(f)`: moves the item out, and stores f of it. The closure may panic; the item
        has been taken by then, so a panicking closure leaves the holder without its item. */
    method Replace(f: T -> Fallible<T>) returns (r: Fallible<Unit>)
      modifies this
      ensures old(Valid()) && f(old(item).value).Returns? ==>
        r == Returns(Unit) && Valid() && item == Some(f(old(item).value).value)
      ensures old(Valid()) && f(old(item).value).Panics? ==>
        r == Panics(f(old(item).value).message) && item == None
      ensures !old(Valid()) ==> r == Panics(Missing) && item == None
    {
      var taken := item;
      item := None;
      if taken.None? {
        return Panics(Missing);
      }
      var made := f(taken.value);
      if made.Panics? {
        return Panics(made.message);
      }
      item := Some(made.value);
      return Returns(Unit);
    }

    /** `*get_mut() = f(*get_mut())` (and `DerefMut`): the item is updated where it is. */
    method GetMutUpdate(f: T -> T) returns (r: Fallible<Unit>)
      modifies this
      ensures old(Valid()) ==> r == Returns(Unit) && Valid() && item == Some(f(old(item).value))
      ensures !old(Valid()) ==> r == Panics(Missing) && item == None
    {
      if item.None? {
        return Panics(Missing);
      }
      item := Some(f(item.value));
      return Returns(Unit);
    }
  }

  /** A holder built by `new` keeps its item through a `replace` whose closure returns and a
      `get_mut` update, and a later `get` sees both updates; a closure that panics aborts the
      sequence with its own message. */
  method ReplaceThenGet<T>(x: T, f: T -> Fallible<T>, g: T -> T) returns (r: Fallible<T>)
    ensures f(x).Returns? ==> r == Returns(g(f(x).value))
    ensures f(x).Panics? ==> r == Panics(f(x).message)
  {
    var h := new Remake.New(x);
    var replaced := h.Replace(f);
    if replaced.Panics? {
      return Panics(replaced.message);
    }
    var _ := h.GetMutUpdate(g);
    r := h.Get();
  }

  /** If the panic of `replace`'s closure is caught, the holder has lost its item: a later `get`
      panics with "Remake item should never be None". */
  method ReplacePanicLosesItem<T>(x: T, msg: string) returns (r: Fallible<T>, lost: Fallible<T>)
    ensures r == Panics(msg)
    ensures lost == Panics(Missing)
  {
    var h := new Remake.New(x);
    var replaced := h.Replace(_ => Panics(msg));
    r := Panics(replaced.message);
    lost := h.Get();
  }
}
