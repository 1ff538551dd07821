/** `OrDefault` of src/ordefault.rs: an optional value with a fallback that reads and writes go to
    while the value is absent. `T::default()` is passed in as a parameter. */
module OrDefaults {
  import opened Wrappers

  class OrDefault<T> {
    var inner: Option<T>
    var def: T

    /** `new`: a value and its fallback. */
    constructor New(t: T, def: T)
      ensures inner == Some(t) && this.def == def && Get() == t
    {
      inner := Some(t);
      this.def := def;
    }

    /** `uninit`: no value yet, so reads give the fallback. */
    constructor Uninit(def: T)
      ensures inner == None && this.def == def && Get() == def
    {
      inner := None;
      this.def := def;
    }

    /** `new_default`: a value, with `T::default()` as fallback. */
    constructor NewDefault(t: T, default: T)
      ensures inner == Some(t) && def == default && Get() == t
    {
      inner := Some(t);
      def := default;
    }

    /** `uninit_default`: no value, `T::default()` as fallback. */
    constructor UninitDefault(default: T)
      ensures inner == None && def == default && Get() == default
    {
      inner := None;
      def := default;
    }

    /** `Default`: `T::default()` both as value and as fallback. */
    constructor Default(default: T)
      ensures inner == Some(default) && def == default && Get() == default
    {
      inner := Some(default);
      def := default;
    }

    /** `get` (and `Deref`): the value when present, otherwise the fallback. */
    function Get(): (r: T)
      reads this
      ensures inner.Some? ==> r == inner.value
      ensures inner.None? ==> r == def
    {
      if inner.Some? then inner.value else def
    }

    /** `take`: consumes the holder and returns what `get` reads. */
    method Take() returns (r: T)
      ensures r == Get()
    {
      r := if inner.Some? then inner.value else def;
    }

    /** `set`: stores the value; the fallback is untouched. */
    method Set(t: T)
      modifies this
      ensures inner == Some(t) && def == old(def) && Get() == t
    {
      inner := Some(t);
    }

    /** `*get_mut() = f(*get_mut())` (and `DerefMut`): the update goes to the value when present
        and otherwise to the fallback, so it is what a later `get` reads either way. */
    method GetMutUpdate(f: T -> T)
      modifies this
      ensures Get() == f(old(Get()))
      ensures old(inner).Some? ==> inner == Some(f(old(inner).value)) && def == old(def)
      ensures old(inner).None? ==> inner == None && def == f(old(def))
    {
      if inner.Some? {
        inner := Some(f(inner.value));
      } else {
        def := f(def);
      }
    }

    /** `Display`: what `get` reads, as `show` prints it. */
    function Display(show: T -> string): (r: string)
      reads this
      ensures inner.Some? ==> r == show(inner.value)
      ensures inner.None? ==> r == show(def)
    {
      show(Get())
    }
  }
}
