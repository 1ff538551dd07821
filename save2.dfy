/** The blanket `Savable2` impl of src/save2.rs: every type that is `Savable` and `Default`
    saves through its `Savable` impl and loads into an existing place by overwriting it with
    what `Savable::load` returned. */
module Save2 {
  import opened Wrappers
  import opened Bytes
  import opened Save

  /** A type's `Savable` impl: the bytes `save` appends for a value, and what `load` reads
      from the bytes the loader still holds. */
  datatype SavableImpl<!T> = SavableImpl(save: T -> seq<byte>, load: seq<byte> -> Loaded<T>)

  /** rest is what is left of s after reading some of its front. */
  predicate IsSuffix(rest: seq<byte>, s: seq<byte>)
  {
    |rest| <= |s| && s[|s| - |rest|..] == rest
  }

  /** A `load` only ever consumes bytes from the front of the loader. */
  ghost predicate ReadsFront<T>(impl: SavableImpl<T>)
  {
    forall s :: IsSuffix(impl.load(s).rest, s)
  }

  /** `load` gives back what `save` wrote, whatever follows it. */
  ghost predicate Inverts<T>(impl: SavableImpl<T>, v: T)
  {
    forall rest :: impl.load(impl.save(v) + rest) == Loaded(Ok(v), rest)
  }

  /** A place of type T (`&mut self` for `T: Savable + Default`). */
  class Place<T> {
    var value: T

    constructor (v: T)
      ensures value == v
    {
      value := v;
    }

    /** `Savable2::save`: `Savable::save(self, saver)`, nothing else. */
    method Save(impl: SavableImpl<T>, saver: ByteBuffer)
      requires saver.Valid()
      modifies saver
      ensures saver.Valid() && saver.data == old(saver.data) + impl.save(value)
      ensures saver.rpos == old(saver.rpos) && saver.endian == old(saver.endian)
      ensures saver.Remaining() == old(saver.Remaining()) + impl.save(value)
    {
      saver.PushBytes(impl.save(value));
    }

    /** `load_into`: `T::load(loader)?`, then `*self = l`. On an error the loader's message is
        returned as it is and `self` keeps its old value; the loader is left wherever `load`
        left it in both cases. */
    method LoadInto(impl: SavableImpl<T>, loader: ByteBuffer) returns (r: Result<Unit, string>)
      requires loader.Valid() && ReadsFront(impl)
      modifies this, loader
      ensures loader.Valid() && loader.data == old(loader.data) && loader.endian == old(loader.endian)
      ensures loader.Remaining() == impl.load(old(loader.Remaining())).rest
      ensures r.Ok? <==> impl.load(old(loader.Remaining())).result.Ok?
      ensures r.Ok? ==> r == Ok(Unit)
      ensures r.Ok? ==> value == impl.load(old(loader.Remaining())).result.value
      ensures r.Err? ==> r.error == impl.load(old(loader.Remaining())).result.error && value == old(value)
    {
      var l := impl.load(loader.Remaining());
      assert IsSuffix(l.rest, loader.Remaining());
      loader.rpos := |loader.data| - |l.rest|;
      match l.result
      case Err(e) => r := Err(e);
      case Ok(v) => value := v; r := Ok(Unit);
    }
  }

  /** Saving a value and loading it into another place leaves that place holding the value,
      with `Ok(())` returned and every saved byte consumed. */
  method SaveThenLoadInto<T>(impl: SavableImpl<T>, e: Endian, v: T, w: T) returns (r: Result<Unit, string>, got: T, left: nat)
    requires ReadsFront(impl) && Inverts(impl, v)
    ensures r == Ok(Unit)
    ensures got == v
    ensures left == 0
  {
    var buf := new ByteBuffer.New(e);
    var src := new Place(v);
    src.Save(impl, buf);
    assert buf.Remaining() == impl.save(v) + [];
    assert impl.load(impl.save(v) + []) == Loaded(Ok(v), []);
    var dst := new Place(w);
    r := dst.LoadInto(impl, buf);
    got := dst.value;
    left := |buf.Remaining()|;
  }

  /** `load_into` over bytes `load` rejects returns the error and leaves the place as it was. */
  method FailedLoadInto<T>(impl: SavableImpl<T>, e: Endian, bytes: seq<byte>, w: T) returns (r: Result<Unit, string>, got: T)
    requires ReadsFront(impl) && impl.load(bytes).result.Err?
    ensures r == Err(impl.load(bytes).result.error) && got == w
  {
    var buf := new ByteBuffer.FromBytes(bytes, e);
    var dst := new Place(w);
    r := dst.LoadInto(impl, buf);
    got := dst.value;
  }
}
