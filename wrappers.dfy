/** Failure-carrying datatypes shared by the whole model.
    - Option<T>: Rust's `Option<T>`.
    - Result<T, E>: Rust's `Result<T, E>`.
    - Fallible<T>: the outcome of a call that may abort the program (a Rust `panic!`,
      a failed `assert!`, `unwrap()` on `None`, `unreachable!()`), with the panic message. */
module Wrappers {

  datatype Option<T> = None | Some(value: T)

  datatype Result<T, E> = Ok(value: T) | Err(error: E)

  datatype Fallible<T> = Returns(value: T) | Panics(message: string)

  /** The unit value `()`. */
  datatype Unit = Unit

  /** `option.unwrap()`: the value when present, a panic otherwise. */
  function Unwrap<T>(o: Option<T>): (r: Fallible<T>)
    ensures r.Returns? <==> o.Some?
    ensures o.Some? ==> r.value == o.value
  {
    match o
    case Some(v) => Returns(v)
    case None => Panics("called `Option::unwrap()` on a `None` value")
  }

  /** `option.expect(msg)`. */
  function Expect<T>(o: Option<T>, msg: string): (r: Fallible<T>)
    ensures r.Returns? <==> o.Some?
    ensures o.Some? ==> r.value == o.value
    ensures o.None? ==> r == Panics(msg)
  {
    match o
    case Some(v) => Returns(v)
    case None => Panics(msg)
  }

  /** Emitting generated pieces one after another: the first piece whose generation panics
      aborts the whole expansion with its message; otherwise every piece is kept, in order. */
  function Collect<T>(s: seq<Fallible<T>>): (r: Fallible<seq<T>>)
    ensures r.Returns? <==> forall i :: 0 <= i < |s| ==> s[i].Returns?
    ensures r.Returns? ==> |r.value| == |s| && forall i :: 0 <= i < |s| ==> r.value[i] == s[i].value
    ensures r.Panics? ==> exists i :: 0 <= i < |s| && s[i] == Panics(r.message) && forall j :: 0 <= j < i ==> s[j].Returns?
  {
    if s == [] then Returns([])
    else
      match s[0]
      case Panics(m) => Panics(m)
      case Returns(v) =>
        match Collect(s[1..])
        case Panics(m) => Panics(m)
        case Returns(vs) => Returns([v] + vs)
  }

  /** Where a collection panics: the first piece that panics. */
  lemma FirstPanic<T>(s: seq<Fallible<T>>) returns (i: nat)
    requires Collect(s).Panics?
    ensures i < |s| && s[i] == Panics(Collect(s).message) && forall j :: 0 <= j < i ==> s[j].Returns?
  {
    i :| 0 <= i < |s| && s[i] == Panics(Collect(s).message) && forall j :: 0 <= j < i ==> s[j].Returns?;
  }
}
