/** Building blocks shared by every module: optional values, pass/fail
    outcomes, results, time stamps and first-occurrence search. */
module Base {

  /** A value that may be absent (a nil pointer or interface in the system). */
  datatype Option<T> = None | Some(value: T) {
    function GetOr(default: T): T {
      if Some? then value else default
    }
  }

  /** The outcome of an operation that returns only an `error`: nil or an error value. */
  datatype Outcome<E> = Pass | Fail(error: E)

  /** The outcome of an operation that returns a value or an error. */
  datatype Result<T, E> = Ok(value: T) | Err(error: E)

  /** A point in time, as carried by the per-second tick message. It is only stored and
      attached to errors, never compared or formatted here. */
  type Time = int

  /** The index of the first element of `s` equal to `x`, if there is one: the shape of
      a Go `for i, e := range s { if e == x { ...; break } }` search. */
  function FirstIndexOf<T(==)>(s: seq<T>, x: T): (r: Option<nat>)
    ensures r.Some? ==> r.value < |s| && s[r.value] == x
    ensures r.Some? ==> forall j :: 0 <= j < r.value ==> s[j] != x
    ensures r.None? <==> x !in s
  {
    if |s| == 0 then None
    else if s[0] == x then Some(0)
    else match FirstIndexOf(s[1..], x)
      case None => None
      case Some(i) => Some(i + 1)
  }
}
