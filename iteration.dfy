/**
  Definitions shared by the two root-finding solvers: the near-zero guard,
  the relative-error rule both tables use, and the shape of a solver's
  answer (a trace of iteration records or a failure kind).
 */
module Iteration {

  /** The `1e-10` guard used for near-zero derivatives, denominators and function values. */
  const NearZero: real := 0.0000000001

  /** The error, in percent, recorded on a first iteration or when the denominator is near zero. */
  const FullError: real := 100.0

  datatype Option<T> = None | Some(value: T)

  /** Why a solver returned no table at all. */
  datatype FailureKind = DerivativeNearZero | InvalidBracket

  /** A solver's answer: the failure message, or the rows of the table in iteration order. */
  datatype Outcome<R> = Failure(kind: FailureKind) | Trace(records: seq<R>)

  function Abs(x: real): (r: real)
    ensures r >= 0.0 && (r == x || r == -x)
  {
    if x < 0.0 then -x else x
  }

  /**
    The relative change from `previous` to `current`, in percent of `current`,
    forced to 100 when `current` is within the guard of zero.
   */
  function RelativeError(current: real, previous: real): (e: real)
    ensures e >= 0.0
    ensures Abs(current) < NearZero ==> e == FullError
  {
    if Abs(current) < NearZero then FullError
    else Abs(current - previous) / Abs(current) * 100.0
  }

  /**
    Away from the guard the error is the change relative to `current`: it
    times `|current|` gives 100 times the change, and it is zero exactly when
    the point did not move.
   */
  lemma RelativeErrorMeaning(current: real, previous: real)
    requires Abs(current) >= NearZero
    ensures RelativeError(current, previous) * Abs(current) == FullError * Abs(current - previous)
    ensures RelativeError(current, previous) == 0.0 <==> current == previous
  {
    var d, c := Abs(current - previous), Abs(current);
    assert d / c * 100.0 * c == d * 100.0;
    if d / c * 100.0 == 0.0 {
      assert d == 0.0;
    }
  }

  /** How many times `for i in range(k)` runs its body. */
  function Budget(k: int): (n: nat)
    ensures k >= 0 ==> n == k
    ensures k <= 0 ==> n == 0
  {
    if k <= 0 then 0 else k
  }

  /** The answer obtained by putting the rows `prefix` in front of the answer `o`; a failure discards them. */
  function Prepend<R>(prefix: seq<R>, o: Outcome<R>): (r: Outcome<R>)
    ensures r.Failure? <==> o.Failure?
    ensures o.Failure? ==> r == o
  {
    match o
    case Failure(_) => o
    case Trace(rest) => Trace(prefix + rest)
  }

  lemma PrependTwice<R>(p: seq<R>, q: seq<R>, o: Outcome<R>)
    ensures Prepend(p, Prepend(q, o)) == Prepend(p + q, o)
  {
    match o
    case Failure(_) =>
    case Trace(rest) =>
      assert p + (q + rest) == (p + q) + rest;
  }

  lemma AppendAssoc<T>(p: seq<T>, q: seq<T>, r: seq<T>)
    ensures p + (q + r) == (p + q) + r
  {
  }
}
