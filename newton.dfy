/**
  The Newton-Raphson solver. Starting from `x0` it takes at most `k`
  steps `x' = x - f(x)/f'(x)`, writing one row per step, and ends when a
  step after the first changes the point by less than `eps` percent, when
  the `k` steps are used up, or with a failure when the derivative at the
  current point is within `1e-10` of zero.
 */
module NewtonRaphson {
  import opened Iteration

  /** One row of the table: iteration `i`, the point `xi`, the point `next` it leads to, the error in percent. */
  datatype Record = Record(i: int, xi: real, next: real, error: real)

  /** The error written on row `i`: 100 on the first row, the relative change afterwards. */
  function Error(i: int, xi: real, next: real): real
  {
    if i == 0 then FullError else RelativeError(next, xi)
  }

  /** A row stops the loop when it is not the first and its error is below the threshold. */
  predicate Converged(rec: Record, eps: real)
  {
    rec.i > 0 && rec.error < eps
  }

  /** The row written by iteration `i` at point `x`, where the derivative is not near zero. */
  function Step(f: real -> real, fp: real -> real, x: real, i: int): (rec: Record)
    requires Abs(fp(x)) >= NearZero
  {
    var next := x - f(x) / fp(x);
    Record(i, x, next, Error(i, x, next))
  }

  /**
    Specification of the loop from iteration `i` on, at point `x`: the rows
    it writes, or the failure that discards them all.
   */
  function Iterate(f: real -> real, fp: real -> real, x: real, i: nat, k: int, eps: real): (r: Outcome<Record>)
    requires i <= Budget(k)
    decreases k - i
  {
    if i >= k then Trace([])
    else if Abs(fp(x)) < NearZero then Failure(DerivativeNearZero)
    else
      var rec := Step(f, fp, x, i);
      if Converged(rec, eps) then Trace([rec])
      else Prepend([rec], Iterate(f, fp, rec.next, i + 1, k, eps))
  }

  /** What the solver answers for `f` with derivative `fp`, start `x0`, threshold `eps` and at most `k` iterations. */
  function Run(f: real -> real, fp: real -> real, x0: real, eps: real, k: int): Outcome<Record>
  {
    Iterate(f, fp, x0, 0, k, eps)
  }

  /** The loop's iteration `i` at a point `x` with a usable derivative: the row `rec` it writes, then nothing more or the rest of the loop. */
  lemma Unfold(f: real -> real, fp: real -> real, x: real, i: nat, k: int, eps: real, rec: Record)
    requires i < k && Abs(fp(x)) >= NearZero && rec == Step(f, fp, x, i)
    ensures Converged(rec, eps) ==> Iterate(f, fp, x, i, k, eps) == Trace([rec])
    ensures !Converged(rec, eps) ==> Iterate(f, fp, x, i, k, eps) == Prepend([rec], Iterate(f, fp, rec.next, i + 1, k, eps))
  {
  }

  /** The solver's loop: rows are appended to `records` one iteration at a time. */
  method Solve(f: real -> real, fp: real -> real, x0: real, eps: real, k: int) returns (r: Outcome<Record>)
    ensures r == Run(f, fp, x0, eps, k)
  {
    var records: seq<Record> := [];
    var x := x0;
    var i: nat := 0;
    while i < k
      invariant i <= Budget(k) && |records| == i
      invariant Run(f, fp, x0, eps, k) == Prepend(records, Iterate(f, fp, x, i, k, eps))
    {
      var fx := f(x);
      var fpx := fp(x);
      if Abs(fpx) < NearZero {
        return Failure(DerivativeNearZero);
      }
      var next := x - fx / fpx;
      var err := Error(i, x, next);
      var rec := Record(i, x, next, err);
      assert rec == Step(f, fp, x, i);
      Unfold(f, fp, x, i, k, eps, rec);
      PrependTwice(records, [rec], Iterate(f, fp, next, i + 1, k, eps));
      records := records + [rec];
      if i > 0 && err < eps {
        break;
      }
      x := next;
      i := i + 1;
    }
    r := Trace(records);
  }

  // ---------------------------------------------------------------------
  // A description of the rows independent of the loop, and its equivalence
  // with Run.

  /**
    `rec` is one Newton step from `rec.xi`: the derivative there is not near
    zero, `next` is the Newton update and the error follows the rule for row
    `rec.i`.
   */
  predicate IsStep(f: real -> real, fp: real -> real, rec: Record)
  {
    && Abs(fp(rec.xi)) >= NearZero
    && rec == Step(f, fp, rec.xi, rec.i)
  }

  /**
    `rs` are consecutive steps numbered from `i` and starting at `x`, each
    starting where the previous one ended, and none but the last converged.
   */
  predicate IsRunFrom(f: real -> real, fp: real -> real, x: real, i: int, eps: real, rs: seq<Record>)
  {
    && (forall j :: 0 <= j < |rs| ==> rs[j].i == i + j && IsStep(f, fp, rs[j]))
    && (|rs| > 0 ==> rs[0].xi == x)
    && (forall j :: 0 < j < |rs| ==> rs[j].xi == rs[j - 1].next)
    && (forall j :: 0 <= j < |rs| - 1 ==> !Converged(rs[j], eps))
  }

  predicate Unconverged(rs: seq<Record>, eps: real)
  {
    forall j :: 0 <= j < |rs| ==> !Converged(rs[j], eps)
  }

  /** The point reached after the steps `rs` taken from `x`. */
  function EndPoint(x: real, rs: seq<Record>): real
  {
    if rs == [] then x else rs[|rs| - 1].next
  }

  /** Rows numbered from `i` end the loop: either the last one converged or the `k` iterations are used up. */
  predicate Finished(rs: seq<Record>, i: int, k: int, eps: real)
  {
    && i + |rs| <= Budget(k)
    && (i + |rs| == Budget(k) || (|rs| > 0 && Converged(rs[|rs| - 1], eps)))
  }

  lemma ConsRun(f: real -> real, fp: real -> real, x: real, i: int, eps: real, rec: Record, rest: seq<Record>)
    requires IsStep(f, fp, rec) && rec.i == i && rec.xi == x && !Converged(rec, eps)
    requires IsRunFrom(f, fp, rec.next, i + 1, eps, rest)
    ensures IsRunFrom(f, fp, x, i, eps, [rec] + rest)
    ensures EndPoint(x, [rec] + rest) == EndPoint(rec.next, rest)
    ensures Unconverged(rest, eps) ==> Unconverged([rec] + rest, eps)
  {
    var rs := [rec] + rest;
    forall j | 0 < j < |rs| ensures rs[j].xi == rs[j - 1].next {
      assert rs[j] == rest[j - 1];
    }
  }

  /** Every table the loop produces is a finished run of Newton steps. */
  lemma {:induction false} IterateTraceSound(f: real -> real, fp: real -> real, x: real, i: nat, k: int, eps: real)
    requires i <= Budget(k)
    requires Iterate(f, fp, x, i, k, eps).Trace?
    decreases k - i
    ensures IsRunFrom(f, fp, x, i, eps, Iterate(f, fp, x, i, k, eps).records)
    ensures Finished(Iterate(f, fp, x, i, k, eps).records, i, k, eps)
  {
    if i < k {
      var rec := Step(f, fp, x, i);
      Unfold(f, fp, x, i, k, eps, rec);
      if !Converged(rec, eps) {
        IterateTraceSound(f, fp, rec.next, i + 1, k, eps);
        ConsRun(f, fp, x, i, eps, rec, Iterate(f, fp, rec.next, i + 1, k, eps).records);
      }
    }
  }

  /** Every failure of the loop comes from a run of unconverged steps that reaches a flat point with iterations to spare. */
  lemma {:induction false} IterateFailureSound(f: real -> real, fp: real -> real, x: real, i: nat, k: int, eps: real)
    requires i <= Budget(k)
    requires Iterate(f, fp, x, i, k, eps).Failure?
    decreases k - i
    ensures Iterate(f, fp, x, i, k, eps).kind == DerivativeNearZero
    ensures exists rs :: IsRunFrom(f, fp, x, i, eps, rs) && Unconverged(rs, eps)
                         && i + |rs| < k && Abs(fp(EndPoint(x, rs))) < NearZero
  {
    if Abs(fp(x)) < NearZero {
      assert IsRunFrom(f, fp, x, i, eps, []) && Unconverged([], eps) && EndPoint(x, []) == x;
    } else {
      var rec := Step(f, fp, x, i);
      assert i < k;
      Unfold(f, fp, x, i, k, eps, rec);
      assert !Converged(rec, eps);
      IterateFailureSound(f, fp, rec.next, i + 1, k, eps);
      var rest :| IsRunFrom(f, fp, rec.next, i + 1, eps, rest) && Unconverged(rest, eps)
                  && i + 1 + |rest| < k && Abs(fp(EndPoint(rec.next, rest))) < NearZero;
      ConsRun(f, fp, x, i, eps, rec, rest);
    }
  }

  lemma RunTail(f: real -> real, fp: real -> real, x: real, i: int, eps: real, rs: seq<Record>)
    requires IsRunFrom(f, fp, x, i, eps, rs) && Unconverged(rs, eps) && rs != []
    ensures IsRunFrom(f, fp, rs[0].next, i + 1, eps, rs[1..]) && Unconverged(rs[1..], eps)
    ensures EndPoint(x, rs) == EndPoint(rs[0].next, rs[1..])
  {
    var rest := rs[1..];
    forall j | 0 <= j < |rest| ensures rest[j].i == i + 1 + j && IsStep(f, fp, rest[j]) && !Converged(rest[j], eps) {
      assert rest[j] == rs[j + 1];
    }
    forall j | 0 < j < |rest| ensures rest[j].xi == rest[j - 1].next {
      assert rest[j] == rs[j + 1] && rest[j - 1] == rs[j];
    }
  }

  /** Conversely, the loop replays any run of unconverged steps, then carries on from where the run ended. */
  lemma {:induction false} IterateComplete(f: real -> real, fp: real -> real, x: real, i: nat, k: int, eps: real, rs: seq<Record>)
    requires IsRunFrom(f, fp, x, i, eps, rs) && Unconverged(rs, eps)
    requires i + |rs| <= Budget(k)
    decreases |rs|
    ensures Iterate(f, fp, x, i, k, eps) == Prepend(rs, Iterate(f, fp, EndPoint(x, rs), i + |rs|, k, eps))
  {
    var tail := Iterate(f, fp, EndPoint(x, rs), i + |rs|, k, eps);
    if rs == [] {
      match tail
      case Failure(_) =>
      case Trace(t) => assert [] + t == t;
    } else {
      var rec, rest := rs[0], rs[1..];
      RunTail(f, fp, x, i, eps, rs);
      IterateComplete(f, fp, rec.next, i + 1, k, eps, rest);
      assert tail == Iterate(f, fp, EndPoint(rec.next, rest), i + 1 + |rest|, k, eps);
      assert rec == Step(f, fp, x, i) && !Converged(rec, eps);
      Unfold(f, fp, x, i, k, eps, rec);
      PrependTwice([rec], rest, tail);
      assert [rec] + rest == rs;
    }
  }

  /**
    The solver fails exactly when the iteration, before converging and before
    using up its `k` iterations, reaches a point whose derivative is near
    zero; the failure discards every row.
   */
  lemma RunFails(f: real -> real, fp: real -> real, x0: real, eps: real, k: int)
    ensures Run(f, fp, x0, eps, k).Failure? <==>
              exists rs :: IsRunFrom(f, fp, x0, 0, eps, rs) && Unconverged(rs, eps)
                           && |rs| < k && Abs(fp(EndPoint(x0, rs))) < NearZero
    ensures Run(f, fp, x0, eps, k).Failure? ==> Run(f, fp, x0, eps, k) == Failure(DerivativeNearZero)
  {
    if Run(f, fp, x0, eps, k).Failure? {
      IterateFailureSound(f, fp, x0, 0, k, eps);
    }
    if rs :| IsRunFrom(f, fp, x0, 0, eps, rs) && Unconverged(rs, eps)
             && |rs| < k && Abs(fp(EndPoint(x0, rs))) < NearZero {
      IterateComplete(f, fp, x0, 0, k, eps, rs);
    }
  }

  /** The steps of a run before its last one, none of them converged, end where the last one starts. */
  lemma RunPrefix(f: real -> real, fp: real -> real, x0: real, eps: real, rs: seq<Record>)
    requires IsRunFrom(f, fp, x0, 0, eps, rs) && rs != []
    ensures var p := rs[..|rs| - 1];
      IsRunFrom(f, fp, x0, 0, eps, p) && Unconverged(p, eps) && EndPoint(x0, p) == rs[|rs| - 1].xi
  {
    var p := rs[..|rs| - 1];
    forall j | 0 <= j < |p| ensures p[j] == rs[j] { }
  }

  /** A run whose last step converges, within the budget, is what the loop produces. */
  lemma ConvergedRunIsIterate(f: real -> real, fp: real -> real, x0: real, eps: real, k: int, rs: seq<Record>)
    requires IsRunFrom(f, fp, x0, 0, eps, rs) && |rs| <= Budget(k)
    requires |rs| > 0 && Converged(rs[|rs| - 1], eps)
    ensures Iterate(f, fp, x0, 0, k, eps) == Trace(rs)
  {
    var n := |rs| - 1;
    var p, last := rs[..n], rs[n];
    RunPrefix(f, fp, x0, eps, rs);
    IterateComplete(f, fp, x0, 0, k, eps, p);
    assert last.i == n && IsStep(f, fp, last);
    Unfold(f, fp, last.xi, n, k, eps, last);
    assert rs == p + [last];
  }

  /** A run of unconverged steps that uses up the budget is what the loop produces. */
  lemma ExhaustedRunIsIterate(f: real -> real, fp: real -> real, x0: real, eps: real, k: int, rs: seq<Record>)
    requires IsRunFrom(f, fp, x0, 0, eps, rs) && Unconverged(rs, eps) && |rs| == Budget(k)
    ensures Iterate(f, fp, x0, 0, k, eps) == Trace(rs)
  {
    IterateComplete(f, fp, x0, 0, k, eps, rs);
    assert rs + [] == rs;
  }

  /** The rows of a successful run are exactly the finished runs of Newton steps from `x0`. */
  lemma RunTrace(f: real -> real, fp: real -> real, x0: real, eps: real, k: int, rs: seq<Record>)
    ensures Run(f, fp, x0, eps, k) == Trace(rs) <==> IsRunFrom(f, fp, x0, 0, eps, rs) && Finished(rs, 0, k, eps)
  {
    if Run(f, fp, x0, eps, k) == Trace(rs) {
      IterateTraceSound(f, fp, x0, 0, k, eps);
    }
    if IsRunFrom(f, fp, x0, 0, eps, rs) && Finished(rs, 0, k, eps) {
      if |rs| > 0 && Converged(rs[|rs| - 1], eps) {
        ConvergedRunIsIterate(f, fp, x0, eps, k, rs);
      } else {
        assert Unconverged(rs, eps);
        ExhaustedRunIsIterate(f, fp, x0, eps, k, rs);
      }
    }
  }

  /**
    What the caller can read off a successful table: at most `k` rows
    numbered 0, 1, ..., chained from `x0` by Newton updates taken only where
    the derivative is not near zero, a first error of exactly 100, no
    negative error, and no row before the last below the threshold unless it
    is the first; fewer than `k` rows only when the last one converged.
   */
  lemma TraceShape(f: real -> real, fp: real -> real, x0: real, eps: real, k: int, rs: seq<Record>)
    requires Run(f, fp, x0, eps, k) == Trace(rs)
    ensures |rs| <= Budget(k)
    ensures k <= 0 ==> rs == []
    ensures |rs| > 0 ==> rs[0].xi == x0 && rs[0].error == FullError
    ensures forall j :: 0 <= j < |rs| ==>
              && rs[j].i == j
              && Abs(fp(rs[j].xi)) >= NearZero
              && rs[j].next == rs[j].xi - f(rs[j].xi) / fp(rs[j].xi)
              && rs[j].error >= 0.0
    ensures forall j :: 0 < j < |rs| ==> rs[j].xi == rs[j - 1].next
    ensures forall j :: 0 < j < |rs| - 1 ==> rs[j].error >= eps
    ensures |rs| < Budget(k) ==> |rs| > 1 && rs[|rs| - 1].error < eps
  {
    IterateTraceSound(f, fp, x0, 0, k, eps);
  }

  /**
    Later rows use the clamped relative error: 100 when the new point is
    within the guard of zero, and otherwise the change relative to the new
    point, so 0 exactly when the step did not move.
   */
  lemma LaterErrors(f: real -> real, fp: real -> real, x0: real, eps: real, k: int, rs: seq<Record>, j: nat)
    requires Run(f, fp, x0, eps, k) == Trace(rs) && 0 < j < |rs|
    ensures rs[j].error == RelativeError(rs[j].next, rs[j].xi)
    ensures Abs(rs[j].next) < NearZero ==> rs[j].error == FullError
    ensures Abs(rs[j].next) >= NearZero ==> (rs[j].error == 0.0 <==> rs[j].next == rs[j].xi)
  {
    IterateTraceSound(f, fp, x0, 0, k, eps);
    var rec := rs[j];
    assert rec.i == j && IsStep(f, fp, rec);
    StepError(f, fp, rec);
    if Abs(rec.next) >= NearZero {
      RelativeErrorMeaning(rec.next, rec.xi);
    }
  }

  lemma StepError(f: real -> real, fp: real -> real, rec: Record)
    requires IsStep(f, fp, rec) && rec.i != 0
    ensures rec.error == RelativeError(rec.next, rec.xi)
  {
  }

  /** For `f(x) = x*x + 1` the derivative `2x` vanishes at `x0 = 0`, so the solver fails at once. */
  lemma NoRealRoot(eps: real, k: int)
    requires k > 0
    ensures Run(x => x * x + 1.0, x => 2.0 * x, 0.0, eps, k) == Failure(DerivativeNearZero)
  {
  }

  function SquareMinusTwo(x: real): real { x * x - 2.0 }

  function Twice(x: real): real { 2.0 * x }

  /**
    For `f(x) = x*x - 2` from `x0 = 1` with threshold 0.001 and 10 iterations
    the solver converges on its fourth row, at 665857/470832, the fourth
    Newton approximation of the square root of 2.
   */
  lemma SquareRootOfTwo()
    ensures Run(SquareMinusTwo, Twice, 1.0, 0.001, 10) == Trace([
              Record(0, 1.0, 1.5, 100.0),
              Record(1, 1.5, 17.0 / 12.0, 100.0 / 17.0),
              Record(2, 17.0 / 12.0, 577.0 / 408.0, 100.0 / 577.0),
              Record(3, 577.0 / 408.0, 665857.0 / 470832.0, 100.0 / 665857.0)])
  {
    var f, fp := SquareMinusTwo, Twice;
    var x0, x1, x2, x3, x4 := 1.0, 1.5, 17.0 / 12.0, 577.0 / 408.0, 665857.0 / 470832.0;
    var r0, r1 := Record(0, x0, x1, 100.0), Record(1, x1, x2, 100.0 / 17.0);
    var r2, r3 := Record(2, x2, x3, 100.0 / 577.0), Record(3, x3, x4, 100.0 / 665857.0);
    assert Step(f, fp, x3, 3) == r3 by {
      assert f(x3) == 1.0 / 166464.0 && fp(x3) == 577.0 / 204.0;
      assert x3 - f(x3) / fp(x3) == x4;
      assert Abs(x4 - x3) / Abs(x4) * 100.0 == 100.0 / 665857.0;
    }
    assert Iterate(f, fp, x3, 3, 10, 0.001) == Trace([r3]);
    assert Step(f, fp, x2, 2) == r2 by {
      assert f(x2) == 1.0 / 144.0 && fp(x2) == 17.0 / 6.0;
      assert x2 - f(x2) / fp(x2) == x3;
      assert Abs(x3 - x2) / Abs(x3) * 100.0 == 100.0 / 577.0;
    }
    assert Iterate(f, fp, x2, 2, 10, 0.001) == Trace([r2, r3]);
    assert Step(f, fp, x1, 1) == r1 by {
      assert f(x1) == 0.25 && fp(x1) == 3.0;
      assert x1 - f(x1) / fp(x1) == x2;
      assert Abs(x2 - x1) / Abs(x2) * 100.0 == 100.0 / 17.0;
    }
    assert Iterate(f, fp, x1, 1, 10, 0.001) == Trace([r1, r2, r3]);
    assert Step(f, fp, x0, 0) == r0;
    assert Iterate(f, fp, x0, 0, 10, 0.001) == Trace([r0, r1, r2, r3]);
  }
}
