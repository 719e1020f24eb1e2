/**
  The bisection solver. After checking that `f(a)` and `f(b)` do not have
  the same strict sign, it halves the bracket at most `k` times, writing
  one row per midpoint, and ends when a row after the first changes the
  midpoint by less than `eps` percent, when `f(xi)*f(a)` is exactly zero
  with `f(xi)` within `1e-10` of zero (an exact root), or when the `k`
  iterations are used up.
 */
module Bisection {
  import opened Iteration

  /** One row of the table: its number `i` (from 1), the bracket, its midpoint, `f` at all three, the error in percent. */
  datatype Record = Record(i: int, a: real, b: real, xi: real, fa: real, fb: real, fxi: real, error: real)

  /** The error of a row: 100 when there is no earlier midpoint, the relative change otherwise. */
  function Error(xi: real, previous: Option<real>): real
  {
    match previous
    case None => FullError
    case Some(p) => RelativeError(xi, p)
  }

  /** The row numbered `i` for the bracket `[a, b]`, given the midpoint of the row before it, if any. */
  function Step(f: real -> real, a: real, b: real, previous: Option<real>, i: int): Record
  {
    var xi := (a + b) / 2.0;
    Record(i, a, b, xi, f(a), f(b), f(xi), Error(xi, previous))
  }

  /** A row converges when it is not the first and its error is below the threshold. */
  predicate Converged(rec: Record, eps: real)
  {
    rec.i > 1 && rec.error < eps
  }

  /** A row is an exact root when `f(xi)*f(a)` is zero and `f(xi)` is within the guard of zero. */
  predicate ExactRoot(rec: Record)
  {
    rec.fxi * rec.fa == 0.0 && Abs(rec.fxi) < NearZero
  }

  predicate Stops(rec: Record, eps: real)
  {
    Converged(rec, eps) || ExactRoot(rec)
  }

  /**
    The bracket after a row that does not stop the loop: the midpoint
    replaces `b` when `f(xi)*f(a) < 0`, replaces `a` when it is `> 0`, and
    the bracket is kept as it is when the product is zero.
   */
  function NextBracket(rec: Record): (real, real)
  {
    if rec.fxi * rec.fa < 0.0 then (rec.a, rec.xi)
    else if rec.fxi * rec.fa > 0.0 then (rec.xi, rec.b)
    else (rec.a, rec.b)
  }

  /** The row that follows `rec` when `rec` does not stop the loop. */
  function Next(f: real -> real, rec: Record): Record
  {
    Step(f, NextBracket(rec).0, NextBracket(rec).1, Some(rec.xi), rec.i + 1)
  }

  /** Specification of the loop after `n` iterations, on bracket `[a, b]` with the last midpoint `previous`. */
  function Iterate(f: real -> real, a: real, b: real, previous: Option<real>, n: nat, k: int, eps: real): seq<Record>
    decreases k - n
  {
    if n >= k then []
    else
      var rec := Step(f, a, b, previous, n + 1);
      if Stops(rec, eps) then [rec]
      else [rec] + Iterate(f, NextBracket(rec).0, NextBracket(rec).1, Some(rec.xi), n + 1, k, eps)
  }

  /** What the solver answers for `f` on the bracket `[a, b]` with threshold `eps` and at most `k` iterations. */
  function Run(f: real -> real, a: real, b: real, eps: real, k: int): Outcome<Record>
  {
    if f(a) * f(b) > 0.0 then Failure(InvalidBracket)
    else Trace(Iterate(f, a, b, None, 0, k, eps))
  }

  /** The loop's first turn on `[a, b]`: the row `rec` it writes, then either nothing more or the loop on the next bracket. */
  lemma Unfold(f: real -> real, a: real, b: real, previous: Option<real>, n: nat, k: int, eps: real, rec: Record)
    requires n < k && rec == Step(f, a, b, previous, n + 1)
    ensures Stops(rec, eps) ==> Iterate(f, a, b, previous, n, k, eps) == [rec]
    ensures !Stops(rec, eps) ==>
      Iterate(f, a, b, previous, n, k, eps)
      == [rec] + Iterate(f, NextBracket(rec).0, NextBracket(rec).1, Some(rec.xi), n + 1, k, eps)
  {
  }

  /** The solver's loop: rows are appended to `records`, and the bracket and the last midpoint are updated in place. */
  method Solve(f: real -> real, a0: real, b0: real, eps: real, k: int) returns (r: Outcome<Record>)
    ensures r == Run(f, a0, b0, eps, k)
  {
    var faStart, fbStart := f(a0), f(b0);
    if faStart * fbStart > 0.0 {
      return Failure(InvalidBracket);
    }
    var records: seq<Record> := [];
    var a, b := a0, b0;
    var previous: Option<real> := None;
    var n: nat := 0;
    ghost var spec := Iterate(f, a0, b0, None, 0, k, eps);
    while n < k
      invariant |records| == n && (previous.None? <==> n == 0)
      invariant spec == records + Iterate(f, a, b, previous, n, k, eps)
    {
      ghost var done := records;
      var xi := (a + b) / 2.0;
      var fa, fb, fxi := f(a), f(b), f(xi);
      var err := Error(xi, previous);
      var rec := Record(n + 1, a, b, xi, fa, fb, fxi, err);
      Turn(f, a, b, previous, n, k, eps, rec);
      records := records + [rec];
      if previous.Some? && err < eps {
        break;
      }
      if fxi * fa < 0.0 {
        b := xi;
      } else if fxi * fa > 0.0 {
        a := xi;
      } else if Abs(fxi) < NearZero {
        break;
      }
      AppendAssoc(done, [rec], Iterate(f, a, b, Some(xi), n + 1, k, eps));
      previous := Some(xi);
      n := n + 1;
    }
    assert spec == records;
    r := Trace(records);
  }

  /**
    One turn of the loop, told by the tests the loop makes on the row `rec`:
    a converged row or an exact root ends the table with `rec`; otherwise the
    table goes on from the bracket chosen by the sign of `f(xi)*f(a)`.
   */
  lemma Turn(f: real -> real, a: real, b: real, previous: Option<real>, n: nat, k: int, eps: real, rec: Record)
    requires n < k && (previous.None? <==> n == 0)
    requires rec == Step(f, a, b, previous, n + 1)
    ensures previous.Some? && rec.error < eps ==> Iterate(f, a, b, previous, n, k, eps) == [rec]
    ensures !(previous.Some? && rec.error < eps) ==>
      && (rec.fxi * rec.fa < 0.0 ==>
            Iterate(f, a, b, previous, n, k, eps) == [rec] + Iterate(f, a, rec.xi, Some(rec.xi), n + 1, k, eps))
      && (rec.fxi * rec.fa > 0.0 ==>
            Iterate(f, a, b, previous, n, k, eps) == [rec] + Iterate(f, rec.xi, b, Some(rec.xi), n + 1, k, eps))
      && (rec.fxi * rec.fa == 0.0 && Abs(rec.fxi) < NearZero ==>
            Iterate(f, a, b, previous, n, k, eps) == [rec])
      && (rec.fxi * rec.fa == 0.0 && Abs(rec.fxi) >= NearZero ==>
            Iterate(f, a, b, previous, n, k, eps) == [rec] + Iterate(f, a, b, Some(rec.xi), n + 1, k, eps))
  {
    Unfold(f, a, b, previous, n, k, eps, rec);
    assert rec.a == a && rec.b == b;
    if !(previous.Some? && rec.error < eps) {
      assert !Converged(rec, eps);
      if rec.fxi * rec.fa < 0.0 {
        assert NextBracket(rec) == (a, rec.xi);
      } else if rec.fxi * rec.fa > 0.0 {
        assert NextBracket(rec) == (rec.xi, b);
      } else if Abs(rec.fxi) >= NearZero {
        assert !Stops(rec, eps) && NextBracket(rec) == (a, b);
      }
    }
  }

  // ---------------------------------------------------------------------
  // A description of the rows independent of the loop, and its equivalence
  // with Run.

  /**
    `rs` are rows numbered from `n + 1`: the first is taken on `[a, b]` after
    the midpoint `previous`, each later one follows the row before it, and
    none but the last stops the loop.
   */
  predicate IsRunFrom(f: real -> real, a: real, b: real, previous: Option<real>, n: int, eps: real, rs: seq<Record>)
  {
    && (|rs| > 0 ==> rs[0] == Step(f, a, b, previous, n + 1))
    && (forall j :: 0 < j < |rs| ==> rs[j] == Next(f, rs[j - 1]))
    && (forall j :: 0 <= j < |rs| - 1 ==> !Stops(rs[j], eps))
  }

  predicate NoneStops(rs: seq<Record>, eps: real)
  {
    forall j :: 0 <= j < |rs| ==> !Stops(rs[j], eps)
  }

  /** Rows numbered from `n + 1` end the loop: the last one stops it, or the `k` iterations are used up. */
  predicate Finished(rs: seq<Record>, n: int, k: int, eps: real)
  {
    && n + |rs| <= Budget(k)
    && (n + |rs| == Budget(k) || (|rs| > 0 && Stops(rs[|rs| - 1], eps)))
  }

  /** What the loop does after the rows `rs`, started on `[a, b]` after `previous`: the rows still to come. */
  function After(f: real -> real, a: real, b: real, previous: Option<real>, n: nat, k: int, eps: real, rs: seq<Record>): seq<Record>
  {
    if rs == [] then Iterate(f, a, b, previous, n, k, eps)
    else
      var last := rs[|rs| - 1];
      Iterate(f, NextBracket(last).0, NextBracket(last).1, Some(last.xi), n + |rs|, k, eps)
  }

  lemma ConsRun(f: real -> real, a: real, b: real, previous: Option<real>, n: int, eps: real, rec: Record, rest: seq<Record>)
    requires rec == Step(f, a, b, previous, n + 1) && !Stops(rec, eps)
    requires IsRunFrom(f, NextBracket(rec).0, NextBracket(rec).1, Some(rec.xi), n + 1, eps, rest)
    ensures IsRunFrom(f, a, b, previous, n, eps, [rec] + rest)
  {
    var rs := [rec] + rest;
    forall j | 0 < j < |rs| ensures rs[j] == Next(f, rs[j - 1]) {
      assert rs[j] == rest[j - 1];
    }
  }

  /** Every table the loop produces is a finished run of rows. */
  lemma {:induction false} IterateSound(f: real -> real, a: real, b: real, previous: Option<real>, n: nat, k: int, eps: real)
    requires n <= Budget(k)
    decreases k - n
    ensures IsRunFrom(f, a, b, previous, n, eps, Iterate(f, a, b, previous, n, k, eps))
    ensures Finished(Iterate(f, a, b, previous, n, k, eps), n, k, eps)
  {
    if n < k {
      var rec := Step(f, a, b, previous, n + 1);
      Unfold(f, a, b, previous, n, k, eps, rec);
      if !Stops(rec, eps) {
        var (a', b') := NextBracket(rec);
        var rest := Iterate(f, a', b', Some(rec.xi), n + 1, k, eps);
        IterateSound(f, a', b', Some(rec.xi), n + 1, k, eps);
        ConsRun(f, a, b, previous, n, eps, rec, rest);
        ConsFinished(rec, rest, n, k, eps);
      }
    }
  }

  lemma ConsFinished(rec: Record, rest: seq<Record>, n: int, k: int, eps: real)
    requires Finished(rest, n + 1, k, eps)
    ensures Finished([rec] + rest, n, k, eps)
  {
    if rest != [] {
      assert ([rec] + rest)[|rest|] == rest[|rest| - 1];
    }
  }

  lemma RunTail(f: real -> real, a: real, b: real, previous: Option<real>, n: int, eps: real, rs: seq<Record>)
    requires IsRunFrom(f, a, b, previous, n, eps, rs) && NoneStops(rs, eps) && rs != []
    ensures IsRunFrom(f, NextBracket(rs[0]).0, NextBracket(rs[0]).1, Some(rs[0].xi), n + 1, eps, rs[1..])
    ensures NoneStops(rs[1..], eps)
  {
    var rest := rs[1..];
    forall j | 0 <= j < |rest| ensures !Stops(rest[j], eps) {
      assert rest[j] == rs[j + 1];
    }
    forall j | 0 < j < |rest| ensures rest[j] == Next(f, rest[j - 1]) {
      assert rest[j] == rs[j + 1] && rest[j - 1] == rs[j];
    }
    if rest != [] {
      assert rest[0] == Next(f, rs[0]);
    }
  }

  lemma AfterTail(f: real -> real, a: real, b: real, previous: Option<real>, n: nat, k: int, eps: real, rs: seq<Record>)
    requires rs != []
    ensures After(f, NextBracket(rs[0]).0, NextBracket(rs[0]).1, Some(rs[0].xi), n + 1, k, eps, rs[1..])
            == After(f, a, b, previous, n, k, eps, rs)
  {
    var rest := rs[1..];
    if rest != [] {
      assert rest[|rest| - 1] == rs[|rs| - 1];
    }
  }

  /** Conversely, the loop replays any run of rows that do not stop it, then carries on from where the run ended. */
  lemma {:induction false} IterateComplete(f: real -> real, a: real, b: real, previous: Option<real>, n: nat, k: int, eps: real, rs: seq<Record>)
    requires IsRunFrom(f, a, b, previous, n, eps, rs) && NoneStops(rs, eps)
    requires n + |rs| <= Budget(k)
    decreases |rs|
    ensures Iterate(f, a, b, previous, n, k, eps) == rs + After(f, a, b, previous, n, k, eps, rs)
  {
    if rs != [] {
      var rec, rest := rs[0], rs[1..];
      var (a', b') := NextBracket(rec);
      var later := After(f, a, b, previous, n, k, eps, rs);
      RunTail(f, a, b, previous, n, eps, rs);
      IterateComplete(f, a', b', Some(rec.xi), n + 1, k, eps, rest);
      AfterTail(f, a, b, previous, n, k, eps, rs);
      assert !Stops(rec, eps);
      Unfold(f, a, b, previous, n, k, eps, rec);
      AppendAssoc([rec], rest, later);
      assert [rec] + rest == rs;
    }
  }

  /** The rows before the last one of a run, with nothing stopping among them. */
  lemma RunPrefix(f: real -> real, a: real, b: real, eps: real, rs: seq<Record>)
    requires IsRunFrom(f, a, b, None, 0, eps, rs) && rs != []
    ensures IsRunFrom(f, a, b, None, 0, eps, rs[..|rs| - 1]) && NoneStops(rs[..|rs| - 1], eps)
  {
    var p := rs[..|rs| - 1];
    forall j | 0 <= j < |p| ensures p[j] == rs[j] { }
  }

  /** A finished run whose last row stops the loop is what the loop produces. */
  lemma {:induction false} StoppedRunIsIterate(f: real -> real, a: real, b: real, eps: real, k: int, rs: seq<Record>)
    requires IsRunFrom(f, a, b, None, 0, eps, rs) && |rs| <= Budget(k)
    requires |rs| > 0 && Stops(rs[|rs| - 1], eps)
    ensures Iterate(f, a, b, None, 0, k, eps) == rs
  {
    var m := |rs| - 1;
    var p, last := rs[..m], rs[m];
    assert rs == p + [last];
    RunPrefix(f, a, b, eps, rs);
    IterateComplete(f, a, b, None, 0, k, eps, p);
    if m == 0 {
      assert Iterate(f, a, b, None, 0, k, eps) == [last];
    } else {
      var q := p[m - 1];
      RowFacts(f, a, b, eps, rs);
      assert q == rs[m - 1] && q.i == m && last == Next(f, q);
      var (a', b') := NextBracket(q);
      Unfold(f, a', b', Some(q.xi), m, k, eps, last);
    }
  }

  /**
    The solver fails, with the bracket error and no rows, exactly when
    `f(a)*f(b) > 0` (a product of zero passes); otherwise its rows are
    exactly the finished runs of rows on `[a, b]`.
   */
  lemma RunTrace(f: real -> real, a: real, b: real, eps: real, k: int, rs: seq<Record>)
    ensures Run(f, a, b, eps, k).Failure? <==> f(a) * f(b) > 0.0
    ensures Run(f, a, b, eps, k).Failure? ==> Run(f, a, b, eps, k).kind == InvalidBracket
    ensures Run(f, a, b, eps, k) == Trace(rs) <==>
              f(a) * f(b) <= 0.0 && IsRunFrom(f, a, b, None, 0, eps, rs) && Finished(rs, 0, k, eps)
  {
    if Run(f, a, b, eps, k) == Trace(rs) {
      IterateSound(f, a, b, None, 0, k, eps);
    }
    if IsRunFrom(f, a, b, None, 0, eps, rs) && Finished(rs, 0, k, eps) {
      if |rs| > 0 && Stops(rs[|rs| - 1], eps) {
        StoppedRunIsIterate(f, a, b, eps, k, rs);
      } else {
        assert NoneStops(rs, eps);
        ExhaustedRunIsIterate(f, a, b, eps, k, rs);
      }
    }
  }

  /** A run of rows that do not stop the loop and use up the budget is what the loop produces. */
  lemma ExhaustedRunIsIterate(f: real -> real, a: real, b: real, eps: real, k: int, rs: seq<Record>)
    requires IsRunFrom(f, a, b, None, 0, eps, rs) && NoneStops(rs, eps) && |rs| == Budget(k)
    ensures Iterate(f, a, b, None, 0, k, eps) == rs
  {
    IterateComplete(f, a, b, None, 0, k, eps, rs);
    assert rs + [] == rs;
  }

  /**
    What the caller can read off a successful table: at most `k` rows
    numbered 1, 2, ..., the first on the given bracket with error exactly
    100, each holding the midpoint of its bracket and `f` at the two ends
    and the midpoint, later errors the clamped relative change of the
    midpoint, no row before the last converged or an exact root, and fewer
    than `k` rows only when the last one stops the loop.
   */
  lemma TraceShape(f: real -> real, a0: real, b0: real, eps: real, k: int, rs: seq<Record>)
    requires Run(f, a0, b0, eps, k) == Trace(rs)
    ensures f(a0) * f(b0) <= 0.0
    ensures |rs| <= Budget(k)
    ensures k <= 0 ==> rs == []
    ensures |rs| > 0 ==> rs[0].a == a0 && rs[0].b == b0 && rs[0].error == FullError
    ensures forall j :: 0 <= j < |rs| ==>
              && rs[j].i == j + 1
              && rs[j].xi == (rs[j].a + rs[j].b) / 2.0
              && rs[j].fa == f(rs[j].a) && rs[j].fb == f(rs[j].b) && rs[j].fxi == f(rs[j].xi)
              && rs[j].error >= 0.0
    ensures forall j :: 0 < j < |rs| ==> rs[j].error == RelativeError(rs[j].xi, rs[j - 1].xi)
    ensures forall j :: 0 <= j < |rs| - 1 ==> (j > 0 ==> rs[j].error >= eps) && !ExactRoot(rs[j])
    ensures |rs| < Budget(k) ==> |rs| > 0 && Stops(rs[|rs| - 1], eps)
  {
    IterateSound(f, a0, b0, None, 0, k, eps);
    RowFacts(f, a0, b0, eps, rs);
    forall j | 0 <= j < |rs|
      ensures rs[j].xi == (rs[j].a + rs[j].b) / 2.0
      ensures rs[j].fa == f(rs[j].a) && rs[j].fb == f(rs[j].b) && rs[j].fxi == f(rs[j].xi)
      ensures rs[j].error >= 0.0
      ensures j > 0 ==> rs[j].error == RelativeError(rs[j].xi, rs[j - 1].xi)
    {
      if j > 0 {
        assert rs[j] == Next(f, rs[j - 1]);
      }
    }
  }

  /** Every row of a run from the start is numbered by its position and evaluates `f` on its own bracket. */
  lemma RowFacts(f: real -> real, a0: real, b0: real, eps: real, rs: seq<Record>)
    requires IsRunFrom(f, a0, b0, None, 0, eps, rs)
    ensures forall j :: 0 <= j < |rs| ==> rs[j].i == j + 1 && Evaluates(f, rs[j])
  {
    var j := 0;
    while j < |rs|
      invariant j <= |rs|
      invariant forall m :: 0 <= m < j ==> rs[m].i == m + 1 && Evaluates(f, rs[m])
    {
      if j > 0 {
        assert rs[j] == Next(f, rs[j - 1]);
      }
      j := j + 1;
    }
  }

  // ---------------------------------------------------------------------
  // The bracket.

  /** `rec` holds the midpoint of its bracket and `f` at the two ends and at the midpoint. */
  predicate Evaluates(f: real -> real, rec: Record)
  {
    rec.xi == (rec.a + rec.b) / 2.0 && rec.fa == f(rec.a) && rec.fb == f(rec.b) && rec.fxi == f(rec.xi)
  }

  /** `w` halved `n` times, that is `w / 2^n`. */
  function Halve(w: real, n: nat): real
  {
    if n == 0 then w else Halve(w, n - 1) / 2.0
  }

  lemma SameSign(p: real, q: real, r: real)
    requires p * q > 0.0 && p * r <= 0.0
    ensures q * r <= 0.0
    ensures p * r < 0.0 ==> q * r < 0.0
  {
    if p > 0.0 {
      assert q > 0.0 && r <= 0.0;
    } else {
      assert p < 0.0 && q < 0.0 && r >= 0.0;
    }
  }

  /**
    One update of the bracket, after a row that does not stop the loop and
    whose ends satisfy `f(a)*f(b) <= 0`: the new ends satisfy it too and the
    bracket never widens. When `f(xi)*f(a)` is not zero exactly one end
    becomes the midpoint and the width halves; when it is zero, `f(a)` is
    zero and the bracket stays as it was. A strict `f(a)*f(b) < 0` rules the
    zero case out and stays strict.
   */
  lemma BracketUpdate(f: real -> real, rec: Record, eps: real)
    requires Evaluates(f, rec)
    requires !Stops(rec, eps) && rec.fa * rec.fb <= 0.0
    ensures var (a', b') := NextBracket(rec);
      && f(a') * f(b') <= 0.0
      && Abs(b' - a') <= Abs(rec.b - rec.a)
      && (rec.fxi * rec.fa < 0.0 ==> a' == rec.a && b' == rec.xi)
      && (rec.fxi * rec.fa > 0.0 ==> a' == rec.xi && b' == rec.b)
      && (rec.fxi * rec.fa != 0.0 ==> 2.0 * Abs(b' - a') == Abs(rec.b - rec.a))
      && (rec.fxi * rec.fa == 0.0 ==> rec.fa == 0.0 && a' == rec.a && b' == rec.b)
      && (rec.fa * rec.fb < 0.0 ==> rec.fxi * rec.fa != 0.0 && f(a') * f(b') < 0.0)
  {
    if rec.fxi * rec.fa > 0.0 {
      SameSign(rec.fa, rec.fxi, rec.fb);
    } else if rec.fxi * rec.fa == 0.0 {
      assert rec.fxi != 0.0;
    }
  }

  /** Row `j` of a run from a bracket with `f(a0)*f(b0) <= 0` still has `f(a)*f(b) <= 0`, strictly if it started strict. */
  lemma {:induction false} SignAt(f: real -> real, a0: real, b0: real, eps: real, rs: seq<Record>, j: nat)
    requires IsRunFrom(f, a0, b0, None, 0, eps, rs) && f(a0) * f(b0) <= 0.0 && j < |rs|
    ensures rs[j].fa * rs[j].fb <= 0.0
    ensures f(a0) * f(b0) < 0.0 ==> rs[j].fa * rs[j].fb < 0.0
  {
    if j == 0 {
      assert rs[0] == Step(f, a0, b0, None, 1);
    } else {
      SignAt(f, a0, b0, eps, rs, j - 1);
      StepAlong(f, a0, b0, eps, rs, j);
    }
  }

  /** Row `j > 0` evaluates `f` on the bracket that the update rule produced from row `j - 1`. */
  lemma StepAlong(f: real -> real, a0: real, b0: real, eps: real, rs: seq<Record>, j: nat)
    requires IsRunFrom(f, a0, b0, None, 0, eps, rs) && 0 < j < |rs|
    requires rs[j - 1].fa * rs[j - 1].fb <= 0.0
    ensures (rs[j].a, rs[j].b) == NextBracket(rs[j - 1])
    ensures rs[j].fa * rs[j].fb <= 0.0
    ensures Abs(rs[j].b - rs[j].a) <= Abs(rs[j - 1].b - rs[j - 1].a)
    ensures rs[j - 1].fa * rs[j - 1].fb < 0.0 ==>
              rs[j].fa * rs[j].fb < 0.0 && 2.0 * Abs(rs[j].b - rs[j].a) == Abs(rs[j - 1].b - rs[j - 1].a)
  {
    var q := rs[j - 1];
    RowFacts(f, a0, b0, eps, rs);
    assert rs[j] == Next(f, q) && !Stops(q, eps);
    BracketUpdate(f, q, eps);
  }

  /**
    Along a successful table the ends of every row satisfy
    `f(a)*f(b) <= 0`, each row's bracket is the update of the one before,
    and the width never grows.
   */
  lemma BracketInvariant(f: real -> real, a0: real, b0: real, eps: real, k: int, rs: seq<Record>)
    requires Run(f, a0, b0, eps, k) == Trace(rs)
    ensures forall j :: 0 <= j < |rs| ==> rs[j].fa * rs[j].fb <= 0.0
    ensures forall j :: 0 < j < |rs| ==> (rs[j].a, rs[j].b) == NextBracket(rs[j - 1])
    ensures forall j :: 0 < j < |rs| ==> Abs(rs[j].b - rs[j].a) <= Abs(rs[j - 1].b - rs[j - 1].a)
  {
    IterateSound(f, a0, b0, None, 0, k, eps);
    forall j | 0 <= j < |rs| ensures rs[j].fa * rs[j].fb <= 0.0 {
      SignAt(f, a0, b0, eps, rs, j);
    }
    forall j | 0 < j < |rs|
      ensures (rs[j].a, rs[j].b) == NextBracket(rs[j - 1])
      ensures Abs(rs[j].b - rs[j].a) <= Abs(rs[j - 1].b - rs[j - 1].a)
    {
      SignAt(f, a0, b0, eps, rs, j - 1);
      StepAlong(f, a0, b0, eps, rs, j);
    }
  }

  /** With a strict sign change at the start, row `j` (counting from 0) has width `|b0 - a0| / 2^j`. */
  lemma {:induction false} WidthAt(f: real -> real, a0: real, b0: real, eps: real, rs: seq<Record>, j: nat)
    requires IsRunFrom(f, a0, b0, None, 0, eps, rs) && f(a0) * f(b0) < 0.0 && j < |rs|
    ensures Abs(rs[j].b - rs[j].a) == Halve(Abs(b0 - a0), j)
  {
    if j == 0 {
      assert rs[0] == Step(f, a0, b0, None, 1);
    } else {
      var w, w' := Abs(rs[j - 1].b - rs[j - 1].a), Abs(rs[j].b - rs[j].a);
      WidthAt(f, a0, b0, eps, rs, j - 1);
      SignAt(f, a0, b0, eps, rs, j - 1);
      StepAlong(f, a0, b0, eps, rs, j);
      assert 2.0 * w' == w;
    }
  }

  /**
    When the solver starts with a strict sign change, `f(a)*f(b) < 0`, it
    returns a table, the sign change stays strict on every row, so the
    bracket is updated every time, and row `j` (counting from 0) has width
    `|b0 - a0| / 2^j`.
   */
  lemma StrictBracketHalves(f: real -> real, a0: real, b0: real, eps: real, k: int)
    requires f(a0) * f(b0) < 0.0
    ensures Run(f, a0, b0, eps, k).Trace?
    ensures var rs := Run(f, a0, b0, eps, k).records;
      forall j :: 0 <= j < |rs| ==> rs[j].fa * rs[j].fb < 0.0 && Abs(rs[j].b - rs[j].a) == Halve(Abs(b0 - a0), j)
  {
    var rs := Run(f, a0, b0, eps, k).records;
    IterateSound(f, a0, b0, None, 0, k, eps);
    forall j | 0 <= j < |rs| ensures rs[j].fa * rs[j].fb < 0.0 {
      SignAt(f, a0, b0, eps, rs, j);
    }
    forall j | 0 <= j < |rs| ensures Abs(rs[j].b - rs[j].a) == Halve(Abs(b0 - a0), j) {
      WidthAt(f, a0, b0, eps, rs, j);
    }
  }

  /**
    The repeated midpoint: when a row that does not end the table has
    `f(xi)*f(a) == 0` with `f(xi)` away from zero, then `f(a)` is exactly
    zero, neither end moves, and the next row records the same bracket and
    midpoint again, with the same values of `f`, so it is again such a row.
    Its error is 0, or 100 when the midpoint is within the guard of zero;
    with a positive threshold and a midpoint away from zero that next row
    converges and is the last one.
   */
  lemma RepeatedMidpoint(f: real -> real, a0: real, b0: real, eps: real, k: int, rs: seq<Record>, j: nat)
    requires Run(f, a0, b0, eps, k) == Trace(rs)
    requires j + 1 < |rs| && rs[j].fxi * rs[j].fa == 0.0
    ensures rs[j].fa == 0.0 && Abs(rs[j].fxi) >= NearZero
    ensures rs[j + 1].a == rs[j].a && rs[j + 1].b == rs[j].b && rs[j + 1].xi == rs[j].xi
    ensures rs[j + 1].fa == rs[j].fa && rs[j + 1].fb == rs[j].fb && rs[j + 1].fxi == rs[j].fxi
    ensures Abs(rs[j].xi) < NearZero ==> rs[j + 1].error == FullError
    ensures Abs(rs[j].xi) >= NearZero ==> rs[j + 1].error == 0.0
    ensures eps > 0.0 && Abs(rs[j].xi) >= NearZero ==> |rs| == j + 2
  {
    IterateSound(f, a0, b0, None, 0, k, eps);
    RowFacts(f, a0, b0, eps, rs);
    var q := rs[j];
    assert !Stops(q, eps) && Evaluates(f, q);
    assert q.fxi != 0.0;
    assert rs[j + 1] == Next(f, q) && NextBracket(q) == (q.a, q.b);
    if Abs(q.xi) >= NearZero {
      RelativeErrorMeaning(q.xi, q.xi);
      assert rs[j + 1].error == 0.0 && rs[j + 1].i == j + 2;
      if eps > 0.0 && j + 2 < |rs| {
        assert false;
      }
    }
  }

  /**
    The repeated midpoint near zero: when row `j` has `f(xi)*f(a) == 0`
    with `f(xi)` away from zero and a midpoint within the guard of zero, and
    the threshold is at most 100, the row is recorded again on every
    remaining turn, each time with error 100, until the `k` iterations are
    used up.
   */
  lemma {:induction false} StuckNearZero(f: real -> real, a0: real, b0: real, eps: real, k: int, rs: seq<Record>, j: nat)
    requires Run(f, a0, b0, eps, k) == Trace(rs)
    requires j < |rs| && rs[j].fxi * rs[j].fa == 0.0 && Abs(rs[j].fxi) >= NearZero
    requires Abs(rs[j].xi) < NearZero && eps <= FullError
    decreases |rs| - j
    ensures |rs| == Budget(k)
    ensures forall m :: j < m < |rs| ==>
              rs[m].a == rs[j].a && rs[m].b == rs[j].b && rs[m].xi == rs[j].xi && rs[m].error == FullError
  {
    TraceShape(f, a0, b0, eps, k, rs);
    assert rs[j].error == FullError by {
      if j > 0 {
        assert rs[j].error == RelativeError(rs[j].xi, rs[j - 1].xi);
      }
    }
    assert !Stops(rs[j], eps);
    if j + 1 < |rs| {
      RepeatedMidpoint(f, a0, b0, eps, k, rs, j);
      StuckNearZero(f, a0, b0, eps, k, rs, j + 1);
    }
  }

  /**
    `f(x) = x + 1` on `[-1, 1]`: `f(-1)` is 0, the midpoint 0 is within the
    guard, and the same row is written on all three turns with error 100.
   */
  lemma RootAtLeftEndNearZero()
    ensures Run(PlusOne, -1.0, 1.0, 0.001, 3) == Trace([
              Record(1, -1.0, 1.0, 0.0, 0.0, 2.0, 1.0, 100.0),
              Record(2, -1.0, 1.0, 0.0, 0.0, 2.0, 1.0, 100.0),
              Record(3, -1.0, 1.0, 0.0, 0.0, 2.0, 1.0, 100.0)])
  {
    var r1 := Record(1, -1.0, 1.0, 0.0, 0.0, 2.0, 1.0, 100.0);
    var r2 := Record(2, -1.0, 1.0, 0.0, 0.0, 2.0, 1.0, 100.0);
    var r3 := Record(3, -1.0, 1.0, 0.0, 0.0, 2.0, 1.0, 100.0);
    assert Step(PlusOne, -1.0, 1.0, Some(0.0), 3) == r3;
    assert Iterate(PlusOne, -1.0, 1.0, Some(0.0), 2, 3, 0.001) == [r3];
    assert Step(PlusOne, -1.0, 1.0, Some(0.0), 2) == r2;
    assert Iterate(PlusOne, -1.0, 1.0, Some(0.0), 1, 3, 0.001) == [r2, r3];
    assert Step(PlusOne, -1.0, 1.0, None, 1) == r1;
    assert Iterate(PlusOne, -1.0, 1.0, None, 0, 3, 0.001) == [r1, r2, r3];
  }

  function PlusOne(x: real): real { x + 1.0 }

  /**
    A bracket of width zero on a root of `f`: the precheck passes, and the
    first row, whose midpoint is that root, is an exact root and ends the
    table.
   */
  lemma DegenerateBracketAtRoot(f: real -> real, a: real, eps: real, k: int)
    requires f(a) == 0.0 && k > 0
    ensures Run(f, a, a, eps, k) == Trace([Step(f, a, a, None, 1)])
    ensures ExactRoot(Step(f, a, a, None, 1))
  {
    assert (a + a) / 2.0 == a;
  }

  function Identity(x: real): real { x }

  /**
    `f(x) = x` on `[0, 2]`: the precheck passes because `f(0)*f(2)` is 0,
    the root at the end `a` is never reported, and the table repeats the
    midpoint 1 (where `f` is 1) and stops there as converged.
   */
  lemma RootAtLeftEnd()
    ensures Run(Identity, 0.0, 2.0, 0.001, 5) == Trace([
              Record(1, 0.0, 2.0, 1.0, 0.0, 2.0, 1.0, 100.0),
              Record(2, 0.0, 2.0, 1.0, 0.0, 2.0, 1.0, 0.0)])
  {
    var r1 := Record(1, 0.0, 2.0, 1.0, 0.0, 2.0, 1.0, 100.0);
    var r2 := Record(2, 0.0, 2.0, 1.0, 0.0, 2.0, 1.0, 0.0);
    assert Step(Identity, 0.0, 2.0, Some(1.0), 2) == r2;
    assert Iterate(Identity, 0.0, 2.0, Some(1.0), 1, 5, 0.001) == [r2];
    assert Step(Identity, 0.0, 2.0, None, 1) == r1;
    assert Iterate(Identity, 0.0, 2.0, None, 0, 5, 0.001) == [r1, r2];
  }

  /** A constant non-zero `f` never has a sign change, so every bracket is refused. */
  lemma ConstantHasNoBracket(a: real, b: real, eps: real, k: int)
    ensures Run(x => 5.0, a, b, eps, k) == Failure(InvalidBracket)
  {
  }
}
