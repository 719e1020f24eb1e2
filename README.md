# Newton-Raphson and bisection root finders, modelled in Dafny

The web application computes iteration tables for two root-finding methods
(`app.py`): `calcular_newton` and `calcular_bissecao`. Each takes a
function of `x`, a start (a point or a bracket), an error threshold in
percent and an iteration budget `k`. It then runs a bounded loop that
appends one row per iteration. The answer is either the finished table or
an error message. This project models the two loops over exact `real`
arithmetic and proves what their tables look like.

Layout:

- `iteration.dfy` (module `Iteration`) holds what both solvers share:
  - the `1e-10` guard (`NearZero`) and the error of 100 (`FullError`);
  - the clamped relative-error rule (`RelativeError`);
  - `Budget`, the number of turns `range(k)` allows;
  - the answer type `Outcome`: `Failure(kind)` or `Trace(rows)`.
- `newton.dfy` (module `NewtonRaphson`) and `bisection.dfy` (module
  `Bisection`) each hold three things:
  - a `Record` per table row and a recursive specification `Iterate`/`Run`
    of the loop;
  - the imperative loop `Solve` (a `while` loop that appends rows to a
    sequence and reassigns the point or the bracket in place), proved to
    return exactly `Run`;
  - a loop-free description of the table (`IsRunFrom`, `Finished`), proved
    equivalent to `Run` in both directions, and the properties derived from
    it.

Both loops compute a row's error by calling their module's `Error`
function, which holds the same branches as the source: 100 on the first
row, then the clamped relative error.

What the Newton model states:

- A table has at most `k` rows, numbered 0, 1, … in order, and none when
  `k <= 0`.
- Each row is the update `x' = x - f(x)/f'(x)` taken from the point where
  the previous row ended, starting from `x0`.
- The update is taken only where `|f'(x)| >= 1e-10`. As soon as the
  derivative is within the guard, the whole answer is the failure and every
  row is discarded.
- The first error is exactly 100. Later errors follow the clamped rule, so
  they are never negative.
- The loop stops early only on a row after the first whose error is below
  the threshold.

What the bisection model states:

- The solver refuses the bracket, with no rows, exactly when
  `f(a)*f(b) > 0`. A product of exactly 0 passes.
- Rows are numbered 1, 2, …. Each row holds its bracket, the midpoint and
  `f` at all three points.
- The first error is 100. The first row never ends the table by convergence.
- The bracket update keeps `f(a)*f(b) <= 0` and never widens the bracket.
  When `f(xi)*f(a)` is non-zero, exactly one end moves to the midpoint and
  the width halves. With a strict sign change at the start, row `j` has
  width `|b0 - a0| / 2^j`.

One behaviour of the bisection loop is reproduced as written, not
corrected. Suppose a row does not converge and has `f(xi)*f(a) == 0` while
`|f(xi)| >= 1e-10`, which means `f(a)` is exactly 0. Then neither end moves
and the loop goes on, so the next row repeats the same bracket, midpoint
and values of `f`:

- When `|xi| >= 1e-10`, the repeated row has error 0. With a positive
  threshold it converges and ends the table.
- When `|xi| < 1e-10`, the error is clamped to 100. With a threshold of at
  most 100, the same row is then written on every remaining turn until the
  `k` iterations are used up.

Either way the root sitting at `a` is not reported as an exact root. The
one exception is a bracket with `a == b`, whose first midpoint is `a`
itself. `Bisection.RepeatedMidpoint` and `Bisection.StuckNearZero` state
this in general. `Bisection.RootAtLeftEnd` (`f(x) = x` on `[0, 2]`) and
`Bisection.RootAtLeftEndNearZero` (`f(x) = x + 1` on `[-1, 1]`) work out
one case each. `Bisection.DegenerateBracketAtRoot` covers the exception.

## Model

| member | source | states |
|---|---|---|
| Iteration.RelativeError | app.py:46-49 | the error is never negative, and it is exactly 100 when the new point is within `1e-10` of zero |
| Iteration.RelativeErrorMeaning | app.py:49 | away from the guard, error × \|new point\| equals 100 × \|change\|, and the error is 0 exactly when the point did not move |
| NewtonRaphson.Solve | app.py:26-57 | the loop, appending rows and moving the point in place, answers exactly `Run`: the same failure or the same rows as the recursive specification |
| NewtonRaphson.IterateTraceSound | app.py:27-57 | every table the loop produces from iteration `i` is a chain of Newton steps numbered from `i`, none but the last converged, ended by convergence or by the budget |
| NewtonRaphson.IterateFailureSound | app.py:35-36 | every failure is the derivative failure, reached by a chain of unconverged steps that lands, with iterations to spare, on a point where \|f'\| < 1e-10 |
| NewtonRaphson.IterateComplete | app.py:27-57 | conversely, the loop replays any chain of unconverged Newton steps and then carries on from the point where that chain ended |
| NewtonRaphson.RunFails | app.py:35-36 | the solver fails if and only if such a chain reaches a flat derivative before converging and within `k` iterations, and the failure carries no rows |
| NewtonRaphson.ConvergedRunIsIterate | app.py:54-55 | a chain of steps within the budget whose last step converges is exactly the table the loop returns |
| NewtonRaphson.ExhaustedRunIsIterate | app.py:27 | a chain of unconverged steps that uses the whole budget is exactly the table the loop returns |
| NewtonRaphson.RunTrace | app.py:26-57 | the solver returns rows `rs` if and only if `rs` is a chain of Newton steps from `x0` that ends by convergence or by using up `k` |
| NewtonRaphson.TraceShape | app.py:26-55 | a returned table has at most `k` rows (none if `k <= 0`), numbered 0, 1, …; it starts at `x0` with error 100; every row is the Newton update at a point where \|f'\| >= 1e-10; consecutive rows chain; errors are >= 0; middle rows are not below the threshold; fewer than `k` rows only when the last one converged |
| NewtonRaphson.LaterErrors | app.py:43-51 | each row after the first carries the clamped relative error of its update: 100 within the guard, otherwise 0 exactly when the step did not move |
| NewtonRaphson.NoRealRoot | app.py:35-36 | for `f(x) = x²+1` from `x0 = 0` the derivative vanishes at once and the solver fails with no table |
| NewtonRaphson.SquareRootOfTwo | app.py:26-57 | for `f(x) = x²-2` from 1 with threshold 0.001 and 10 iterations, the table is the four rows 1 → 3/2 → 17/12 → 577/408 → 665857/470832 with their errors |
| Bisection.Solve | app.py:84-128 | the loop, appending rows and moving the bracket and the last midpoint in place, answers exactly `Run`: the bracket failure or the rows of the recursive specification |
| Bisection.IterateSound | app.py:91-128 | every table the loop produces is a run of rows, each row following from the one before by the bracket update, none but the last stopping the loop, ended by a stop or by the budget |
| Bisection.IterateComplete | app.py:91-128 | conversely, the loop replays any run of rows that do not stop it and then carries on from the bracket where that run ended |
| Bisection.StoppedRunIsIterate | app.py:116-126 | a run within the budget whose last row converges or is an exact root is exactly the table the loop returns |
| Bisection.ExhaustedRunIsIterate | app.py:91 | a run of non-stopping rows that uses the whole budget is exactly the table the loop returns |
| Bisection.RunTrace | app.py:84-128 | the solver fails, with the bracket error and no rows, if and only if `f(a)*f(b) > 0`; otherwise it returns `rs` if and only if `rs` is a run from `[a, b]` that ends by a stop or by using up `k` |
| Bisection.TraceShape | app.py:91-126 | a returned table has at most `k` rows (none if `k <= 0`), numbered 1, 2, …; the first row is on `[a0, b0]` with error 100; each row holds its midpoint and `f` at both ends and the midpoint; later errors are the clamped relative change of the midpoint; no row before the last converged or is an exact root; fewer than `k` rows only when the last one stops the loop |
| Bisection.BracketUpdate | app.py:121-126 | one update after a row that does not stop keeps `f(a)*f(b) <= 0` and never widens; `f(xi)*f(a) < 0` moves `b`, `> 0` moves `a`, either way halving the width; a zero product means `f(a) == 0` and leaves the bracket as it was; a strict sign change rules that case out and stays strict |
| Bisection.SignAt | app.py:121-124 | every row of a run from a bracket with `f(a0)*f(b0) <= 0` still has `f(a)*f(b) <= 0`, strictly if the start was strict |
| Bisection.BracketInvariant | app.py:121-124 | along a returned table every row has `f(a)*f(b) <= 0`, every bracket is the update of the previous row's, and the width never grows |
| Bisection.WidthAt | app.py:121-124 | from a strict sign change, row `j` of a run has width `|b0 - a0|` halved `j` times |
| Bisection.StrictBracketHalves | app.py:121-124 | when `f(a0)*f(b0) < 0` the solver returns a table, the sign change stays strict on every row, and row `j` has width `|b0 - a0| / 2^j` |
| Bisection.RepeatedMidpoint | app.py:106-128 | after a non-final row with `f(xi)*f(a) == 0`, `f(a)` is 0 and `|f(xi)| >= 1e-10`; the next row repeats its bracket, midpoint and `f` values with error 0 (100 when the midpoint is within the guard); with a positive threshold and a midpoint away from zero that row is the last |
| Bisection.StuckNearZero | app.py:106-128 | when such a row has its midpoint within `1e-10` of zero and the threshold is at most 100, every later row repeats its bracket and midpoint with error 100, and the table runs to the full budget `k` |
| Bisection.RootAtLeftEndNearZero | app.py:87-128 | for `f(x) = x + 1` on `[-1, 1]` with threshold 0.001 and `k = 3`, the table is three identical rows with midpoint 0 and error 100 |
| Bisection.DegenerateBracketAtRoot | app.py:87-126 | on a bracket `[a, a]` with `f(a) == 0` (and `k > 0`), the precheck passes and the first row is an exact root that ends the table |
| Bisection.RootAtLeftEnd | app.py:87-126 | for `f(x) = x` on `[0, 2]` the bracket is accepted (`f(0)*f(2) == 0`), and the table is two rows with midpoint 1, the second with error 0 |
| Bisection.ConstantHasNoBracket | app.py:87-88 | a constant non-zero `f` is refused on every bracket |

## Left out

- The Flask application, its routes and request handling (app.py:7, app.py:136-186): HTTP I/O, outside the computation.
- Parsing the expression with sympy (app.py:17-24, app.py:75-81): the parsed function is the parameter `f`, and for Newton its derivative, which sympy computes, is the separate parameter `fp`. The model does not state that `fp` is the derivative of `f`. The parse-failure message, returned before any iteration, is not modelled.
- Evaluation errors inside `f` (a logarithm of a negative number, a division by zero in the expression): `f` and `fp` are total functions on `real`.
- Building the pandas table, `round(6)` and the HTML rendering (app.py:59-63, app.py:130-133): the model's answer is the sequence of rows itself, unrounded.
- IEEE floating point: all arithmetic is exact `real` arithmetic. Overflow, underflow (for instance `f(xi)*f(a)` rounding to 0 when neither factor is 0) and rounding in the error formula are not captured. The accuracy of the final point as a root is not stated.
- The iteration budget is an `int`; a non-integer `k` (a Python `TypeError` in `range`) is not modelled.
