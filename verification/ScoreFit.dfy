/** Fitting a target's scores to the curve of one over the position: a search downhill for
    the factors `a` and `b` of `a * score + b`, over exact reals. */
module ScoreFit {

  /** A record's score and its position in the target's result. */
  datatype Scored = Scored(score: real, position: nat)

  ghost predicate Placed(recs: seq<Scored>)
  {
    forall i :: 0 <= i < |recs| ==> recs[i].position > 0
  }

  function Abs(x: real): real
  {
    if x < 0.0 then -x else x
  }

  /** Multiplication, by a name that proofs can hide. */
  function Times(x: real, y: real): real
  {
    x * y
  }

  // ----- The sum of squares --------------------------------------------------

  /** How far a record is from the curve. */
  function Off(r: Scored, a: real, b: real): real
    requires r.position > 0
  {
    1.0 / r.position as real - (r.score * a + b)
  }

  function SquareSum(recs: seq<Scored>, a: real, b: real): real
    requires Placed(recs)
  {
    if recs == [] then 0.0
    else
      var n := |recs| - 1;
      SquareSum(recs[..n], a, b) + Times(Off(recs[n], a, b), Off(recs[n], a, b))
  }

  /** How fast the sum changes with `a`, times minus one half. */
  function SlopeA(recs: seq<Scored>, a: real, b: real): real
    requires Placed(recs)
  {
    if recs == [] then 0.0
    else
      var n := |recs| - 1;
      SlopeA(recs[..n], a, b) + Times(Off(recs[n], a, b), recs[n].score)
  }

  /** How fast the sum changes with `b`, times minus one half. */
  function SlopeB(recs: seq<Scored>, a: real, b: real): real
    requires Placed(recs)
  {
    if recs == [] then 0.0
    else
      var n := |recs| - 1;
      SlopeB(recs[..n], a, b) + Off(recs[n], a, b)
  }

  function ScoreSquares(recs: seq<Scored>): (r: real)
    ensures r >= 0.0
  {
    if recs == [] then 0.0
    else
      var n := |recs| - 1;
      ScoreSquares(recs[..n]) + Times(recs[n].score, recs[n].score)
  }

  /** A parabola through zero at zero. */
  function Bowl(l: real, q: real, t: real): real
  {
    -2.0 * Times(t, l) + Times(Times(t, t), q)
  }

  /** Along the `a` axis the sum is a parabola. */
  lemma {:induction false} AlongA(recs: seq<Scored>, a: real, b: real, t: real)
    requires Placed(recs)
    ensures SquareSum(recs, a + t, b)
      == SquareSum(recs, a, b) + Bowl(SlopeA(recs, a, b), ScoreSquares(recs), t)
  {
    hide Times, Off, Bowl;
    if recs == [] {
      EmptyBowl(t);
    } else {
      var n := |recs| - 1;
      AlongA(recs[..n], a, b, t);
      var d, s := Off(recs[n], a, b), recs[n].score;
      OffAlong(recs[n], a, b, t);
      BowlAdd(SlopeA(recs[..n], a, b), ScoreSquares(recs[..n]), t, d, s);
    }
  }

  /** Along the `b` axis the sum is a parabola. */
  lemma {:induction false} AlongB(recs: seq<Scored>, a: real, b: real, t: real)
    requires Placed(recs)
    ensures SquareSum(recs, a, b + t)
      == SquareSum(recs, a, b) + Bowl(SlopeB(recs, a, b), |recs| as real, t)
  {
    hide Times, Off, Bowl;
    if recs == [] {
      EmptyBowl(t);
    } else {
      var n := |recs| - 1;
      AlongB(recs[..n], a, b, t);
      OffAlong(recs[n], a, b, t);
      BowlAdd(SlopeB(recs[..n], a, b), n as real, t, Off(recs[n], a, b), 1.0);
      TimesOne(Off(recs[n], a, b));
      TimesOne(t);
      TimesOne(1.0);
    }
  }

  lemma EmptyBowl(t: real)
    ensures Bowl(0.0, 0.0, t) == 0.0
  {
  }

  lemma TimesOne(x: real)
    ensures Times(x, 1.0) == x
  {
  }

  lemma OffAlong(r: Scored, a: real, b: real, t: real)
    requires r.position > 0
    ensures Off(r, a + t, b) == Off(r, a, b) - Times(t, r.score)
    ensures Off(r, a, b + t) == Off(r, a, b) - t
  {
    Spread(r.score, a, t);
  }

  /** One more record makes another parabola. */
  lemma BowlAdd(l: real, q: real, t: real, d: real, s: real)
    ensures var e := d - Times(t, s);
      Bowl(l, q, t) + Times(e, e) == Times(d, d) + Bowl(l + Times(d, s), q + Times(s, s), t)
  {
    Square(d, t, s);
    Spread(t, l, d * s);
    Spread(t * t, q, s * s);
  }

  lemma Square(d: real, t: real, s: real)
    ensures (d - t * s) * (d - t * s) == d * d - 2.0 * (t * (d * s)) + (t * t) * (s * s)
  {
  }

  lemma Spread(t: real, x: real, y: real)
    ensures t * (x + y) == t * x + t * y
  {
  }

  // ----- What two neighbours tell ----------------------------------------------

  /** On a parabola that is no lower at distance `h` on both sides, nothing further away
      is lower, and nothing at all is lower by more than a quarter of what the two sides
      are higher on average. */
  lemma Parabola(l: real, q: real, h: real, t: real)
    requires q >= 0.0 && h != 0.0 && Bowl(l, q, h) >= 0.0 && Bowl(l, q, -h) >= 0.0
    ensures Bowl(l, q, t) >= -(0.5 * (Bowl(l, q, h) + Bowl(l, q, -h))) / 4.0
    ensures Abs(t) >= Abs(h) ==> Bowl(l, q, t) >= 0.0
  {
    hide Times;
    BowlMean(l, q, h);
    AbsProduct(h, l);
    AbsProduct(t, l);
    AbsProduct(h, h);
    AbsProduct(t, t);
    SquareUp(h);
    SquareUp(t);
    Upward(Abs(l), q, Abs(h), Abs(t));
  }

  lemma BowlMean(l: real, q: real, h: real)
    ensures Bowl(l, q, -h) == 2.0 * Times(h, l) + Times(Times(h, h), q)
    ensures 0.5 * (Bowl(l, q, h) + Bowl(l, q, -h)) == Times(Times(h, h), q)
  {
  }

  lemma SquareUp(x: real)
    ensures Times(x, x) >= 0.0
  {
  }

  lemma Upward(k: real, q: real, m: real, u: real)
    requires q >= 0.0 && m > 0.0 && u >= 0.0 && 2.0 * Times(m, k) <= Times(Times(m, m), q)
    ensures 2.0 * Times(u, k) <= Times(Times(u, u), q) + Times(Times(m, m), q) / 4.0
    ensures u >= m ==> 2.0 * Times(u, k) <= Times(Times(u, u), q)
  {
    hide Times;
    Half(k, q, m);
    Scale(u, 2.0 * k, Times(m, q));
    Quarter(q, m, u);
    Doubled(u, k);
  }

  lemma Doubled(u: real, k: real)
    ensures Times(u, 2.0 * k) == 2.0 * Times(u, k)
  {
  }

  lemma AbsProduct(x: real, y: real)
    ensures Abs(Times(x, y)) == Times(Abs(x), Abs(y))
  {
    if x >= 0.0 && y >= 0.0 { Scale(x, 0.0, y); }
    else if x >= 0.0 { Scale(x, 0.0, -y); }
    else if y >= 0.0 { Scale(-x, 0.0, y); }
    else { Scale(-x, 0.0, -y); }
  }

  lemma Scale(u: real, x: real, y: real)
    requires u >= 0.0 && x <= y
    ensures Times(u, x) <= Times(u, y)
  {
    assert u * (y - x) >= 0.0;
  }

  lemma Half(k: real, q: real, m: real)
    requires m > 0.0 && 2.0 * Times(m, k) <= Times(Times(m, m), q)
    ensures 2.0 * k <= Times(m, q)
  {
    var gap := m * q - 2.0 * k;
    assert m * gap == (m * m) * q - 2.0 * (m * k);
    assert gap < 0.0 ==> m * gap < 0.0;
  }

  lemma Quarter(q: real, m: real, u: real)
    requires q >= 0.0 && u >= 0.0 && m >= 0.0
    ensures Times(Times(u, u), q) - Times(u, Times(m, q)) >= -Times(Times(m, m), q) / 4.0
    ensures u >= m ==> Times(Times(u, u), q) - Times(u, Times(m, q)) >= 0.0
  {
    var w := u - m / 2.0;
    SquareUp(w);
    Scale(q, 0.0, w * w);
    assert q * (w * w) == (u * u) * q - u * (m * q) + ((m * m) * q) / 4.0;
    if u >= m {
      Scale(u, m, u);
      Scale(q, u * m, u * u);
    }
  }

  /** The sum is made of the squares of the distances from one over the position. */
  lemma {:induction false} SumJoins(recs: seq<Scored>, more: seq<Scored>, a: real, b: real)
    requires Placed(recs) && Placed(more)
    ensures Placed(recs + more)
    ensures SquareSum(recs + more, a, b) == SquareSum(recs, a, b) + SquareSum(more, a, b)
  {
    hide Times, Off;
    if more == [] {
      assert recs + more == recs;
    } else {
      var n := |more| - 1;
      SumJoins(recs, more[..n], a, b);
      assert (recs + more)[..|recs| + n] == recs + more[..n];
    }
  }

  lemma SumOfOne(r: Scored, a: real, b: real)
    requires r.position > 0
    ensures Placed([r])
    ensures var d := 1.0 / r.position as real - (r.score * a + b); SquareSum([r], a, b) == d * d
  {
    assert [r][..0] == [];
  }

  /** The score is mapped to one over the position. */
  ghost predicate OnCurve(r: Scored, a: real, b: real)
    requires r.position > 0
  {
    r.score * a + b == 1.0 / r.position as real
  }

  /** It is zero exactly if every score is mapped to one over the position. */
  lemma {:induction false} SumIsZeroExactly(recs: seq<Scored>, a: real, b: real)
    requires Placed(recs)
    ensures SquareSum(recs, a, b) >= 0.0
    ensures SquareSum(recs, a, b) == 0.0 <==>
      forall i :: 0 <= i < |recs| ==> OnCurve(recs[i], a, b)
  {
    hide Times, Off, OnCurve;
    if recs != [] {
      var n := |recs| - 1;
      SumIsZeroExactly(recs[..n], a, b);
      SquareIsZero(Off(recs[n], a, b));
      OffIsZero(recs[n], a, b);
      assert forall i :: 0 <= i < n ==> recs[..n][i] == recs[i];
    }
  }

  lemma OffIsZero(r: Scored, a: real, b: real)
    requires r.position > 0
    ensures Off(r, a, b) == 0.0 <==> OnCurve(r, a, b)
  {
  }

  lemma SquareIsZero(x: real)
    ensures Times(x, x) >= 0.0 && (Times(x, x) == 0.0 <==> x == 0.0)
  {
    if x > 0.0 { PositiveProduct(x, x); }
    if x < 0.0 { PositiveProduct(-x, -x); }
  }

  lemma PositiveProduct(x: real, y: real)
    requires x > 0.0 && y > 0.0
    ensures Times(x, y) > 0.0 && Times(-x, -y) > 0.0
  {
  }

  // ----- One round -----------------------------------------------------------

  /** The factors, their step sizes and the sum of squares there. */
  datatype Fit = Fit(a: real, b: real, stepA: real, stepB: real, chi: real)

  const MAX_ITERATIONS := 1000
  const ENOUGH := 100.0
  const STEP_CHANGE := 0.5

  /** `x` is strictly less than each of four others. */
  predicate Least(x: real, p: real, q: real, r: real, s: real)
  {
    x < p && x < q && x < r && x < s
  }

  /** `f.chi` is the sum of squares at `f`. */
  ghost predicate Matches(recs: seq<Scored>, f: Fit)
    requires Placed(recs)
  {
    f.chi == SquareSum(recs, f.a, f.b)
  }

  /** A round: moves to the neighbour that is strictly the best of all, if there is one,
      and otherwise shortens one of the steps. */
  function Round(recs: seq<Scored>, f: Fit): Fit
    requires Placed(recs)
  {
    Choose(f,
           SquareSum(recs, f.a + f.stepA, f.b), SquareSum(recs, f.a - f.stepA, f.b),
           SquareSum(recs, f.a, f.b + f.stepB), SquareSum(recs, f.a, f.b - f.stepB))
  }

  /** What a round makes of the sums at the four neighbours. */
  function Choose(f: Fit, aplus: real, aminus: real, bplus: real, bminus: real): Fit
  {
    if Least(aplus, f.chi, aminus, bplus, bminus) then
      f.(a := f.a + f.stepA, chi := aplus, stepA := f.stepA * (1.0 + STEP_CHANGE))
    else if Least(aminus, f.chi, aplus, bplus, bminus) then
      f.(a := f.a - f.stepA, chi := aminus, stepA := f.stepA * (1.0 + STEP_CHANGE))
    else if Least(bplus, f.chi, aplus, aminus, bminus) then
      f.(b := f.b + f.stepB, chi := bplus, stepB := f.stepB * (1.0 + STEP_CHANGE))
    else if Least(bminus, f.chi, aplus, bplus, aminus) then
      f.(b := f.b - f.stepB, chi := bminus, stepB := f.stepB * (1.0 + STEP_CHANGE))
    else if Abs(0.5 * (aplus + aminus) - f.chi) > Abs(0.5 * (bplus + bminus) - f.chi) then
      f.(stepA := f.stepA * (1.0 - STEP_CHANGE))
    else
      f.(stepB := f.stepB * (1.0 - STEP_CHANGE))
  }

  predicate Settled(f: Fit)
  {
    Abs(f.stepA) * ENOUGH < Abs(f.a) && Abs(f.stepB) * ENOUGH < Abs(f.b)
  }

  /** `n` rounds. */
  function Rounds(recs: seq<Scored>, f: Fit, n: nat): Fit
    requires Placed(recs)
  {
    if n == 0 then f else Round(recs, Rounds(recs, f, n - 1))
  }

  /** No neighbour along the `a` axis is better. */
  ghost predicate FlatA(recs: seq<Scored>, f: Fit)
    requires Placed(recs)
  {
    SquareSum(recs, f.a + f.stepA, f.b) >= f.chi && SquareSum(recs, f.a - f.stepA, f.b) >= f.chi
  }

  /** No neighbour along the `b` axis is better. */
  ghost predicate FlatB(recs: seq<Scored>, f: Fit)
    requires Placed(recs)
  {
    SquareSum(recs, f.a, f.b + f.stepB) >= f.chi && SquareSum(recs, f.a, f.b - f.stepB) >= f.chi
  }

  /** A round keeps the sum of squares in step with the factors. If it moves, the sum
      gets strictly smaller; if not, factors and sum stay. */
  lemma RoundImproves(recs: seq<Scored>, f: Fit)
    requires Placed(recs) && Matches(recs, f)
    ensures var g := Round(recs, f);
      && Matches(recs, g)
      && (g.chi < f.chi || (g.chi == f.chi && g.a == f.a && g.b == f.b))
  {
  }

  /** A round that moves does so by one step along one axis, to a point that is better than
      the other three neighbours, and makes that step half as long again. */
  lemma MovingGrows(recs: seq<Scored>, f: Fit)
    requires Placed(recs) && Round(recs, f).chi < f.chi
    ensures var g, h := Round(recs, f), f.(chi := Round(recs, f).chi);
      || g == h.(a := f.a + f.stepA, stepA := 1.5 * f.stepA)
      || g == h.(a := f.a - f.stepA, stepA := 1.5 * f.stepA)
      || g == h.(b := f.b + f.stepB, stepB := 1.5 * f.stepB)
      || g == h.(b := f.b - f.stepB, stepB := 1.5 * f.stepB)
    ensures var chi := Round(recs, f).chi;
      && chi <= SquareSum(recs, f.a + f.stepA, f.b) && chi <= SquareSum(recs, f.a - f.stepA, f.b)
      && chi <= SquareSum(recs, f.a, f.b + f.stepB) && chi <= SquareSum(recs, f.a, f.b - f.stepB)
  {
    hide SquareSum;
  }

  /** Settled is a fit whose steps are each less than one percent of their factors. */
  lemma SettledMeaning(f: Fit)
    ensures Settled(f) <==>
      f.a != 0.0 && f.b != 0.0 && Abs(f.stepA / f.a) < 0.01 && Abs(f.stepB / f.b) < 0.01
  {
    PercentMeaning(f.stepA, f.a);
    PercentMeaning(f.stepB, f.b);
  }

  lemma QuotientTimes(step: real, x: real)
    requires x != 0.0
    ensures Times(step / x, x) == step
  {
  }

  lemma Hundredth(x: real)
    ensures Times(0.01, x) == x / 100.0
  {
  }

  lemma TimesOrder(x: real, y: real, z: real)
    requires x > 0.0
    ensures y < z <==> Times(y, x) < Times(z, x)
  {
    assert z * x - y * x == (z - y) * x;
    if y < z { assert (z - y) * x > 0.0; } else { assert (y - z) * x >= 0.0; }
  }

  lemma PercentMeaning(step: real, x: real)
    ensures Abs(step) * 100.0 < Abs(x) <==> x != 0.0 && Abs(step / x) < 0.01
  {
    hide Times;
    if x != 0.0 {
      var q := step / x;
      QuotientTimes(step, x);
      AbsProduct(q, x);
      TimesOrder(Abs(x), Abs(q), 0.01);
      Hundredth(Abs(x));
    }
  }

  lemma {:induction false} RoundsImprove(recs: seq<Scored>, f: Fit, n: nat)
    requires Placed(recs) && Matches(recs, f)
    ensures Matches(recs, Rounds(recs, f, n)) && Rounds(recs, f, n).chi <= f.chi
  {
    if n > 0 {
      RoundsImprove(recs, f, n - 1);
      RoundImproves(recs, Rounds(recs, f, n - 1));
    }
  }

  /** Where no neighbour along the `a` axis is better, the best `a` lies within one step,
      and no `a` is better by more than a quarter of what the neighbours are worse on
      average. */
  lemma OptimumNearA(recs: seq<Scored>, f: Fit, t: real)
    requires Placed(recs) && Matches(recs, f) && f.stepA != 0.0 && FlatA(recs, f)
    ensures Abs(t) >= Abs(f.stepA) ==> SquareSum(recs, f.a + t, f.b) >= f.chi
    ensures SquareSum(recs, f.a + t, f.b) >= f.chi - GapA(recs, f) / 4.0
  {
    hide Bowl;
    var l, q := SlopeA(recs, f.a, f.b), ScoreSquares(recs);
    BothSidesA(recs, f);
    AlongA(recs, f.a, f.b, t);
    Parabola(l, q, f.stepA, t);
  }

  lemma OptimumNearB(recs: seq<Scored>, f: Fit, t: real)
    requires Placed(recs) && Matches(recs, f) && f.stepB != 0.0 && FlatB(recs, f)
    ensures Abs(t) >= Abs(f.stepB) ==> SquareSum(recs, f.a, f.b + t) >= f.chi
    ensures SquareSum(recs, f.a, f.b + t) >= f.chi - GapB(recs, f) / 4.0
  {
    hide Bowl;
    var l, q := SlopeB(recs, f.a, f.b), |recs| as real;
    BothSidesB(recs, f);
    AlongB(recs, f.a, f.b, t);
    Parabola(l, q, f.stepB, t);
  }

  /** By how much the neighbours along an axis are worse on average. */
  function GapA(recs: seq<Scored>, f: Fit): real
    requires Placed(recs)
  {
    0.5 * (SquareSum(recs, f.a + f.stepA, f.b) + SquareSum(recs, f.a - f.stepA, f.b)) - f.chi
  }

  function GapB(recs: seq<Scored>, f: Fit): real
    requires Placed(recs)
  {
    0.5 * (SquareSum(recs, f.a, f.b + f.stepB) + SquareSum(recs, f.a, f.b - f.stepB)) - f.chi
  }

  lemma BothSidesA(recs: seq<Scored>, f: Fit)
    requires Placed(recs) && Matches(recs, f)
    ensures var l, q, h := SlopeA(recs, f.a, f.b), ScoreSquares(recs), f.stepA;
      && SquareSum(recs, f.a + h, f.b) == f.chi + Bowl(l, q, h)
      && SquareSum(recs, f.a - h, f.b) == f.chi + Bowl(l, q, -h)
      && GapA(recs, f) == 0.5 * (Bowl(l, q, h) + Bowl(l, q, -h))
  {
    hide Bowl;
    AlongA(recs, f.a, f.b, f.stepA);
    AlongA(recs, f.a, f.b, -f.stepA);
    assert f.a + -f.stepA == f.a - f.stepA;
  }

  lemma BothSidesB(recs: seq<Scored>, f: Fit)
    requires Placed(recs) && Matches(recs, f)
    ensures var l, q, h := SlopeB(recs, f.a, f.b), |recs| as real, f.stepB;
      && SquareSum(recs, f.a, f.b + h) == f.chi + Bowl(l, q, h)
      && SquareSum(recs, f.a, f.b - h) == f.chi + Bowl(l, q, -h)
      && GapB(recs, f) == 0.5 * (Bowl(l, q, h) + Bowl(l, q, -h))
  {
    hide Bowl;
    AlongB(recs, f.a, f.b, f.stepB);
    AlongB(recs, f.a, f.b, -f.stepB);
    assert f.b + -f.stepB == f.b - f.stepB;
  }

  lemma StayingShrinks(recs: seq<Scored>, f: Fit)
    requires Placed(recs)
    ensures Round(recs, f).chi == f.chi ==>
      Round(recs, f) == if Abs(GapA(recs, f)) > Abs(GapB(recs, f))
        then f.(stepA := 0.5 * f.stepA) else f.(stepB := 0.5 * f.stepB)
    ensures FlatA(recs, f) && FlatB(recs, f) ==> Round(recs, f).chi == f.chi
  {
  }

  /** A round that stays where it is halves the step along the axis where a step matters
      more.  It stays if no neighbour is better. */
  lemma ShrinkMeaning(recs: seq<Scored>, f: Fit)
    requires Placed(recs) && Matches(recs, f)
    ensures var g := Round(recs, f);
      g.chi == f.chi ==>
        g == if Bend(f.stepA, ScoreSquares(recs)) > Bend(f.stepB, |recs| as real)
             then f.(stepA := 0.5 * f.stepA) else f.(stepB := 0.5 * f.stepB)
    ensures FlatA(recs, f) && FlatB(recs, f) ==> Round(recs, f).chi == f.chi
  {
    hide GapA, GapB, Round, Bend;
    GapsAre(recs, f);
    StayingShrinks(recs, f);
  }

  /** How much a parabola of curvature `q` rises over a step. */
  function Bend(h: real, q: real): real
  {
    Times(Times(h, h), q)
  }

  /** On average the neighbours along an axis are worse by the square of the step times the
      curvature there. */
  lemma GapsAre(recs: seq<Scored>, f: Fit)
    requires Placed(recs) && Matches(recs, f)
    ensures GapA(recs, f) == Bend(f.stepA, ScoreSquares(recs)) >= 0.0
    ensures GapB(recs, f) == Bend(f.stepB, |recs| as real) >= 0.0
  {
    hide Bowl, GapA, GapB, Bend;
    BothSidesA(recs, f);
    BothSidesB(recs, f);
    MeanOfSides(SlopeA(recs, f.a, f.b), ScoreSquares(recs), f.stepA);
    MeanOfSides(SlopeB(recs, f.a, f.b), |recs| as real, f.stepB);
  }

  lemma MeanOfSides(l: real, q: real, h: real)
    requires q >= 0.0
    ensures 0.5 * (Bowl(l, q, h) + Bowl(l, q, -h)) == Bend(h, q) >= 0.0
  {
    BowlMean(l, q, h);
    SquareTimes(h, q);
  }

  function Min(x: real, y: real): real
  {
    if x < y then x else y
  }

  /** The better neighbour along each axis is better than `f`, and they are equally good. */
  ghost predicate Tied(recs: seq<Scored>, f: Fit)
    requires Placed(recs)
  {
    Min(SquareSum(recs, f.a + f.stepA, f.b), SquareSum(recs, f.a - f.stepA, f.b))
    == Min(SquareSum(recs, f.a, f.b + f.stepB), SquareSum(recs, f.a, f.b - f.stepB))
    < f.chi
  }

  /** A round stays where it is exactly when no neighbour is better, or the better ones
      along the two axes tie.  Two neighbours along one axis are never both better. */
  lemma StaysExactly(recs: seq<Scored>, f: Fit)
    requires Placed(recs) && Matches(recs, f)
    ensures Round(recs, f).chi == f.chi <==> (FlatA(recs, f) && FlatB(recs, f)) || Tied(recs, f)
    ensures Tied(recs, f) ==> !FlatA(recs, f) && !FlatB(recs, f)
  {
    hide SquareSum, Bend;
    GapsAre(recs, f);
  }

  lemma SquareTimes(h: real, q: real)
    requires q >= 0.0
    ensures Times(Times(h, h), q) >= 0.0
  {
    SquareUp(h);
    Scale(q, 0.0, h * h);
  }

  /** A tie between two neighbours makes a round stay even where both are better. */
  lemma TieStays() returns (recs: seq<Scored>, f: Fit)
    ensures Placed(recs) && Matches(recs, f)
    ensures SquareSum(recs, f.a + f.stepA, f.b) < f.chi
    ensures SquareSum(recs, f.a, f.b + f.stepB) < f.chi
    ensures Round(recs, f).a == f.a && Round(recs, f).b == f.b
  {
    hide SquareSum;
    recs := [Scored(1.0, 1)];
    f := Fit(0.0, 0.0, 0.5, 0.5, 1.0);
    OneRecord(0.0, 0.0);
    OneRecord(0.5, 0.0);
    OneRecord(0.0, 0.5);
    OneRecord(-0.5, 0.0);
    OneRecord(0.0, -0.5);
    assert 0.0 + 0.5 == 0.5 && 0.0 - 0.5 == -0.5;
  }

  lemma OneRecord(a: real, b: real)
    ensures SquareSum([Scored(1.0, 1)], a, b) == (1.0 - (a + b)) * (1.0 - (a + b))
  {
    var r := Scored(1.0, 1);
    assert [r][..0] == [];
    assert Off(r, a, b) == 1.0 - (a + b);
  }

  /** A factor `b` of zero, and so a step of zero, stays: a search that starts there never
      settles early. */
  lemma {:induction false} ZeroStays(recs: seq<Scored>, f: Fit, n: nat)
    requires Placed(recs) && Matches(recs, f) && f.b == 0.0 && f.stepB == 0.0
    ensures Rounds(recs, f, n).b == 0.0 && Rounds(recs, f, n).stepB == 0.0
    ensures !Settled(Rounds(recs, f, n))
  {
    if n > 0 {
      ZeroStays(recs, f, n - 1);
      RoundsImprove(recs, f, n - 1);
    }
  }

  // ----- The guess -----------------------------------------------------------

  /** The guess that maps the least score to zero and, but for a tiny range, the greatest
      to one. */
  function GuessFor(recs: seq<Scored>, min: real, range: real): Fit
    requires Placed(recs) && range != 0.0
  {
    var a, b := 1.0 / range, -1.0 * min / range;
    Fit(a, b, a / 10.0, Abs(b) / 10.0, SquareSum(recs, a, b))
  }

  lemma GuessMeaning(recs: seq<Scored>, min: real, max: real, range: real)
    requires Placed(recs) && range != 0.0
    ensures var f := GuessFor(recs, min, range);
      && Matches(recs, f)
      && f.a * min + f.b == 0.0
      && (range == max - min ==> f.a * max + f.b == 1.0)
      && 10.0 * f.stepA == f.a && 10.0 * f.stepB == Abs(f.b)
      && (min == 0.0 ==> f.b == 0.0 && f.stepB == 0.0)
  {
    Quotients(min, max, range);
  }

  lemma Quotients(min: real, max: real, range: real)
    requires range != 0.0
    ensures (1.0 / range) * min + -1.0 * min / range == 0.0
    ensures range == max - min ==> (1.0 / range) * max + -1.0 * min / range == 1.0
  {
    var a := 1.0 / range;
    assert a * range == 1.0;
    assert -1.0 * min / range == -(a * min);
    assert range == max - min ==> a * max - a * min == a * range;
  }
}
