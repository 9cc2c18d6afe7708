/** The search for the factors as the program runs it, in floating-point values: on numbers
    it is the search over reals, and a range of zero has no numbers to start from. */
module ScoreSearch {
  import opened FloatNumbers
  import opened ScoreFit

  // ----- The sum of squares and the rounds ---------------------------------------

  function Distance(r: Scored, a: Ext, b: Ext): Ext
    requires r.position > 0
  {
    Sub(Num(1.0 / r.position as real), Add(Mul(Num(r.score), a), b))
  }

  function SquareSumOf(recs: seq<Scored>, a: Ext, b: Ext): Ext
    requires Placed(recs)
  {
    if recs == [] then Num(0.0)
    else
      var d := Distance(recs[|recs| - 1], a, b);
      Add(SquareSumOf(recs[..|recs| - 1], a, b), Mul(d, d))
  }

  /** `squaresum`. */
  method SumSquares(recs: seq<Scored>, a: Ext, b: Ext) returns (sum: Ext)
    requires Placed(recs)
    ensures sum == SquareSumOf(recs, a, b)
  {
    sum := Num(0.0);
    var i := 0;
    while i < |recs|
      invariant 0 <= i <= |recs| && sum == SquareSumOf(recs[..i], a, b)
    {
      var target := Num(1.0 / recs[i].position as real);
      var normscore := Add(Mul(Num(recs[i].score), a), b);
      var diff := Sub(target, normscore);
      assert recs[..i + 1][..i] == recs[..i];
      sum := Add(sum, Mul(diff, diff));
      i := i + 1;
    }
    assert recs[..i] == recs;
  }

  lemma MulOfNumbers(x: real, y: real)
    ensures Mul(Num(x), Num(y)) == Num(Times(x, y))
  {
  }

  lemma DistanceOfNumbers(r: Scored, a: real, b: real)
    requires r.position > 0
    ensures Distance(r, Num(a), Num(b)) == Num(Off(r, a, b))
  {
  }

  lemma {:induction false} SumOfNumbers(recs: seq<Scored>, a: real, b: real)
    requires Placed(recs)
    ensures SquareSumOf(recs, Num(a), Num(b)) == Num(SquareSum(recs, a, b))
  {
    hide Distance, Off, Times, Mul;
    if recs != [] {
      var r := recs[|recs| - 1];
      SumOfNumbers(recs[..|recs| - 1], a, b);
      DistanceOfNumbers(r, a, b);
      MulOfNumbers(Off(r, a, b), Off(r, a, b));
    }
  }

  /** Factors, step sizes and sum of squares. */
  datatype FitOf = FitOf(a: Ext, b: Ext, stepA: Ext, stepB: Ext, chi: Ext)

  function OfNumbers(f: Fit): FitOf
  {
    FitOf(Num(f.a), Num(f.b), Num(f.stepA), Num(f.stepB), Num(f.chi))
  }

  predicate LeastOf(x: Ext, p: Ext, q: Ext, r: Ext, s: Ext)
  {
    Less(x, p) && Less(x, q) && Less(x, r) && Less(x, s)
  }

  function Grown(step: Ext): Ext
  {
    Mul(step, Num(1.0 + STEP_CHANGE))
  }

  function Shrunk(step: Ext): Ext
  {
    Mul(step, Num(1.0 - STEP_CHANGE))
  }

  /** By how much the mean of two sums is off a third. */
  function MeanOff(x: Ext, y: Ext, chi: Ext): Ext
  {
    Magnitude(Sub(Mul(Num(0.5), Add(x, y)), chi))
  }

  function RoundOf(recs: seq<Scored>, f: FitOf): FitOf
    requires Placed(recs)
  {
    ChooseOf(f,
             SquareSumOf(recs, Add(f.a, f.stepA), f.b), SquareSumOf(recs, Sub(f.a, f.stepA), f.b),
             SquareSumOf(recs, f.a, Add(f.b, f.stepB)), SquareSumOf(recs, f.a, Sub(f.b, f.stepB)))
  }

  /** What a round makes of the sums at the four neighbours. */
  function ChooseOf(f: FitOf, aplus: Ext, aminus: Ext, bplus: Ext, bminus: Ext): FitOf
  {
    if LeastOf(aplus, f.chi, aminus, bplus, bminus) then
      f.(a := Add(f.a, f.stepA), chi := aplus, stepA := Grown(f.stepA))
    else if LeastOf(aminus, f.chi, aplus, bplus, bminus) then
      f.(a := Sub(f.a, f.stepA), chi := aminus, stepA := Grown(f.stepA))
    else if LeastOf(bplus, f.chi, aplus, aminus, bminus) then
      f.(b := Add(f.b, f.stepB), chi := bplus, stepB := Grown(f.stepB))
    else if LeastOf(bminus, f.chi, aplus, bplus, aminus) then
      f.(b := Sub(f.b, f.stepB), chi := bminus, stepB := Grown(f.stepB))
    else if Less(MeanOff(bplus, bminus, f.chi), MeanOff(aplus, aminus, f.chi)) then
      f.(stepA := Shrunk(f.stepA))
    else
      f.(stepB := Shrunk(f.stepB))
  }

  predicate SettledOf(f: FitOf)
  {
    Less(Mul(Magnitude(f.stepA), Num(ENOUGH)), Magnitude(f.a)) && Less(Mul(Magnitude(f.stepB), Num(ENOUGH)), Magnitude(f.b))
  }

  function RoundsOf(recs: seq<Scored>, f: FitOf, n: nat): FitOf
    requires Placed(recs)
  {
    if n == 0 then f else RoundOf(recs, RoundsOf(recs, f, n - 1))
  }

  // ----- On numbers --------------------------------------------------------------

  lemma LeastOfNumbers(x: real, p: real, q: real, r: real, s: real)
    ensures LeastOf(Num(x), Num(p), Num(q), Num(r), Num(s)) <==> Least(x, p, q, r, s)
  {
  }

  lemma StepOfNumbers(step: real)
    ensures Grown(Num(step)) == Num(step * (1.0 + STEP_CHANGE))
    ensures Shrunk(Num(step)) == Num(step * (1.0 - STEP_CHANGE))
  {
  }

  lemma MeanOfNumbers(x: real, y: real, chi: real)
    ensures MeanOff(Num(x), Num(y), Num(chi)) == Num(ScoreFit.Abs(0.5 * (x + y) - chi))
  {
  }

  lemma ChooseOfNumbers(f: Fit, aplus: real, aminus: real, bplus: real, bminus: real)
    ensures ChooseOf(OfNumbers(f), Num(aplus), Num(aminus), Num(bplus), Num(bminus))
      == OfNumbers(Choose(f, aplus, aminus, bplus, bminus))
  {
    hide Grown, Shrunk, MeanOff, LeastOf, Least, Mul, Magnitude, ScoreFit.Abs;
    LeastOfNumbers(aplus, f.chi, aminus, bplus, bminus);
    LeastOfNumbers(aminus, f.chi, aplus, bplus, bminus);
    LeastOfNumbers(bplus, f.chi, aplus, aminus, bminus);
    LeastOfNumbers(bminus, f.chi, aplus, bplus, aminus);
    MeanOfNumbers(aplus, aminus, f.chi);
    MeanOfNumbers(bplus, bminus, f.chi);
    StepOfNumbers(f.stepA);
    StepOfNumbers(f.stepB);
  }

  /** On numbers a round is the round over reals. */
  lemma RoundOfNumbers(recs: seq<Scored>, f: Fit)
    requires Placed(recs)
    ensures RoundOf(recs, OfNumbers(f)) == OfNumbers(Round(recs, f))
    ensures SettledOf(OfNumbers(f)) <==> Settled(f)
  {
    hide SquareSum, SquareSumOf, Choose, ChooseOf;
    SumOfNumbers(recs, f.a + f.stepA, f.b);
    SumOfNumbers(recs, f.a - f.stepA, f.b);
    SumOfNumbers(recs, f.a, f.b + f.stepB);
    SumOfNumbers(recs, f.a, f.b - f.stepB);
    assert f.a + -f.stepA == f.a - f.stepA && f.b + -f.stepB == f.b - f.stepB;
    ChooseOfNumbers(f, SquareSum(recs, f.a + f.stepA, f.b), SquareSum(recs, f.a - f.stepA, f.b),
                    SquareSum(recs, f.a, f.b + f.stepB), SquareSum(recs, f.a, f.b - f.stepB));
  }

  lemma {:induction false} RoundsOfNumbers(recs: seq<Scored>, f: Fit, n: nat)
    requires Placed(recs)
    ensures RoundsOf(recs, OfNumbers(f), n) == OfNumbers(Rounds(recs, f, n))
    ensures SettledOf(RoundsOf(recs, OfNumbers(f), n)) <==> Settled(Rounds(recs, f, n))
  {
    hide RoundOf, Round, SettledOf, Settled;
    if n > 0 {
      RoundsOfNumbers(recs, f, n - 1);
      RoundOfNumbers(recs, Rounds(recs, f, n - 1));
    }
    RoundOfNumbers(recs, Rounds(recs, f, n));
  }

  // ----- Without numbers ---------------------------------------------------------

  /** Some record has the score `x`. */
  ghost predicate Attained(recs: seq<Scored>, x: real)
  {
    exists i :: 0 <= i < |recs| && recs[i].score == x
  }

  /** A score of zero times what is no number makes the sum not a number. */
  lemma {:induction false} SumIsNaN(recs: seq<Scored>, a: Ext, b: Ext)
    requires Placed(recs) && Attained(recs, 0.0) && !a.Num?
    ensures SquareSumOf(recs, a, b) == NaN
  {
    var n := |recs| - 1;
    if recs[n].score != 0.0 {
      var i :| 0 <= i < |recs| && recs[i].score == 0.0;
      assert recs[..n][i].score == 0.0;
      SumIsNaN(recs[..n], a, b);
    }
  }

  /** The factor `a` and its step are infinite, and the sum is not a number. */
  predicate Lost(f: FitOf)
  {
    f.a == f.stepA == Inf(true) && f.chi == NaN
  }

  /** A search that starts so never moves and never settles. */
  lemma {:induction false} LostStays(recs: seq<Scored>, f: FitOf, n: nat)
    requires Placed(recs) && Attained(recs, 0.0) && Lost(f)
    ensures var g := RoundsOf(recs, f, n); Lost(g) && g.b == f.b && !SettledOf(g)
  {
    if n > 0 {
      LostStays(recs, f, n - 1);
      var g := RoundsOf(recs, f, n - 1);
      SumIsNaN(recs, Add(g.a, g.stepA), g.b);
      SumIsNaN(recs, Sub(g.a, g.stepA), g.b);
      SumIsNaN(recs, g.a, Add(g.b, g.stepB));
      SumIsNaN(recs, g.a, Sub(g.b, g.stepB));
    }
  }

  // ----- The guess ---------------------------------------------------------------

  function GuessOf(recs: seq<Scored>, min: real, range: real): FitOf
    requires Placed(recs)
  {
    var a, b := Div(Num(1.0), range), Div(Num(-1.0 * min), range);
    FitOf(a, b, Div(a, 10.0), Div(Magnitude(b), 10.0), SquareSumOf(recs, a, b))
  }

  /** A range that is not zero gives the guess over reals, and a range of zero a search that
      is lost from the start. */
  lemma GuessOfNumbers(recs: seq<Scored>, min: real, range: real)
    requires Placed(recs)
    ensures range != 0.0 ==> GuessOf(recs, min, range) == OfNumbers(GuessFor(recs, min, range))
    ensures range == 0.0 && Attained(recs, 0.0) ==> Lost(GuessOf(recs, min, range))
  {
    if range != 0.0 {
      SumOfNumbers(recs, 1.0 / range, -1.0 * min / range);
    } else if Attained(recs, 0.0) {
      SumIsNaN(recs, Div(Num(1.0), range), Div(Num(-1.0 * min), range));
    }
  }

  /** From a range that is not zero the search is the one over reals. */
  lemma SearchOfNumbers(recs: seq<Scored>, min: real, max: real, range: real, rounds: nat)
    requires Placed(recs) && range != 0.0
    ensures var start, f := GuessFor(recs, min, range), Rounds(recs, GuessFor(recs, min, range), rounds);
      && RoundsOf(recs, GuessOf(recs, min, range), rounds) == OfNumbers(f)
      && (forall n: nat :: SettledOf(RoundsOf(recs, GuessOf(recs, min, range), n))
            <==> Settled(Rounds(recs, start, n)))
      && SquareSum(recs, f.a, f.b) <= SquareSum(recs, start.a, start.b)
      && (min == 0.0 ==> f.b == 0.0 && !Settled(f))
      && start.a * min + start.b == 0.0
      && (range == max - min ==> start.a * max + start.b == 1.0)
  {
    hide GuessFor, GuessOf, Rounds, RoundsOf, SquareSum, SquareSumOf, Settled, SettledOf;
    var start := GuessFor(recs, min, range);
    GuessOfNumbers(recs, min, range);
    GuessMeaning(recs, min, max, range);
    RoundsImprove(recs, start, rounds);
    forall n: nat ensures SettledOf(RoundsOf(recs, GuessOf(recs, min, range), n)) <==> Settled(Rounds(recs, start, n)) {
      RoundsOfNumbers(recs, start, n);
    }
    RoundsOfNumbers(recs, start, rounds);
    if min == 0.0 { ZeroStays(recs, start, rounds); }
  }

  lemma SearchIsLost(recs: seq<Scored>, min: real, rounds: nat)
    requires Placed(recs) && Attained(recs, 0.0)
    ensures var g := RoundsOf(recs, GuessOf(recs, min, 0.0), rounds);
      g.a == Inf(true) && !g.b.Num? && !SettledOf(g)
  {
    GuessOfNumbers(recs, min, 0.0);
    LostStays(recs, GuessOf(recs, min, 0.0), rounds);
  }

  method MakeGuess(recs: seq<Scored>, min: real, range: real) returns (f: FitOf)
    requires Placed(recs)
    ensures f == GuessOf(recs, min, range)
  {
    var a, b := Div(Num(1.0), range), Div(Num(-1.0 * min), range);
    var chi := SumSquares(recs, a, b);
    f := FitOf(a, b, Div(a, 10.0), Div(Magnitude(b), 10.0), chi);
  }

  lemma AttainedMore(r: Scored, recs: seq<Scored>, x: real)
    ensures Attained([r] + recs, r.score)
    ensures Attained(recs, x) ==> Attained([r] + recs, x)
  {
    assert ([r] + recs)[0] == r;
    if Attained(recs, x) {
      var i :| 0 <= i < |recs| && recs[i].score == x;
      assert ([r] + recs)[i + 1] == recs[i];
    }
  }

  // ----- The records of one target -----------------------------------------------

  /** The records of one target, with the least and the greatest of their scores. */
  class NormClient {
    var records: seq<Scored>
    var min: real
    var max: real
    var a: Ext
    var b: Ext

    ghost predicate Valid()
      reads this
    {
      && Placed(records)
      && (forall i :: 0 <= i < |records| ==> min <= records[i].score <= max)
      && (records != [] ==> Attained(records, min) && Attained(records, max))
    }

    constructor ()
      ensures Valid() && records == [] && a == Num(1.0) && b == Num(0.0)
    {
      records := [];
      min, max, a, b := 0.0, 0.0, Num(1.0), Num(0.0);
    }

    /** The part of `setup_norm_record` that takes one record's score. */
    method Add(r: Scored)
      requires Valid() && r.position > 0
      modifies this
      ensures Valid() && records == [r] + old(records)
    {
      hide Attained;
      AttainedMore(r, records, min);
      AttainedMore(r, records, max);
      records := [r] + records;
      assert forall i :: 0 < i < |records| ==> records[i] == old(records)[i - 1];
      if |records| == 1 {
        max := r.score;
        min := r.score;
      } else {
        if r.score > max { max := r.score; }
        if r.score < min { min := r.score; }
      }
    }

    ghost function Range(): real
      reads this
    {
      if max - min < 0.000001 then max else max - min
    }

    ghost function Guess(): Fit
      requires Placed(records) && Range() != 0.0
      reads this
    {
      GuessFor(records, min, Range())
    }

    /** The fitting part of `normalize_scores`.  A range of zero makes the factors infinite
        or not numbers, and the search runs all its rounds without moving. */
    method Normalize() returns (rounds: nat)
      requires Valid()
      modifies this`a, this`b
      ensures 1 <= rounds <= MAX_ITERATIONS
      ensures Range() != 0.0 ==>
        var f := Rounds(records, Guess(), rounds);
        && a == Num(f.a) && b == Num(f.b)
        && (rounds < 1000 ==> Settled(f))
        && (forall n :: 1 <= n < rounds ==> !Settled(Rounds(records, Guess(), n)))
        && SquareSum(records, f.a, f.b) <= SquareSum(records, Guess().a, Guess().b)
        && (min == 0.0 ==> f.b == 0.0 && rounds == 1000)
        && Guess().a * min + Guess().b == 0.0
        && (max - min >= 0.000001 ==> Guess().a * max + Guess().b == 1.0)
      ensures Range() == 0.0 && records != [] ==> a == Inf(true) && !b.Num? && rounds == 1000
    {
      hide GuessFor, GuessOf, Rounds, RoundsOf, SquareSum, SquareSumOf, Settled, SettledOf;
      var range := max - min;
      if range < 0.000001 { range := max; }
      var start := MakeGuess(records, min, range);
      a, b, rounds := Search(records, start);
      if range != 0.0 {
        SearchOfNumbers(records, min, max, range, rounds);
      } else if records != [] {
        SearchIsLost(records, min, rounds);
      }
    }

    /** The range is zero exactly when the best score is zero and no other is as much as a
        millionth below it. */
    lemma ZeroRangeExactly()
      requires Valid() && records != []
      ensures Range() == 0.0 <==>
        && Attained(records, 0.0)
        && forall i :: 0 <= i < |records| ==> -0.000001 < records[i].score <= 0.0
    {
      var i :| 0 <= i < |records| && records[i].score == max;
      var j :| 0 <= j < |records| && records[j].score == min;
    }
  }

  /** The search loop. */
  method Search(recs: seq<Scored>, start: FitOf) returns (a: Ext, b: Ext, rounds: nat)
    requires Placed(recs)
    ensures 1 <= rounds <= MAX_ITERATIONS
    ensures a == RoundsOf(recs, start, rounds).a && b == RoundsOf(recs, start, rounds).b
    ensures rounds < MAX_ITERATIONS ==> SettledOf(RoundsOf(recs, start, rounds))
    ensures forall n :: 1 <= n < rounds ==> !SettledOf(RoundsOf(recs, start, n))
  {
    hide RoundOf;
    var f := start;
    rounds := 0;
    var settled := false;
    while rounds < MAX_ITERATIONS && !settled
      invariant 0 <= rounds <= MAX_ITERATIONS
      invariant f == RoundsOf(recs, start, rounds)
      invariant forall n :: 1 <= n < rounds ==> !SettledOf(RoundsOf(recs, start, n))
      invariant rounds > 0 ==> (settled <==> SettledOf(RoundsOf(recs, start, rounds)))
      invariant settled ==> rounds > 0
    {
      f := OneRound(recs, f);
      rounds := rounds + 1;
      settled := Less(Mul(Magnitude(f.stepA), Num(ENOUGH)), Magnitude(f.a)) && Less(Mul(Magnitude(f.stepB), Num(ENOUGH)), Magnitude(f.b));
    }
    a, b := f.a, f.b;
  }

  /** The body of the search loop. */
  method OneRound(recs: seq<Scored>, f: FitOf) returns (g: FitOf)
    requires Placed(recs)
    ensures g == RoundOf(recs, f)
  {
    hide SquareSumOf, Add, Sub, Mul, Magnitude, Less;
    var a, b, stepA, stepB, chi := f.a, f.b, f.stepA, f.stepB, f.chi;
    var aplus := SumSquares(recs, Add(a, stepA), b);
    var aminus := SumSquares(recs, Sub(a, stepA), b);
    var bplus := SumSquares(recs, a, Add(b, stepB));
    var bminus := SumSquares(recs, a, Sub(b, stepB));
    var prevchi := chi;
    if Less(aplus, chi) && Less(aplus, aminus) && Less(aplus, bplus) && Less(aplus, bminus) {
      a, chi, stepA := Add(a, stepA), aplus, Mul(stepA, Num(1.0 + STEP_CHANGE));
    } else if Less(aminus, chi) && Less(aminus, aplus) && Less(aminus, bplus) && Less(aminus, bminus) {
      a, chi, stepA := Sub(a, stepA), aminus, Mul(stepA, Num(1.0 + STEP_CHANGE));
    } else if Less(bplus, chi) && Less(bplus, aplus) && Less(bplus, aminus) && Less(bplus, bminus) {
      b, chi, stepB := Add(b, stepB), bplus, Mul(stepB, Num(1.0 + STEP_CHANGE));
    } else if Less(bminus, chi) && Less(bminus, aplus) && Less(bminus, bplus) && Less(bminus, aminus) {
      b, chi, stepB := Sub(b, stepB), bminus, Mul(stepB, Num(1.0 + STEP_CHANGE));
    } else {
      var adif := Sub(Mul(Num(0.5), Add(aplus, aminus)), prevchi);
      var bdif := Sub(Mul(Num(0.5), Add(bplus, bminus)), prevchi);
      if Less(Magnitude(bdif), Magnitude(adif)) {
        stepA := Mul(stepA, Num(1.0 - STEP_CHANGE));
      } else {
        stepB := Mul(stepB, Num(1.0 - STEP_CHANGE));
      }
    }
    g := FitOf(a, b, stepA, stepB, chi);
  }
}
