/** Group statistics as pandas computes them, over exact reals: the mean,
    the default (`ddof = 1`) sample variance, and the z-score with its
    degenerate-variance rule. A z-score is kept as a deviation and a
    variance, so no square root is needed to compare it with a threshold. */
module Stats {
  import opened Seqs

  function Sum(xs: seq<real>): real {
    if xs == [] then 0.0 else xs[0] + Sum(xs[1..])
  }

  /** The arithmetic mean: the value the deviations of the group sum to
      zero around. */
  function Mean(xs: seq<real>): (m: real)
    requires |xs| > 0
    ensures Sum(Deviations(xs, m)) == 0.0
  {
    var n := |xs| as real;
    SumDeviations(xs, Sum(xs) / n);
    assert n * (Sum(xs) / n) == Sum(xs);
    Sum(xs) / n
  }

  function Deviations(xs: seq<real>, m: real): (ds: seq<real>) {
    seq(|xs|, i requires 0 <= i < |xs| => xs[i] - m)
  }

  function Square(x: real): real {
    x * x
  }

  function Squares(ds: seq<real>): seq<real> {
    seq(|ds|, i requires 0 <= i < |ds| => Square(ds[i]))
  }

  function SquaredDeviationSum(xs: seq<real>, m: real): real {
    Sum(Squares(Deviations(xs, m)))
  }

  /** pandas `std` with its default `ddof = 1`, squared: undefined (NaN in
      pandas) for a group of fewer than two values. */
  function SampleVariance(xs: seq<real>): (v: Option<real>)
    ensures v.Some? <==> |xs| >= 2
    ensures v.Some? ==> v.value >= 0.0 && (v.value == 0.0 <==> Constant(xs))
  {
    if |xs| < 2 then None
    else
      ConstantIffNoSpread(xs);
      Some(SquaredDeviationSum(xs, Mean(xs)) / ((|xs| - 1) as real))
  }

  predicate Constant(xs: seq<real>) {
    forall i :: 0 <= i < |xs| ==> xs[i] == xs[0]
  }

  /** A z-score. `Zero` is the value the pipeline substitutes when the
      standard deviation is undefined or zero; `Scaled(d, v)` stands for
      d / sqrt(v) with v > 0. */
  datatype ZScore = Zero | Scaled(deviation: real, variance: real)

  /** (x - mean) / std, with a zero or undefined std mapped to a zero score. */
  function ZScoreOf(x: real, xs: seq<real>): (z: ZScore)
    requires |xs| > 0
    ensures z.Scaled? <==> |xs| >= 2 && !Constant(xs)
    ensures z.Scaled? ==> z.variance > 0.0 && z.deviation == x - Mean(xs)
    ensures z.Scaled? ==> SampleVariance(xs) == Some(z.variance)
  {
    if |xs| >= 2 then ZScoreFromVariance(x, xs)
    else Zero
  }

  function ZScoreFromVariance(x: real, xs: seq<real>): ZScore
    requires |xs| > 0
  {
    match SampleVariance(xs)
    case None => Zero
    case Some(v) => if v == 0.0 then Zero else Scaled(x - Mean(xs), v)
  }

  /** z >= k, for a threshold k >= 0. */
  predicate AtLeast(z: ZScore, k: real)
    requires k >= 0.0
  {
    match z
    case Zero => 0.0 >= k
    case Scaled(d, v) => d >= 0.0 && Square(d) >= Square(k) * v
  }

  /** The pipeline's outlier rule `z >= 2`. */
  predicate IsOutlier(z: ZScore) {
    AtLeast(z, 2.0)
  }

  /** `AtLeast` is the comparison d / s >= k for the standard deviation s,
      whatever positive square root of the variance s is. */
  lemma AtLeastMatchesQuotient(d: real, v: real, s: real, k: real)
    requires v > 0.0 && s > 0.0 && Square(s) == v && k >= 0.0
    ensures AtLeast(Scaled(d, v), k) <==> d / s >= k
  {
    var q := d / s;
    assert d == q * s;
    assert Square(d) == Square(q) * v by { SquareOfProduct(q, s); }
    assert d >= 0.0 <==> q >= 0.0;
    if q >= k {
      SquareMonotone(q, k);
      MulLe(Square(k), Square(q), v);
    }
    if d >= 0.0 && Square(d) >= Square(k) * v {
      MulCancel(Square(k), Square(q), v);
      SquareRootMonotone(q, k);
    }
  }

  lemma SquareOfProduct(a: real, b: real)
    ensures Square(a * b) == Square(a) * Square(b)
  {
  }

  lemma SquareMonotone(a: real, b: real)
    requires a >= b >= 0.0
    ensures Square(a) >= Square(b)
  {
    MulLe(b, a, a);
    MulLe(b, a, b);
  }

  lemma SquareRootMonotone(a: real, b: real)
    requires a >= 0.0 && b >= 0.0 && Square(a) >= Square(b)
    ensures a >= b
  {
    if a < b {
      MulStrict(a, b);
      assert false;
    }
  }

  lemma MulStrict(a: real, b: real)
    requires 0.0 <= a < b
    ensures Square(a) < Square(b)
  {
    var aa, ab, bb := a * a, a * b, b * b;
    assert aa <= ab;
    assert ab < bb;
  }

  lemma SquarePositive(x: real)
    requires x != 0.0
    ensures Square(x) > 0.0
  {
    assert Square(0.0) == 0.0;
    if x < 0.0 {
      MulStrict(0.0, -x);
      assert Square(-x) == Square(x);
    } else {
      MulStrict(0.0, x);
    }
  }

  lemma MulLe(a: real, b: real, c: real)
    requires a <= b && c >= 0.0
    ensures a * c <= b * c
  {
    assert b * c - a * c == (b - a) * c;
  }

  lemma MulLt(a: real, b: real, c: real)
    requires a < b && c > 0.0
    ensures a * c < b * c
  {
    assert b * c - a * c == (b - a) * c;
  }

  lemma MulCancel(a: real, b: real, c: real)
    requires c > 0.0 && a * c <= b * c
    ensures a <= b
  {
    if a > b {
      MulLt(b, a, c);
      assert false;
    }
  }

  // ---------------------------------------------------------------------
  // Sums

  lemma {:induction false} SumAppend(a: seq<real>, b: seq<real>)
    ensures Sum(a + b) == Sum(a) + Sum(b)
  {
    if a != [] {
      assert (a + b)[0] == a[0];
      assert (a + b)[1..] == a[1..] + b;
      SumAppend(a[1..], b);
      assert Sum(a + b) == a[0] + Sum(a[1..] + b);
    } else {
      assert a + b == b;
    }
  }

  lemma {:induction false} SumNonNegative(xs: seq<real>)
    requires forall i :: 0 <= i < |xs| ==> xs[i] >= 0.0
    ensures Sum(xs) >= 0.0
  {
    if xs != [] {
      SumNonNegative(xs[1..]);
    }
  }

  /** A sum of non-negative terms, one of them positive, is positive. */
  lemma {:induction false} SumPositive(xs: seq<real>, j: int)
    requires forall i :: 0 <= i < |xs| ==> xs[i] >= 0.0
    requires 0 <= j < |xs| && xs[j] > 0.0
    ensures Sum(xs) > 0.0
  {
    if j == 0 {
      SumNonNegative(xs[1..]);
    } else {
      SumPositive(xs[1..], j - 1);
    }
  }

  /** A sum of zeros is zero. */
  lemma {:induction false} SumZeros(xs: seq<real>)
    requires forall i :: 0 <= i < |xs| ==> xs[i] == 0.0
    ensures Sum(xs) == 0.0
  {
    if xs != [] {
      SumZeros(xs[1..]);
    }
  }

  /** Subtracting m from every term subtracts n * m from the sum. */
  lemma {:induction false} SumDeviations(xs: seq<real>, m: real)
    ensures Sum(Deviations(xs, m)) == Sum(xs) - (|xs| as real) * m
  {
    if xs != [] {
      assert Deviations(xs, m)[1..] == Deviations(xs[1..], m);
      SumDeviations(xs[1..], m);
    }
  }

  /** A constant group sums to n times its value. */
  lemma {:induction false} SumConstant(xs: seq<real>)
    requires |xs| > 0 && Constant(xs)
    ensures Sum(xs) == (|xs| as real) * xs[0]
  {
    if |xs| > 1 {
      SumConstant(xs[1..]);
    }
  }

  function Remove(xs: seq<real>, i: int): seq<real>
    requires 0 <= i < |xs|
  {
    xs[..i] + xs[i + 1..]
  }

  lemma SumRemove(xs: seq<real>, i: int)
    requires 0 <= i < |xs|
    ensures Sum(xs) == xs[i] + Sum(Remove(xs, i))
  {
    var front, back := xs[..i], xs[i + 1..];
    var tail := [xs[i]] + back;
    assert xs == front + tail;
    assert tail[1..] == back;
    SumAppend(front, tail);
    SumAppend(front, back);
  }

  // ---------------------------------------------------------------------
  // Degenerate variance

  lemma {:induction false} SquaresNonNegative(ds: seq<real>)
    ensures forall i :: 0 <= i < |ds| ==> Squares(ds)[i] >= 0.0
    ensures Sum(Squares(ds)) >= 0.0
  {
    forall i | 0 <= i < |ds| ensures Squares(ds)[i] >= 0.0 {
      SquareNonNegative(ds[i]);
    }
    SumNonNegative(Squares(ds));
  }

  lemma MeanOfConstant(xs: seq<real>)
    requires |xs| > 0 && Constant(xs)
    ensures Mean(xs) == xs[0]
  {
    SumConstant(xs);
    var n := |xs| as real;
    assert Sum(xs) == n * xs[0];
    assert (n * xs[0]) / n == xs[0];
  }

  /** The squared deviations from the mean vanish exactly when every
      value of the group is the same. */
  lemma ConstantIffNoSpread(xs: seq<real>)
    requires |xs| > 0
    ensures SquaredDeviationSum(xs, Mean(xs)) >= 0.0
    ensures SquaredDeviationSum(xs, Mean(xs)) == 0.0 <==> Constant(xs)
  {
    var m := Mean(xs);
    var ds := Deviations(xs, m);
    var sq := Squares(ds);
    SquaresNonNegative(ds);
    if Constant(xs) {
      MeanOfConstant(xs);
      assert forall i :: 0 <= i < |sq| ==> ds[i] == 0.0;
      SumZeros(sq);
    } else {
      var j :| 0 <= j < |xs| && xs[j] != xs[0];
      var k := if xs[j] != m then j else 0;
      var dk := ds[k];
      assert dk != 0.0;
      SquarePositive(dk);
      assert sq[k] == Square(dk);
      SumPositive(sq, k);
    }
  }

  /** A group of one value, or of equal values, gets a zero score. */
  lemma DegenerateGroupScoresZero(x: real, xs: seq<real>)
    requires |xs| == 1 || (|xs| > 0 && Constant(xs))
    ensures ZScoreOf(x, xs) == Zero && !IsOutlier(ZScoreOf(x, xs))
  {
  }

  // ---------------------------------------------------------------------
  // How far a member can lie from the mean

  /** (a1 + ... + an)^2 <= n * (a1^2 + ... + an^2). */
  lemma {:induction false} CauchySchwarz(ds: seq<real>)
    ensures Square(Sum(ds)) <= (|ds| as real) * Sum(Squares(ds))
  {
    if |ds| == 1 {
      SingletonSums(ds);
    } else if |ds| > 1 {
      var rest := ds[1..];
      CauchySchwarz(rest);
      SquaresCons(ds);
      SquareSumNonNegative(rest);
      CauchySchwarzStep(Sum(ds), Sum(Squares(ds)), ds[0], Sum(rest), Sum(Squares(rest)), |rest| as real, |ds| as real);
    }
  }

  /** Peeling the first value off a non-empty series. */
  lemma SquaresCons(ds: seq<real>)
    requires ds != []
    ensures Sum(ds) == ds[0] + Sum(ds[1..])
    ensures Sum(Squares(ds)) == Square(ds[0]) + Sum(Squares(ds[1..]))
  {
    var rest := ds[1..];
    assert Squares(ds)[1..] == Squares(rest) by {
      assert forall j :: 0 <= j < |rest| ==> Squares(ds)[1..][j] == Squares(rest)[j];
    }
  }

  lemma SingletonSums(ds: seq<real>)
    requires |ds| == 1
    ensures Sum(ds) == ds[0] && Sum(Squares(ds)) == Square(ds[0])
  {
    var sq := Squares(ds);
    assert ds[1..] == [] && sq[1..] == [];
    assert sq[0] == Square(ds[0]);
  }

  lemma SquareSumNonNegative(ds: seq<real>)
    ensures Sum(Squares(ds)) >= 0.0
  {
    SquaresNonNegative(ds);
  }

  /** The inductive step: with T^2 <= k Q, (a + T)^2 <= (k + 1)(a^2 + Q)
      (`s` is a + T and `sq` is a^2 + Q). */
  lemma CauchySchwarzStep(s: real, sq: real, a: real, t: real, q: real, k: real, n: real)
    requires s == a + t && sq == Square(a) + q
    requires k >= 0.0 && q >= 0.0 && Square(t) <= k * q
    requires k == 0.0 ==> t == 0.0
    requires n == k + 1.0
    ensures Square(s) <= n * sq
  {
    StepIdentity(a, t, q, k, n);
    GapNonNegative(a, t, q, k);
  }

  /** (k + 1)(a^2 + Q) - (a + T)^2 splits into the gap k a^2 + Q - 2 a T
      and the slack k Q - T^2. */
  lemma StepIdentity(a: real, t: real, q: real, k: real, n: real)
    requires n == k + 1.0
    ensures n * (Square(a) + q) - Square(a + t) == (k * Square(a) + q - 2.0 * a * t) + (k * q - Square(t))
  {
    assert n * (Square(a) + q) == k * Square(a) + k * q + Square(a) + q;
  }

  /** k a^2 + Q - 2 a T >= 0, because k times it is (k a - T)^2 + (k Q - T^2). */
  lemma GapNonNegative(a: real, t: real, q: real, k: real)
    requires k >= 0.0 && q >= 0.0 && Square(t) <= k * q
    requires k == 0.0 ==> t == 0.0
    ensures k * Square(a) + q - 2.0 * a * t >= 0.0
  {
    var gap := k * Square(a) + q - 2.0 * a * t;
    if k > 0.0 {
      assert k * gap == Square(k * a - t) + (k * q - Square(t));
      SquareNonNegative(k * a - t);
      if gap < 0.0 {
        MulLt(gap, 0.0, k);
        assert false;
      }
    }
  }

  lemma SquareNonNegative(x: real)
    ensures Square(x) >= 0.0
  {
    if x < 0.0 { MulLe(x, 0.0, -x); } else { MulLe(0.0, x, x); }
  }

  lemma SquareOfNegation(x: real)
    ensures Square(-x) == Square(x)
  {
  }

  lemma RemoveSquares(ds: seq<real>, i: int)
    requires 0 <= i < |ds|
    ensures Remove(Squares(ds), i) == Squares(Remove(ds, i))
  {
    var a := Remove(Squares(ds), i);
    var b := Squares(Remove(ds, i));
    assert |a| == |b|;
    forall j | 0 <= j < |a| ensures a[j] == b[j] {
      if j < i {
        assert a[j] == Squares(ds)[j];
      } else {
        assert a[j] == Squares(ds)[j + 1];
      }
    }
  }

  /** Removing member i: the others sum to -d_i and their squares to S - d_i^2. */
  lemma SplitMember(ds: seq<real>, i: int)
    requires 0 <= i < |ds| && Sum(ds) == 0.0
    ensures Sum(Remove(ds, i)) == -ds[i]
    ensures Sum(Squares(ds)) == Square(ds[i]) + Sum(Squares(Remove(ds, i)))
  {
    SumRemove(ds, i);
    var sq := Squares(ds);
    SumRemove(sq, i);
    assert sq[i] == Square(ds[i]);
    RemoveSquares(ds, i);
    assert Remove(sq, i) == Squares(Remove(ds, i));
  }

  /** Samuelson's inequality for deviations that sum to zero: n * d_i^2 is
      at most (n - 1) times the sum of all squared deviations. */
  lemma CenteredBound(ds: seq<real>, i: int)
    requires 0 <= i < |ds| && Sum(ds) == 0.0
    ensures (|ds| as real) * Square(ds[i]) <= ((|ds| - 1) as real) * Sum(Squares(ds))
  {
    SplitMember(ds, i);
    CauchySchwarz(Remove(ds, i));
    RemainderBound(ds, i);
  }

  /** Samuelson's inequality: n * (x - mean)^2 <= (n - 1) * sum of squared
      deviations, for every member x of the group. */
  lemma Samuelson(xs: seq<real>, i: int)
    requires 0 <= i < |xs|
    ensures var d := xs[i] - Mean(xs);
            (|xs| as real) * Square(d) <= ((|xs| - 1) as real) * SquaredDeviationSum(xs, Mean(xs))
  {
    var ds := Deviations(xs, Mean(xs));
    CenteredBound(ds, i);
  }

  /** The last step of Samuelson's inequality: if the other members bound
      d_i^2 by (n - 1) times their squares, adding d_i^2 to both sides gives
      the bound for the whole group. */
  lemma RemainderBound(ds: seq<real>, i: int)
    requires 0 <= i < |ds|
    requires Sum(Remove(ds, i)) == -ds[i]
    requires Sum(Squares(ds)) == Square(ds[i]) + Sum(Squares(Remove(ds, i)))
    requires Square(Sum(Remove(ds, i))) <= (|Remove(ds, i)| as real) * Sum(Squares(Remove(ds, i)))
    ensures (|ds| as real) * Square(ds[i]) <= ((|ds| - 1) as real) * Sum(Squares(ds))
  {
    var n, k := |ds| as real, (|ds| - 1) as real;
    assert |Remove(ds, i)| == |ds| - 1;
    SquareOfNegation(ds[i]);
    ScaleSucc(n, k, Square(ds[i]));
    Distribute(k, Sum(Squares(ds)), Square(ds[i]), Sum(Squares(Remove(ds, i))));
  }

  lemma ScaleSucc(n: real, k: real, x: real)
    requires n == k + 1.0
    ensures n * x == k * x + x
  {
  }

  lemma Distribute(k: real, s: real, x: real, y: real)
    requires s == x + y
    ensures k * s == k * x + k * y
  {
  }

  /** With the sample variance, a member's z-score is at most (n-1)/sqrt(n),
      which is below 2 for n <= 5: a group needs at least six values for the
      `z >= 2` rule to flag anything, and a flagged value lies above the
      group mean. */
  lemma OutlierNeedsSixValues(x: real, xs: seq<real>)
    requires x in xs
    ensures IsOutlier(ZScoreOf(x, xs)) ==> |xs| >= 6 && x > Mean(xs)
  {
    if IsOutlier(ZScoreOf(x, xs)) {
      var i :| 0 <= i < |xs| && xs[i] == x;
      var m := Mean(xs);
      var d := xs[i] - m;
      var s := SquaredDeviationSum(xs, m);
      var n := |xs| as real;
      var v := s / (n - 1.0);
      assert ZScoreOf(xs[i], xs) == Scaled(d, v);
      assert v > 0.0 && d >= 0.0 && Square(d) >= 4.0 * v;
      Samuelson(xs, i);
      assert s == (n - 1.0) * v;
      SampleBound(|xs|, Square(d), v);
      assert Square(0.0) == 0.0;
    }
  }

  /** n D <= (n-1)^2 v together with D >= 4 v > 0 forces n >= 6. */
  lemma SampleBound(n: int, dd: real, v: real)
    requires n >= 2 && v > 0.0
    requires (n as real) * dd <= ((n - 1) as real) * (((n - 1) as real) * v)
    requires dd >= 4.0 * v
    ensures n >= 6
  {
    if n == 2 {
      assert false;
    } else if n == 3 {
      assert false;
    } else if n == 4 {
      assert false;
    } else if n == 5 {
      assert false;
    }
  }

  // ---------------------------------------------------------------------
  // Order independence

  /** Matching the first value of xs in a reordering ys leaves reorderings. */
  lemma PickMatching(xs: seq<real>, ys: seq<real>) returns (k: int)
    requires xs != [] && multiset(xs) == multiset(ys)
    ensures 0 <= k < |ys| && ys[k] == xs[0]
    ensures multiset(xs[1..]) == multiset(Remove(ys, k))
  {
    assert xs[0] in multiset(ys);
    k :| 0 <= k < |ys| && ys[k] == xs[0];
    assert xs == [xs[0]] + xs[1..];
    assert ys == ys[..k] + [ys[k]] + ys[k + 1..];
    assert multiset(xs) == multiset{xs[0]} + multiset(xs[1..]);
    assert multiset(ys) == multiset(ys[..k]) + multiset{ys[k]} + multiset(ys[k + 1..]);
    assert multiset(Remove(ys, k)) == multiset(ys[..k]) + multiset(ys[k + 1..]);
    assert multiset(xs[1..]) == multiset(xs) - multiset{xs[0]};
  }

  /** The sum does not depend on the order of the terms. */
  lemma {:induction false} SumPermutation(xs: seq<real>, ys: seq<real>)
    requires multiset(xs) == multiset(ys)
    ensures Sum(xs) == Sum(ys)
    decreases |xs|
  {
    if xs == [] {
      assert |ys| == |multiset(ys)| == 0;
    } else {
      var k := PickMatching(xs, ys);
      SumPermutation(xs[1..], Remove(ys, k));
      SumRemove(ys, k);
    }
  }

  /** Neither does the sum of squared deviations from a fixed centre. */
  lemma {:induction false} SquaredDeviationPermutation(xs: seq<real>, ys: seq<real>, m: real)
    requires multiset(xs) == multiset(ys)
    ensures SquaredDeviationSum(xs, m) == SquaredDeviationSum(ys, m)
    decreases |xs|
  {
    if xs == [] {
      assert |ys| == |multiset(ys)| == 0;
    } else {
      var k := PickMatching(xs, ys);
      SquaredDeviationPermutation(xs[1..], Remove(ys, k), m);
      var sx, sy := Squares(Deviations(xs, m)), Squares(Deviations(ys, m));
      assert sx[1..] == Squares(Deviations(xs[1..], m));
      assert Remove(sy, k) == Squares(Deviations(Remove(ys, k), m));
      SumRemove(sy, k);
    }
  }

  /** Mean, sample variance and z-score of a group do not depend on the
      order in which its rows appear. */
  lemma ZScorePermutation(x: real, xs: seq<real>, ys: seq<real>)
    requires |xs| > 0 && multiset(xs) == multiset(ys)
    ensures |ys| == |xs| && Mean(xs) == Mean(ys)
    ensures SampleVariance(xs) == SampleVariance(ys)
    ensures ZScoreOf(x, xs) == ZScoreOf(x, ys)
  {
    assert |xs| == |multiset(xs)| == |multiset(ys)| == |ys|;
    SumPermutation(xs, ys);
    SquaredDeviationPermutation(xs, ys, Mean(xs));
  }
}
