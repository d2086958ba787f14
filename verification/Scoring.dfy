/**
 The streaming softmax of a row of logits, over exact reals: src/scoring.cc:88-145. The exponential and the logarithm
 are parameters known by their laws.
 */
module Scoring {
  import opened Wrappers
  import opened Sequences

  /** Minus infinity, a finite value, or what is refused: plus infinity and not-a-number. */
  datatype Logit = NegInf | Finite(value: real) | Invalid

  /** A probability of zero has no finite logarithm. */
  datatype TokenScore = TokenScore(probability: real, logProbability: Option<real>, entropy: Option<real>)

  datatype Functions = Functions(exp: real -> real, ln: real -> real)

  /** exp turns sums into products. */
  predicate Adds(f: Functions, a: real, b: real) {
    f.exp(a + b) == f.exp(a) * f.exp(b)
  }

  predicate Grows(f: Functions, a: real) {
    f.exp(a) > 0.0 && (a > 0.0 ==> f.exp(a) > 1.0)
  }

  /** ln undoes exp. */
  predicate Undoes(f: Functions, a: real) {
    f.ln(f.exp(a)) == a && (a > 0.0 ==> f.exp(f.ln(a)) == a)
  }

  ghost predicate Law(f: Functions) {
    && (forall a, b :: Adds(f, a, b))
    && (forall a :: Grows(f, a))
    && (forall a :: Undoes(f, a))
  }

  // ----- What the score means

  /** The finite logits among the first n. */
  function Finites(logits: seq<Logit>, n: nat): seq<real>
    requires n <= |logits|
  {
    if n == 0 then []
    else Finites(logits, n - 1) + if logits[n - 1].Finite? then [logits[n - 1].value] else []
  }

  /** The sum of exp(x - m). */
  function SumExp(f: Functions, xs: seq<real>, m: real): real {
    if xs == [] then 0.0 else SumExp(f, xs[..|xs| - 1], m) + f.exp(xs[|xs| - 1] - m)
  }

  /** The sum of (x - m) exp(x - m). */
  function SumShifted(f: Functions, xs: seq<real>, m: real): real {
    if xs == [] then 0.0
    else SumShifted(f, xs[..|xs| - 1], m) + (xs[|xs| - 1] - m) * f.exp(xs[|xs| - 1] - m)
  }

  /** The probability of a logit among the finite ones. */
  function Softmax(f: Functions, xs: seq<real>, x: real): real
    requires SumExp(f, xs, 0.0) != 0.0
  {
    f.exp(x) / SumExp(f, xs, 0.0)
  }

  /** The entropy in nats of the first n of the probabilities: the sum of -p ln p. */
  function EntropyUpTo(f: Functions, xs: seq<real>, n: nat): real
    requires n <= |xs| && SumExp(f, xs, 0.0) != 0.0
  {
    if n == 0 then 0.0
    else
      var p := Softmax(f, xs, xs[n - 1]);
      EntropyUpTo(f, xs, n - 1) - p * f.ln(p)
  }

  function Entropy(f: Functions, xs: seq<real>): real
    requires SumExp(f, xs, 0.0) != 0.0
  {
    EntropyUpTo(f, xs, |xs|)
  }

  // ----- Sums and shifts

  lemma ExpZero(f: Functions, zero: real)
    requires Law(f) && zero == 0.0
    ensures f.exp(zero) == 1.0
  {
    assert Adds(f, zero, zero) && Grows(f, zero);
    assert zero + zero == zero;
    var e, twice := f.exp(zero), f.exp(zero + zero);
    assert twice == e && twice == e * e;
    Cancel(e);
  }

  lemma Cancel(a: real)
    requires a > 0.0 && a == a * a
    ensures a == 1.0
  {
    assert a * (a - 1.0) == 0.0;
  }

  lemma {:induction false} SumPositive(f: Functions, xs: seq<real>, m: real)
    requires Law(f)
    ensures SumExp(f, xs, m) >= 0.0 && (xs != [] ==> SumExp(f, xs, m) > 0.0)
    ensures forall i :: 0 <= i < |xs| ==> f.exp(xs[i] - m) <= SumExp(f, xs, m)
  {
    if xs != [] {
      var n := |xs| - 1;
      SumPositive(f, xs[..n], m);
      assert Grows(f, xs[n] - m);
      forall i | 0 <= i < |xs| ensures f.exp(xs[i] - m) <= SumExp(f, xs, m) {
        if i < n {
          assert xs[..n][i] == xs[i];
        }
      }
    }
  }

  /** Moving the reference point scales the sum. */
  lemma {:induction false} ShiftSum(f: Functions, xs: seq<real>, m: real, next: real)
    requires Law(f)
    ensures SumExp(f, xs, next) == f.exp(m - next) * SumExp(f, xs, m)
  {
    if xs != [] {
      var n := |xs| - 1;
      ShiftSum(f, xs[..n], m, next);
      var x, scale := xs[n], f.exp(m - next);
      assert x - next == (x - m) + (m - next);
      assert Adds(f, x - m, m - next);
      Distribute(scale, SumExp(f, xs[..n], m), f.exp(x - m));
    }
  }

  lemma Distribute(s: real, a: real, b: real)
    ensures s * (a + b) == s * a + b * s
  {
  }

  /** It scales the weighted sum too, which also takes up the distance moved. */
  lemma {:induction false} ShiftWeighted(f: Functions, xs: seq<real>, m: real, next: real)
    requires Law(f)
    ensures SumShifted(f, xs, next)
            == f.exp(m - next) * (SumShifted(f, xs, m) + (m - next) * SumExp(f, xs, m))
  {
    if xs != [] {
      var n := |xs| - 1;
      ShiftWeighted(f, xs[..n], m, next);
      var x, scale := xs[n], f.exp(m - next);
      assert x - next == (x - m) + (m - next);
      assert Adds(f, x - m, m - next);
      WeightedTerm(
        scale, m - next, SumShifted(f, xs[..n], m), SumExp(f, xs[..n], m), x - m, f.exp(x - m),
        SumShifted(f, xs, m), SumExp(f, xs, m), SumShifted(f, xs[..n], next), x - next, f.exp(x - next));
    }
  }

  /** One more term of both sums, before and after moving the reference. */
  lemma WeightedTerm(
    scale: real, moved: real, w: real, d: real, shift: real, e: real,
    w1: real, d1: real, wNext: real, shiftNext: real, eNext: real)
    requires w1 == w + shift * e && d1 == d + e
    requires wNext == scale * (w + moved * d) && shiftNext == shift + moved && eNext == e * scale
    ensures wNext + shiftNext * eNext == scale * (w1 + moved * d1)
  {
  }

  // ----- The single pass

  /** What the loop keeps about the finite logits read so far. */
  ghost predicate Streamed(
    f: Functions, xs: seq<real>, maximum: real, denominator: real, weighted: real, computeEntropy: bool)
  {
    if xs == [] then denominator == 0.0 && weighted == 0.0
    else
      && maximum in xs && (forall i :: 0 <= i < |xs| ==> xs[i] <= maximum)
      && denominator == SumExp(f, xs, maximum) && denominator >= 1.0
      && (computeEntropy ==> weighted == SumShifted(f, xs, maximum))
  }

  lemma {:induction false} AtLeastOne(f: Functions, xs: seq<real>, m: real)
    requires Law(f) && m in xs
    ensures SumExp(f, xs, m) >= 1.0
  {
    SumPositive(f, xs, m);
    var i :| 0 <= i < |xs| && xs[i] == m;
    ExpZero(f, xs[i] - m);
  }

  lemma StreamFirst(f: Functions, x: real, computeEntropy: bool)
    requires Law(f)
    ensures Streamed(f, [x], x, 1.0, 0.0, computeEntropy)
  {
    ExpZero(f, x - x);
    assert [x][..0] == [];
    assert SumExp(f, [x], x) == f.exp(x - x);
  }

  lemma StreamMaximum(
    f: Functions, xs: seq<real>, maximum: real, denominator: real, weighted: real, computeEntropy: bool, x: real)
    requires Law(f) && xs != [] && Streamed(f, xs, maximum, denominator, weighted, computeEntropy) && x > maximum
    ensures var shift := maximum - x;
            var scale := f.exp(shift);
            Streamed(f, xs + [x], x, scale * denominator + 1.0,
                     if computeEntropy then scale * (weighted + shift * denominator) else weighted, computeEntropy)
  {
    var next := xs + [x];
    assert next[..|xs|] == xs && next[|xs|] == x;
    ExpZero(f, x - x);
    ShiftSum(f, xs, maximum, x);
    ShiftWeighted(f, xs, maximum, x);
    AtLeastOne(f, next, x);
  }

  lemma StreamOther(
    f: Functions, xs: seq<real>, maximum: real, denominator: real, weighted: real, computeEntropy: bool, x: real)
    requires Law(f) && xs != [] && Streamed(f, xs, maximum, denominator, weighted, computeEntropy) && x <= maximum
    ensures var shift := x - maximum;
            var weight := f.exp(shift);
            Streamed(f, xs + [x], maximum, denominator + weight,
                     if computeEntropy then weighted + shift * weight else weighted, computeEntropy)
  {
    var next := xs + [x];
    assert next[..|xs|] == xs && next[|xs|] == x;
    assert maximum in next;
    AtLeastOne(f, next, maximum);
  }

  // ----- The two-pass formulas

  lemma SoftmaxShifted(f: Functions, xs: seq<real>, m: real, x: real)
    requires Law(f) && xs != []
    ensures SumExp(f, xs, 0.0) > 0.0 && SumExp(f, xs, m) > 0.0
    ensures Softmax(f, xs, x) == f.exp(x - m) / SumExp(f, xs, m)
  {
    SumPositive(f, xs, 0.0);
    SumPositive(f, xs, m);
    ShiftSum(f, xs, m, 0.0);
    assert x == (x - m) + m && m - 0.0 == m;
    assert Adds(f, x - m, m) && Grows(f, m);
    Reduce(f.exp(x - m), SumExp(f, xs, m), f.exp(m));
  }

  lemma Reduce(a: real, d: real, k: real)
    requires d > 0.0 && k > 0.0
    ensures k * d > 0.0 && (a * k) / (k * d) == a / d
  {
    var q := a / d;
    assert q * d == a;
    assert q * (k * d) == a * k;
  }

  /** The logarithm of a probability. */
  lemma LogSoftmax(f: Functions, xs: seq<real>, m: real, x: real)
    requires Law(f) && xs != []
    ensures SumExp(f, xs, 0.0) > 0.0 && SumExp(f, xs, m) > 0.0
    ensures f.ln(Softmax(f, xs, x)) == x - m - f.ln(SumExp(f, xs, m))
    ensures f.exp(x - m - f.ln(SumExp(f, xs, m))) == Softmax(f, xs, x)
  {
    SoftmaxShifted(f, xs, m, x);
    var d := SumExp(f, xs, m);
    var a := x - m - f.ln(d);
    assert a + f.ln(d) == x - m;
    assert Adds(f, a, f.ln(d)) && Undoes(f, d) && Undoes(f, a);
    assert f.exp(a) * d == f.exp(x - m);
    assert f.exp(a) == f.exp(x - m) / d;
  }

  /** The entropy so far, times the whole sum d, in terms of the sums so far. */
  predicate Balanced(entropy: real, l: real, sum: real, shifted: real, d: real) {
    d * entropy == l * sum - shifted
  }

  lemma {:induction false} EntropyTerms(f: Functions, xs: seq<real>, m: real, n: nat)
    requires Law(f) && xs != [] && n <= |xs|
    ensures SumExp(f, xs, 0.0) > 0.0 && SumExp(f, xs, m) > 0.0
    ensures var d := SumExp(f, xs, m);
            Balanced(EntropyUpTo(f, xs, n), f.ln(d), SumExp(f, xs[..n], m), SumShifted(f, xs[..n], m), d)
  {
    SumPositive(f, xs, 0.0);
    SumPositive(f, xs, m);
    if n == 0 {
      NothingYet(f.ln(SumExp(f, xs, m)), SumExp(f, xs, m));
    } else {
      EntropyTerms(f, xs, m, n - 1);
      assert xs[..n][..n - 1] == xs[..n - 1];
      EntropyStep(f, xs, m, n, SumExp(f, xs[..n - 1], m), SumShifted(f, xs[..n - 1], m),
                  SumExp(f, xs[..n], m), SumShifted(f, xs[..n], m));
    }
  }

  lemma NothingYet(l: real, d: real)
    ensures Balanced(0.0, l, 0.0, 0.0, d)
  {
  }

  lemma EntropyStep(
    f: Functions, xs: seq<real>, m: real, n: nat, sum: real, shifted: real, nextSum: real, nextShifted: real)
    requires Law(f) && xs != [] && 0 < n <= |xs|
    requires SumExp(f, xs, 0.0) > 0.0 && SumExp(f, xs, m) > 0.0
    requires nextSum == sum + f.exp(xs[n - 1] - m)
    requires nextShifted == shifted + (xs[n - 1] - m) * f.exp(xs[n - 1] - m)
    requires Balanced(EntropyUpTo(f, xs, n - 1), f.ln(SumExp(f, xs, m)), sum, shifted, SumExp(f, xs, m))
    ensures Balanced(EntropyUpTo(f, xs, n), f.ln(SumExp(f, xs, m)), nextSum, nextShifted, SumExp(f, xs, m))
  {
    var x, d := xs[n - 1], SumExp(f, xs, m);
    var p := Softmax(f, xs, x);
    var lnP := f.ln(p);
    assert p == f.exp(x - m) / d by {
      SoftmaxShifted(f, xs, m, x);
    }
    assert lnP == x - m - f.ln(d) by {
      LogSoftmax(f, xs, m, x);
    }
    OneTerm(EntropyUpTo(f, xs, n - 1), p, lnP, f.exp(x - m), d, x - m, f.ln(d), sum, shifted);
  }

  lemma OneTerm(before: real, p: real, lnP: real, e: real, d: real, s: real, l: real, sum: real, shifted: real)
    requires d > 0.0 && p == e / d && lnP == s - l && Balanced(before, l, sum, shifted, d)
    ensures Balanced(before - p * lnP, l, sum + e, shifted + s * e, d)
  {
    assert d * p == e;
    calc {
      d * (before - p * lnP);
      d * before - (d * p) * lnP;
      l * sum - shifted - e * (s - l);
      l * (sum + e) - (shifted + s * e);
    }
  }

  lemma Quotients(a: real, b: real, d: real)
    requires d > 0.0
    ensures a / d - b / d == (a - b) / d
  {
  }

  /** Streaming gives the entropy of the probabilities, whichever the reference point. */
  lemma EntropyFormula(f: Functions, xs: seq<real>, m: real)
    requires Law(f) && xs != []
    ensures SumExp(f, xs, 0.0) > 0.0 && SumExp(f, xs, m) > 0.0
    ensures var d := SumExp(f, xs, m); Entropy(f, xs) == f.ln(d) - SumShifted(f, xs, m) / d
  {
    EntropyTerms(f, xs, m, |xs|);
    assert xs[..|xs|] == xs;
    WholeBalance(Entropy(f, xs), f.ln(SumExp(f, xs, m)), SumExp(f, xs, m), SumShifted(f, xs, m));
  }

  lemma WholeBalance(entropy: real, l: real, d: real, shifted: real)
    requires d > 0.0 && Balanced(entropy, l, d, shifted, d)
    ensures entropy == l - shifted / d
  {
    assert d * (entropy - l) == -shifted;
  }

  /** Probabilities are positive and at most one. */
  lemma SoftmaxBounds(f: Functions, xs: seq<real>, i: nat)
    requires Law(f) && i < |xs|
    ensures SumExp(f, xs, 0.0) > 0.0 && 0.0 < Softmax(f, xs, xs[i]) <= 1.0
    ensures f.ln(Softmax(f, xs, xs[i])) <= 0.0
  {
    SumPositive(f, xs, 0.0);
    assert f.exp(xs[i] - 0.0) <= SumExp(f, xs, 0.0);
    assert xs[i] - 0.0 == xs[i] && Grows(f, xs[i]);
    var p := Softmax(f, xs, xs[i]);
    AtMostWhole(f.exp(xs[i]), SumExp(f, xs, 0.0));
    assert Undoes(f, p) && Grows(f, f.ln(p));
  }

  lemma AtMostWhole(a: real, d: real)
    requires 0.0 < a <= d
    ensures 0.0 < a / d <= 1.0
  {
  }

  /** The entropy is never negative. */
  lemma {:induction false} EntropyNonNegative(f: Functions, xs: seq<real>, n: nat)
    requires Law(f) && xs != [] && n <= |xs|
    ensures SumExp(f, xs, 0.0) > 0.0 && EntropyUpTo(f, xs, n) >= 0.0
  {
    SumPositive(f, xs, 0.0);
    if n > 0 {
      EntropyNonNegative(f, xs, n - 1);
      SoftmaxBounds(f, xs, n - 1);
      Product(Softmax(f, xs, xs[n - 1]), f.ln(Softmax(f, xs, xs[n - 1])));
    }
  }

  lemma Product(a: real, b: real)
    requires a > 0.0 && b <= 0.0
    ensures a * b <= 0.0
  {
  }

  /** The probabilities of the finite logits add up to one. */
  function SumSoftmax(f: Functions, xs: seq<real>, n: nat): real
    requires n <= |xs| && SumExp(f, xs, 0.0) != 0.0
  {
    if n == 0 then 0.0 else SumSoftmax(f, xs, n - 1) + Softmax(f, xs, xs[n - 1])
  }

  lemma {:induction false} SoftmaxPartial(f: Functions, xs: seq<real>, n: nat)
    requires n <= |xs| && SumExp(f, xs, 0.0) > 0.0
    ensures SumSoftmax(f, xs, n) == SumExp(f, xs[..n], 0.0) / SumExp(f, xs, 0.0)
  {
    if n > 0 {
      SoftmaxPartial(f, xs, n - 1);
      assert xs[..n][..n - 1] == xs[..n - 1];
      var d := SumExp(f, xs, 0.0);
      Quotients(SumExp(f, xs[..n], 0.0), f.exp(xs[n - 1]), d);
      assert f.exp(xs[n - 1] - 0.0) == f.exp(xs[n - 1]);
    }
  }

  lemma Whole(d: real)
    requires d > 0.0
    ensures d / d == 1.0
  {
  }

  lemma ProbabilitiesSumToOne(f: Functions, xs: seq<real>)
    requires Law(f) && xs != []
    ensures SumExp(f, xs, 0.0) > 0.0 && SumSoftmax(f, xs, |xs|) == 1.0
  {
    SumPositive(f, xs, 0.0);
    SoftmaxPartial(f, xs, |xs|);
    assert xs[..|xs|] == xs;
    Whole(SumExp(f, xs, 0.0));
  }

  // ----- Order

  lemma WithoutLast(xs: seq<real>, j: nat)
    requires j < |xs|
    ensures var n := |xs| - 1;
            if j == n then Without(xs, j) == xs[..n]
            else |Without(xs, j)| == n && Without(xs, j)[n - 1] == xs[n] && Without(xs, j)[..n - 1] == Without(xs[..n], j)
  {
  }

  lemma {:induction false} TakeOutExp(f: Functions, xs: seq<real>, j: nat, m: real)
    requires j < |xs|
    ensures SumExp(f, xs, m) == SumExp(f, Without(xs, j), m) + f.exp(xs[j] - m)
    decreases |xs|
  {
    WithoutLast(xs, j);
    if j < |xs| - 1 {
      TakeOutExp(f, xs[..|xs| - 1], j, m);
    }
  }

  lemma {:induction false} TakeOutShifted(f: Functions, xs: seq<real>, j: nat, m: real)
    requires j < |xs|
    ensures SumShifted(f, xs, m) == SumShifted(f, Without(xs, j), m) + (xs[j] - m) * f.exp(xs[j] - m)
    decreases |xs|
  {
    WithoutLast(xs, j);
    if j < |xs| - 1 {
      TakeOutShifted(f, xs[..|xs| - 1], j, m);
    }
  }

  /** The last of the one among the other. */
  lemma LastIn(xs: seq<real>, ys: seq<real>) returns (j: nat)
    requires multiset(xs) == multiset(ys) && xs != []
    ensures j < |ys| && ys[j] == xs[|xs| - 1]
    ensures multiset(xs[..|xs| - 1]) == multiset(Without(ys, j))
  {
    var n := |xs| - 1;
    assert xs[n] in multiset(xs);
    j :| 0 <= j < |ys| && ys[j] == xs[n];
    assert Without(xs, n) == xs[..n];
    SameWithout(xs, n, ys, j);
  }

  lemma {:induction false} ExpPermutes(f: Functions, xs: seq<real>, ys: seq<real>, m: real)
    requires multiset(xs) == multiset(ys)
    ensures SumExp(f, xs, m) == SumExp(f, ys, m)
    decreases |xs|
  {
    if xs == [] {
      assert |ys| == |multiset(ys)|;
    } else {
      var j := LastIn(xs, ys);
      ExpPermutes(f, xs[..|xs| - 1], Without(ys, j), m);
      TakeOutExp(f, ys, j, m);
    }
  }

  lemma {:induction false} ShiftedPermutes(f: Functions, xs: seq<real>, ys: seq<real>, m: real)
    requires multiset(xs) == multiset(ys)
    ensures SumShifted(f, xs, m) == SumShifted(f, ys, m)
    decreases |xs|
  {
    if xs == [] {
      assert |ys| == |multiset(ys)|;
    } else {
      var j := LastIn(xs, ys);
      ShiftedPermutes(f, xs[..|xs| - 1], Without(ys, j), m);
      TakeOutShifted(f, ys, j, m);
    }
  }

  /** Neither probabilities nor the entropy depend on the order of the row. */
  lemma OrderIrrelevant(f: Functions, xs: seq<real>, ys: seq<real>, x: real)
    requires Law(f) && xs != [] && multiset(xs) == multiset(ys)
    ensures SumExp(f, xs, 0.0) > 0.0 && SumExp(f, ys, 0.0) > 0.0
    ensures Softmax(f, xs, x) == Softmax(f, ys, x) && Entropy(f, xs) == Entropy(f, ys)
  {
    assert |xs| == |multiset(xs)| && |ys| == |multiset(ys)|;
    ExpPermutes(f, xs, ys, 0.0);
    ShiftedPermutes(f, xs, ys, 0.0);
    EntropyFormula(f, xs, 0.0);
    EntropyFormula(f, ys, 0.0);
  }

  // ----- Scoring a row

  predicate Scorable(logits: seq<Logit>, tokenId: nat) {
    && tokenId < |logits|
    && (forall i :: 0 <= i < |logits| ==> !logits[i].Invalid?)
    && (exists i :: 0 <= i < |logits| && logits[i].Finite?)
  }

  lemma {:induction false} NoFinites(logits: seq<Logit>, n: nat)
    requires n <= |logits|
    ensures Finites(logits, n) == [] <==> forall i :: 0 <= i < n ==> !logits[i].Finite?
  {
    if n > 0 {
      NoFinites(logits, n - 1);
    }
  }

  lemma ScorableFinites(logits: seq<Logit>, tokenId: nat, f: Functions)
    requires Scorable(logits, tokenId) && Law(f)
    ensures Finites(logits, |logits|) != [] && SumExp(f, Finites(logits, |logits|), 0.0) > 0.0
  {
    NoFinites(logits, |logits|);
    SumPositive(f, Finites(logits, |logits|), 0.0);
  }

  /** The probability the row gives the token, its logarithm, and the entropy of the row. */
  ghost predicate IsScore(f: Functions, logits: seq<Logit>, tokenId: nat, computeEntropy: bool, score: TokenScore)
    requires Law(f) && Scorable(logits, tokenId)
  {
    ScorableFinites(logits, tokenId, f);
    var xs := Finites(logits, |logits|);
    && (if logits[tokenId].Finite? then
          && score.probability == Softmax(f, xs, logits[tokenId].value)
          && score.logProbability == Some(f.ln(score.probability))
        else score.probability == 0.0 && score.logProbability == None)
    && score.entropy == if computeEntropy then Some(Entropy(f, xs)) else None
  }

  /** ScoreToken: None instead of an error. */
  method ScoreToken(f: Functions, logits: seq<Logit>, tokenId: nat, computeEntropy: bool)
    returns (score: Option<TokenScore>)
    requires Law(f)
    ensures score.Some? <==> Scorable(logits, tokenId)
    ensures score.Some? ==> IsScore(f, logits, tokenId, computeEntropy, score.value)
    ensures score.Some? && computeEntropy ==> score.value.entropy.value >= 0.0
  {
    if logits == [] || tokenId >= |logits| {
      return None;
    }
    var maximum, denominator, weighted := 0.0, 0.0, 0.0;
    for i := 0 to |logits|
      invariant forall k :: 0 <= k < i ==> !logits[k].Invalid?
      invariant Streamed(f, Finites(logits, i), maximum, denominator, weighted, computeEntropy)
    {
      var valid;
      valid, maximum, denominator, weighted :=
        Absorb(f, logits, i, maximum, denominator, weighted, computeEntropy);
      if !valid {
        return None;
      }
    }
    NoFinites(logits, |logits|);
    if denominator == 0.0 {
      return None;
    }
    var finished := Finish(f, logits, tokenId, maximum, denominator, weighted, computeEntropy);
    score := Some(finished);
  }

  /** The score from what the pass has kept. */
  method Finish(
    f: Functions, logits: seq<Logit>, tokenId: nat, maximum: real, denominator: real, weighted: real,
    computeEntropy: bool)
    returns (score: TokenScore)
    requires Law(f) && Scorable(logits, tokenId) && denominator != 0.0
    requires Streamed(f, Finites(logits, |logits|), maximum, denominator, weighted, computeEntropy)
    ensures IsScore(f, logits, tokenId, computeEntropy, score)
    ensures computeEntropy ==> score.entropy.value >= 0.0
  {
    ghost var xs := Finites(logits, |logits|);
    ScorableFinites(logits, tokenId, f);
    EntropyFormula(f, xs, maximum);
    EntropyNonNegative(f, xs, |xs|);
    var entropy := if computeEntropy then Some(f.ln(denominator) - weighted / denominator) else None;
    match logits[tokenId] {
      case Finite(logit) =>
        var logProbability := logit - maximum - f.ln(denominator);
        LogSoftmax(f, xs, maximum, logit);
        score := TokenScore(f.exp(logProbability), Some(logProbability), entropy);
      case _ =>
        score := TokenScore(0.0, None, entropy);
    }
  }

  /** One logit of the row. */
  method Absorb(
    f: Functions, logits: seq<Logit>, i: nat, maximum0: real, denominator0: real, weighted0: real,
    computeEntropy: bool)
    returns (valid: bool, maximum: real, denominator: real, weighted: real)
    requires Law(f) && i < |logits|
    requires Streamed(f, Finites(logits, i), maximum0, denominator0, weighted0, computeEntropy)
    ensures valid <==> !logits[i].Invalid?
    ensures valid ==> Streamed(f, Finites(logits, i + 1), maximum, denominator, weighted, computeEntropy)
  {
    maximum, denominator, weighted := maximum0, denominator0, weighted0;
    match logits[i] {
      case NegInf =>
        assert Finites(logits, i + 1) == Finites(logits, i);
        valid := true;
      case Invalid =>
        valid := false;
      case Finite(logit) =>
        maximum, denominator, weighted :=
          Stream(f, Finites(logits, i), logit, maximum, denominator, weighted, computeEntropy);
        valid := true;
    }
  }

  /** One finite logit. */
  method Stream(
    f: Functions, ghost xs: seq<real>, logit: real, maximum0: real, denominator0: real, weighted0: real,
    computeEntropy: bool)
    returns (maximum: real, denominator: real, weighted: real)
    requires Law(f) && Streamed(f, xs, maximum0, denominator0, weighted0, computeEntropy)
    ensures Streamed(f, xs + [logit], maximum, denominator, weighted, computeEntropy)
  {
    maximum, denominator, weighted := maximum0, denominator0, weighted0;
    if denominator == 0.0 {
      assert xs + [logit] == [logit];
      StreamFirst(f, logit, computeEntropy);
      maximum, denominator := logit, 1.0;
    } else if logit > maximum {
      StreamMaximum(f, xs, maximum, denominator, weighted, computeEntropy, logit);
      var maximumShift := maximum - logit;
      var scale := f.exp(maximumShift);
      if computeEntropy {
        weighted := scale * (weighted + maximumShift * denominator);
      }
      denominator := scale * denominator + 1.0;
      maximum := logit;
    } else {
      StreamOther(f, xs, maximum, denominator, weighted, computeEntropy, logit);
      var shiftedLogit := logit - maximum;
      var weight := f.exp(shiftedLogit);
      denominator := denominator + weight;
      if computeEntropy {
        weighted := weighted + shiftedLogit * weight;
      }
    }
  }
}
