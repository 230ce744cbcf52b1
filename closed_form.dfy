/**
 * An independent definition of the option value: the discounted
 * risk-neutral expectation of the terminal payoff over the binomial
 * distribution of down-moves,
 *
 *   disc^h * sum_{k=0..h} C(h, k) * p^(h-k) * q^k * payoff(node row + k at maturity),
 *
 * with h = N - col steps left.  The backward induction of both pricer
 * variants computes exactly this.
 */
module BinomialExpectation {
  import opened BinomialLattice

  /** f(0) + f(1) + ... + f(n - 1). */
  function Sum(n: nat, f: nat -> real): real
  {
    if n == 0 then 0.0 else Sum(n - 1, f) + f(n - 1)
  }

  lemma {:induction false} SumExtensional(n: nat, f: nat -> real, g: nat -> real)
    requires forall k: nat :: k < n ==> f(k) == g(k)
    ensures Sum(n, f) == Sum(n, g)
  {
    if n > 0 {
      SumExtensional(n - 1, f, g);
    }
  }

  /** A zero last term adds nothing to a sum. */
  lemma SumZeroTail(n: nat, f: nat -> real)
    requires f(n) == 0.0
    ensures Sum(n + 1, f) == Sum(n, f)
  {
  }

  /** The binomial coefficient C(n, k) by Pascal's rule (0 when k > n),
      kept as a real so that it multiplies the real weights directly. */
  function Choose(n: nat, k: nat): (r: real)
    ensures r >= 0.0
  {
    if k == 0 then 1.0 else if n == 0 then 0.0 else Choose(n - 1, k - 1) + Choose(n - 1, k)
  }

  lemma {:induction false} ChooseAbove(n: nat, k: nat)
    requires k > n
    ensures Choose(n, k) == 0.0
  {
    if n > 0 {
      ChooseAbove(n - 1, k - 1);
      ChooseAbove(n - 1, k);
    }
  }

  /** Probability of k down-moves among n steps, by the last step: k
      down-moves in n - 1 steps then an up-move, or k - 1 of them then a
      down-move. */
  function Weight(p: real, q: real, n: nat, k: nat): real
  {
    if k > n then 0.0
    else if n == 0 then 1.0
    else if k == 0 then p * Weight(p, q, n - 1, k)
    else p * Weight(p, q, n - 1, k) + q * Weight(p, q, n - 1, k - 1)
  }

  /** One unfolding of Weight at an interior or diagonal node. */
  lemma WeightUnfold(p: real, q: real, n: nat, k: nat)
    requires 0 < k <= n
    ensures Weight(p, q, n, k) == p * Weight(p, q, n - 1, k) + q * Weight(p, q, n - 1, k - 1)
  {
  }

  /** The binomial probability C(n, k) * p^(n-k) * q^k of k down-moves in n steps. */
  function Binomial(p: real, q: real, n: nat, k: nat): real
    requires k <= n
  {
    Choose(n, k) * Pow(p, n - k) * Pow(q, k)
  }

  /** The arithmetic of Pascal's rule on one binomial term. */
  lemma PascalSum(w: real, w1: real, w2: real, c: real, c1: real, c2: real, p: real, q: real, a: real, b: real, pa: real, qb: real)
    requires w == c * pa * qb && w1 == c1 * a * qb && w2 == c2 * pa * b
    requires c == c1 + c2 && pa == p * a && qb == q * b
    ensures w == p * w1 + q * w2
  {
  }

  /** Pascal's rule on the binomial probabilities of an interior node. */
  lemma BinomialPascal(p: real, q: real, n: nat, k: nat)
    requires 0 < k < n
    ensures Binomial(p, q, n, k) == p * Binomial(p, q, n - 1, k) + q * Binomial(p, q, n - 1, k - 1)
  {
    assert Binomial(p, q, n - 1, k - 1) == Choose(n - 1, k - 1) * Pow(p, n - k) * Pow(q, k - 1) by {
      assert n - 1 - (k - 1) == n - k;
    }
    PascalSum(Binomial(p, q, n, k), Binomial(p, q, n - 1, k), Binomial(p, q, n - 1, k - 1),
      Choose(n, k), Choose(n - 1, k), Choose(n - 1, k - 1),
      p, q, Pow(p, n - 1 - k), Pow(q, k - 1), Pow(p, n - k), Pow(q, k));
  }

  /** Weight and Binomial follow the same Pascal step at an interior node. */
  lemma WeightInterior(p: real, q: real, n: nat, k: nat)
    requires 0 < k < n
    requires Weight(p, q, n - 1, k) == Binomial(p, q, n - 1, k)
    requires Weight(p, q, n - 1, k - 1) == Binomial(p, q, n - 1, k - 1)
    ensures Weight(p, q, n, k) == Binomial(p, q, n, k)
  {
    WeightUnfold(p, q, n, k);
    BinomialPascal(p, q, n, k);
  }

  /** The weights are the binomial probabilities. */
  lemma {:induction false} WeightIsBinomial(p: real, q: real, n: nat, k: nat)
    requires k <= n
    ensures Weight(p, q, n, k) == Binomial(p, q, n, k)
  {
    if n == 0 {
    } else if k == 0 {
      WeightIsBinomial(p, q, n - 1, 0);
    } else if k == n {
      WeightIsBinomial(p, q, n - 1, k - 1);
      ChooseAbove(n - 1, n);
    } else {
      WeightIsBinomial(p, q, n - 1, k);
      WeightIsBinomial(p, q, n - 1, k - 1);
      WeightInterior(p, q, n, k);
    }
  }

  /** The terms weight(k) * F(k) of an expectation over n steps. */
  function Terms(p: real, q: real, n: nat, F: nat -> real): nat -> real
  {
    (k: nat) => Weight(p, q, n, k) * F(k)
  }

  /** Expectation of F(k) over k down-moves in h steps. */
  function Mix(p: real, q: real, h: nat, F: nat -> real): real
  {
    Sum(h + 1, Terms(p, q, h, F))
  }

  /** Multiplying out a weighted sum of two weights. */
  lemma Distribute(w: real, w1: real, w2: real, p: real, q: real, f: real)
    requires w == p * w1 + q * w2
    ensures w * f == p * (w1 * f) + q * (w2 * f)
  {
  }

  /** The sequence whose k-th term is p * up(k) + q * down(k - 1), with no
      down term at k = 0. */
  function Pascal(p: real, q: real, up: nat -> real, down: nat -> real): nat -> real
  {
    (k: nat) => p * up(k) + (if k == 0 then 0.0 else q * down(k - 1))
  }

  /** Summing the first n + 1 terms of Pascal(p, q, up, down) splits into
      the two scaled sums. */
  lemma {:induction false} SumPascal(n: nat, p: real, q: real, up: nat -> real, down: nat -> real)
    ensures Sum(n + 1, Pascal(p, q, up, down)) == p * Sum(n + 1, up) + q * Sum(n, down)
  {
    if n > 0 {
      SumPascal(n - 1, p, q, up, down);
    }
  }

  /** Pascal's rule on one term: the k-th term h + 1 steps ahead is p times
      the k-th term h steps ahead plus q times the (k-1)-th term h steps
      ahead of the down-successor. */
  lemma TermPascal(p: real, q: real, h: nat, F: nat -> real, G: nat -> real, k: nat)
    requires forall k: nat :: G(k) == F(k + 1)
    ensures Terms(p, q, h + 1, F)(k) == p * Terms(p, q, h, F)(k) + (if k == 0 then 0.0 else q * Terms(p, q, h, G)(k - 1))
  {
    if k == 0 {
      Distribute(Weight(p, q, h + 1, 0), Weight(p, q, h, 0), 0.0, p, q, F(0));
    } else {
      assert G(k - 1) == F(k);
      Distribute(Weight(p, q, h + 1, k), Weight(p, q, h, k), Weight(p, q, h, k - 1), p, q, F(k));
    }
  }

  /** Term by term, the expectation terms h + 1 steps ahead form the
      Pascal sequence of the terms h steps ahead of the two successors. */
  lemma TermsArePascal(p: real, q: real, h: nat, F: nat -> real, G: nat -> real)
    requires forall k: nat :: G(k) == F(k + 1)
    ensures Sum(h + 1 + 1, Terms(p, q, h + 1, F)) == Sum(h + 1 + 1, Pascal(p, q, Terms(p, q, h, F), Terms(p, q, h, G)))
  {
    var up, down, whole := Terms(p, q, h, F), Terms(p, q, h, G), Terms(p, q, h + 1, F);
    forall k: nat | k < h + 1 + 1
      ensures whole(k) == Pascal(p, q, up, down)(k)
    {
      TermPascal(p, q, h, F, G, k);
    }
    SumExtensional(h + 1 + 1, whole, Pascal(p, q, up, down));
  }

  /** One step of the expectation: averaging, with weights p and q, the
      expectation h steps ahead of the up-successor (payoffs F) and of the
      down-successor (payoffs G, F shifted by one node) gives the
      expectation h + 1 steps ahead. */
  lemma MixStep(p: real, q: real, h: nat, F: nat -> real, G: nat -> real)
    requires forall k: nat :: G(k) == F(k + 1)
    ensures p * Mix(p, q, h, F) + q * Mix(p, q, h, G) == Mix(p, q, h + 1, F)
  {
    TermsArePascal(p, q, h, F, G);
    TermsPastEnd(p, q, h, F);
    SumOfPascal(p, q, h, Terms(p, q, h, F), Terms(p, q, h, G), Terms(p, q, h + 1, F));
  }

  /** The terms h steps ahead vanish past the last node. */
  lemma TermsPastEnd(p: real, q: real, h: nat, F: nat -> real)
    ensures Terms(p, q, h, F)(h + 1) == 0.0
  {
    assert Weight(p, q, h, h + 1) == 0.0;
  }

  /** A sum that is the Pascal combination of an `up` sequence whose last
      term vanishes and a `down` sequence splits into p and q parts. */
  lemma SumOfPascal(p: real, q: real, h: nat, up: nat -> real, down: nat -> real, whole: nat -> real)
    requires Sum(h + 1 + 1, whole) == Sum(h + 1 + 1, Pascal(p, q, up, down))
    requires up(h + 1) == 0.0
    ensures Sum(h + 1 + 1, whole) == p * Sum(h + 1, up) + q * Sum(h + 1, down)
  {
    SumZeroTail(h + 1, up);
    SumPascal(h + 1, p, q, up, down);
    Regroup(Sum(h + 1 + 1, whole), Sum(h + 1 + 1, Pascal(p, q, up, down)),
      Sum(h + 1 + 1, up), Sum(h + 1, up), Sum(h + 1, down), p, q);
  }

  /** Replacing one summand of p * a + q * b by an equal one. A named step
      rather than an inline assertion: stated over plain reals, it keeps the
      nonlinear terms of its caller away from the solver. */
  lemma Regroup(c: real, x: real, a: real, a': real, b: real, p: real, q: real)
    requires c == x && x == p * a + q * b && a == a'
    ensures c == p * a' + q * b
  {
  }

  /** Payoff at the j-th node of the maturity column, and 0 past the last one. */
  function MaturityPayoff(m: Market, j: nat): real
  {
    if j <= m.N then Payoff(Price(m, j, m.N), m.K) else 0.0
  }

  /** The terminal payoffs seen from row `row`: k down-moves later the
      path ends in node row + k of the maturity column. */
  function PayoffsFrom(m: Market, row: nat): nat -> real
  {
    (k: nat) => MaturityPayoff(m, row + k)
  }

  /** Risk-neutral expected terminal payoff, h steps ahead of the node in row `row`. */
  function Expectation(m: Market, row: nat, h: nat): real
    requires m.u != m.d
  {
    Mix(m.P(), m.Q(), h, PayoffsFrom(m, row))
  }

  /** The expectation h steps ahead, discounted over those h steps. */
  function Discounted(m: Market, row: nat, h: nat): real
    requires m.u != m.d
  {
    Pow(m.disc, h) * Expectation(m, row, h)
  }

  /** The closed-form value of a node: the expectation discounted over the
      N - col remaining steps. */
  function ClosedFormValue(m: Market, row: nat, col: nat): real
    requires m.u != m.d && col <= m.N
  {
    Discounted(m, row, m.N - col)
  }

  /** Zero steps ahead, the expectation is the terminal payoff itself. */
  lemma ExpectationNow(m: Market, row: nat)
    requires m.u != m.d
    ensures Expectation(m, row, 0) == MaturityPayoff(m, row)
  {
    var T := Terms(m.P(), m.Q(), 0, PayoffsFrom(m, row));
    assert Weight(m.P(), m.Q(), 0, 0) == 1.0;
    assert T(0) == MaturityPayoff(m, row) by {
      assert PayoffsFrom(m, row)(0) == MaturityPayoff(m, row + 0);
    }
    assert Sum(0 + 1, T) == Sum(0, T) + T(0);
  }

  /** The expectation of a node h + 1 steps ahead is the p, q average of
      its successors' expectations h steps ahead. */
  lemma ExpectationStep(m: Market, row: nat, h: nat)
    requires m.u != m.d
    ensures m.P() * Expectation(m, row, h) + m.Q() * Expectation(m, row + 1, h) == Expectation(m, row, h + 1)
  {
    var F, G := PayoffsFrom(m, row), PayoffsFrom(m, row + 1);
    forall k: nat
      ensures G(k) == F(k + 1)
    {
      assert row + 1 + k == row + (k + 1);
    }
    MixStep(m.P(), m.Q(), h, F, G);
  }

  /** The arithmetic of one discounted rollback of two discounted expectations. */
  lemma DiscountStep(m: Market, v: real, vu: real, vd: real, g: real, eu: real, ed: real, e: real, gh: real)
    requires m.u != m.d
    requires v == Rollback(m, vu, vd)
    requires vu == g * eu && vd == g * ed
    requires m.P() * eu + m.Q() * ed == e && gh == m.disc * g
    ensures v == gh * e
  {
    var p, q := m.P(), m.Q();
    calc {
      v;
      m.disc * (p * (g * eu) + q * (g * ed));
      (m.disc * g) * (p * eu + q * ed);
    }
  }

  /** The discounted expectation satisfies the backward recurrence: h + 1
      steps ahead it is the rollback of the successors' values h steps
      ahead. */
  lemma DiscountedStep(m: Market, row: nat, h: nat)
    requires m.u != m.d
    ensures Discounted(m, row, h + 1) == Rollback(m, Discounted(m, row, h), Discounted(m, row + 1, h))
  {
    ExpectationStep(m, row, h);
    DiscountStep(m, Rollback(m, Discounted(m, row, h), Discounted(m, row + 1, h)),
      Discounted(m, row, h), Discounted(m, row + 1, h),
      Pow(m.disc, h), Expectation(m, row, h), Expectation(m, row + 1, h),
      Expectation(m, row, h + 1), Pow(m.disc, h + 1));
  }

  /** Backward induction computes the discounted binomial expectation of
      the terminal payoff at every node of the lattice. */
  lemma {:induction false} ValueIsClosedForm(m: Market, row: nat, col: nat)
    requires m.u != m.d
    requires row <= col <= m.N
    ensures Value(m, row, col) == ClosedFormValue(m, row, col)
    decreases m.N - col
  {
    if col == m.N {
      ExpectationNow(m, row);
      assert Pow(m.disc, 0) == 1.0;
    } else {
      ValueIsClosedForm(m, row, col + 1);
      ValueIsClosedForm(m, row + 1, col + 1);
      DiscountedStep(m, row, m.N - (col + 1));
      assert m.N - (col + 1) + 1 == m.N - col;
    }
  }

  /** The k-th term of the textbook binomial formula at the root. */
  function BinomialTerms(m: Market): nat -> real
    requires m.u != m.d
  {
    (k: nat) => if k <= m.N then Binomial(m.P(), m.Q(), m.N, k) * MaturityPayoff(m, k) else 0.0
  }

  /** The textbook binomial price of the call:
      disc^N * sum_{k=0..N} C(N, k) * p^(N-k) * q^k * max(0, S0 * u^(N-k) * d^k - K). */
  function BinomialPrice(m: Market): real
    requires m.u != m.d
  {
    Pow(m.disc, m.N) * Sum(m.N + 1, BinomialTerms(m))
  }

  /** The expectation at the root is the sum of the textbook terms. */
  lemma RootExpectation(m: Market)
    requires m.u != m.d
    ensures Expectation(m, 0, m.N) == Sum(m.N + 1, BinomialTerms(m))
  {
    var f, g := Terms(m.P(), m.Q(), m.N, PayoffsFrom(m, 0)), BinomialTerms(m);
    forall k: nat | k < m.N + 1
      ensures f(k) == g(k)
    {
      RootTerm(m, k);
    }
    SumExtensional(m.N + 1, f, g);
  }

  /** The k-th expectation term at the root is the k-th textbook term. */
  lemma RootTerm(m: Market, k: nat)
    requires m.u != m.d && k <= m.N
    ensures Terms(m.P(), m.Q(), m.N, PayoffsFrom(m, 0))(k) == BinomialTerms(m)(k)
  {
    WeightIsBinomial(m.P(), m.Q(), m.N, k);
    assert PayoffsFrom(m, 0)(k) == MaturityPayoff(m, k) by {
      assert 0 + k == k;
    }
    ProductCongruence(Weight(m.P(), m.Q(), m.N, k), Binomial(m.P(), m.Q(), m.N, k),
      PayoffsFrom(m, 0)(k), MaturityPayoff(m, k));
  }

  /** Equal factors give equal products. A named step for the same reason as
      Regroup: over plain reals the solver does not see Weight and Binomial
      unfold. */
  lemma ProductCongruence(a: real, a': real, b: real, b': real)
    requires a == a' && b == b'
    ensures a * b == a' * b'
  {
  }

  /** The price both pricer variants return (before rounding) is the
      textbook binomial price. */
  lemma OptionPriceIsBinomialPrice(m: Market)
    requires m.u != m.d
    ensures Value(m, 0, 0) == BinomialPrice(m)
  {
    ValueIsClosedForm(m, 0, 0);
    RootExpectation(m);
  }
}
