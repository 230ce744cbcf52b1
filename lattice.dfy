/**
 * The recombining binomial lattice that both pricer variants fill in, stated
 * as functions of the node coordinates.  A node is addressed by
 * (row, col): `col` is the time step (0 = today, N = maturity) and `row`
 * is the number of down-moves on the paths that reach it, so only the
 * cells with row <= col are nodes of the tree.
 *
 * The transcendental and rounding steps of the pricer are abstracted into
 * the inputs: `d` is the down factor the pricer derives from `u`, `growth`
 * is the one-step growth factor exp(r * T / N) and `disc` the one-step
 * discount factor exp(-r * T / N).
 */
module BinomialLattice {

  /** The pricer's inputs: spot S0, strike K, number of steps N, up factor u,
      down factor d, one-step growth and discount factors. */
  datatype Market = Market(S0: real, K: real, N: nat, u: real, d: real, growth: real, disc: real)
  {
    /** What the pricer needs to return at all: T / N, 1 / u and the
        division by u - d are defined. */
    predicate WellDefined() {
      N >= 1 && u != 0.0 && u != d
    }

    /** Risk-neutral probability of an up-move: the weight on u, with the
        rest on d, under which the expected one-step factor is the growth factor. */
    function P(): (r: real)
      requires u != d
      ensures r * u + (1.0 - r) * d == growth
    {
      (growth - d) / (u - d)
    }

    /** Risk-neutral probability of a down-move: the same weighting seen from
        the down factor's side. */
    function Q(): (r: real)
      requires u != d
      ensures (1.0 - r) * u + r * d == growth
    {
      1.0 - P()
    }

    /** The same market with another strike. */
    function WithStrike(k: real): (m: Market)
      ensures m.K == k
      ensures m.S0 == S0 && m.N == N && m.u == u && m.d == d
      ensures m.growth == growth && m.disc == disc
    {
      this.(K := k)
    }
  }

  /** x raised to a natural power, as `x ** n` with an integer exponent. */
  function Pow(x: real, n: nat): (r: real)
    ensures x >= 0.0 ==> r >= 0.0
    ensures x > 0.0 ==> r > 0.0
  {
    if n == 0 then 1.0 else x * Pow(x, n - 1)
  }

  /** Asset price at a node: col - row up-moves and row down-moves from S0. */
  function Price(m: Market, row: nat, col: nat): real
    requires row <= col
  {
    m.S0 * Pow(m.u, col - row) * Pow(m.d, row)
  }

  /** Payoff of a call struck at K on an asset worth s: the larger of 0 and s - K. */
  function Payoff(s: real, K: real): (r: real)
    ensures r >= 0.0 && r >= s - K
    ensures r == 0.0 || r == s - K
  {
    if s - K > 0.0 then s - K else 0.0
  }

  /** One backward-induction step: the discounted risk-neutral average of the
      up-successor's and the down-successor's values. */
  function Rollback(m: Market, up: real, down: real): real
    requires m.u != m.d
  {
    m.disc * (m.P() * up + m.Q() * down)
  }

  /** Option value at a node: the payoff at maturity, and before it the
      rollback of the node's two successors (row, col + 1) and (row + 1, col + 1).
      With probabilities in [0, 1] and a non-negative discount factor it is
      never negative. */
  function Value(m: Market, row: nat, col: nat): (r: real)
    requires m.u != m.d
    requires row <= col <= m.N
    ensures 0.0 <= m.P() <= 1.0 && m.disc >= 0.0 ==> r >= 0.0
    decreases m.N - col
  {
    if col == m.N then Payoff(Price(m, row, m.N), m.K)
    else
      var up, down := Value(m, row, col + 1), Value(m, row + 1, col + 1);
      RollbackNonNegative(m, up, down);
      Rollback(m, up, down)
  }

  /** The whole (N+1) x (N+1) price matrix: the node price on and above the
      diagonal, zero in the unreachable cells below it. */
  function PriceCell(m: Market, row: nat, col: nat): real
    requires row <= m.N && col <= m.N
  {
    if row <= col then Price(m, row, col) else 0.0
  }

  /** The whole (N+1) x (N+1) value matrix, zero below the diagonal. */
  function ValueCell(m: Market, row: nat, col: nat): real
    requires m.u != m.d
    requires row <= m.N && col <= m.N
  {
    if row <= col then Value(m, row, col) else 0.0
  }

  /** A matrix holding the price lattice holds S0 * u^(col - row) * d^row on
      and above the diagonal and zero below it. */
  lemma PriceMatrixShape(m: Market, a: array2<real>)
    requires a.Length0 == m.N + 1 && a.Length1 == m.N + 1
    requires forall i, j :: 0 <= i <= m.N && 0 <= j <= m.N ==> a[i, j] == PriceCell(m, i, j)
    ensures forall row, col :: 0 <= row <= col <= m.N ==>
      a[row, col] == m.S0 * Pow(m.u, col - row) * Pow(m.d, row)
    ensures forall row, col :: 0 <= col < row <= m.N ==> a[row, col] == 0.0
  {
    forall row, col | 0 <= row <= col <= m.N
      ensures a[row, col] == m.S0 * Pow(m.u, col - row) * Pow(m.d, row)
    {
      assert a[row, col] == PriceCell(m, row, col);
    }
  }

  /** In a matrix holding the price lattice, every node on or above the
      diagonal before maturity is its up-successor divided by u. */
  lemma PriceMatrixBackward(m: Market, a: array2<real>)
    requires m.u != 0.0
    requires a.Length0 == m.N + 1 && a.Length1 == m.N + 1
    requires forall i, j :: 0 <= i <= m.N && 0 <= j <= m.N ==> a[i, j] == PriceCell(m, i, j)
    ensures forall row, col :: 0 <= row <= col < m.N ==> a[row, col] == a[row, col + 1] / m.u
  {
    forall row, col | 0 <= row <= col < m.N
      ensures a[row, col] == a[row, col + 1] / m.u
    {
      assert a[row, col] == Price(m, row, col) && a[row, col + 1] == Price(m, row, col + 1);
      PriceFromNextColumn(m, row, col);
    }
  }

  /** A matrix holding the value lattice has the shape the pricer promises:
      the call payoff of the node price in the last column, every earlier
      node the rollback of its two successors, and zero below the diagonal. */
  lemma ValueMatrixShape(m: Market, a: array2<real>)
    requires m.u != m.d
    requires a.Length0 == m.N + 1 && a.Length1 == m.N + 1
    requires forall i, j :: 0 <= i <= m.N && 0 <= j <= m.N ==> a[i, j] == ValueCell(m, i, j)
    ensures forall row :: 0 <= row <= m.N ==> a[row, m.N] == Payoff(Price(m, row, m.N), m.K)
    ensures forall row, col :: 0 <= row <= col < m.N ==>
      a[row, col] == Rollback(m, a[row, col + 1], a[row + 1, col + 1])
    ensures forall row, col :: 0 <= col < row <= m.N ==> a[row, col] == 0.0
  {
  }

  /** The risk-neutral probabilities sum to one, and under them the expected
      one-step price factor is the growth factor. */
  lemma RiskNeutral(m: Market)
    requires m.u != m.d
    ensures m.P() + m.Q() == 1.0
    ensures m.P() * m.u + m.Q() * m.d == m.growth
  {
    var p := m.P();
    assert p * (m.u - m.d) == m.growth - m.d;
    calc {
      p * m.u + (1.0 - p) * m.d;
      m.d + p * (m.u - m.d);
      m.growth;
    }
  }

  /** A node's successors are its price times u and times d. */
  lemma PriceSuccessors(m: Market, row: nat, col: nat)
    requires row <= col
    ensures Price(m, row, col + 1) == m.u * Price(m, row, col)
    ensures Price(m, row + 1, col + 1) == m.d * Price(m, row, col)
  {
    var a, b := Pow(m.u, col - row), Pow(m.d, row);
    assert Pow(m.u, col + 1 - row) == m.u * a;
    assert Pow(m.d, row + 1) == m.d * b;
    calc {
      Price(m, row + 1, col + 1);
      m.S0 * a * (m.d * b);
      m.d * (m.S0 * a * b);
    }
  }

  /** Dividing the up-successor's price by u gives the node's price back,
      which is how the broadcasting variant fills the earlier columns. */
  lemma PriceFromNextColumn(m: Market, row: nat, col: nat)
    requires m.u != 0.0
    requires row <= col
    ensures Price(m, row, col + 1) / m.u == Price(m, row, col)
  {
    PriceSuccessors(m, row, col);
    CancelFactor(m.u, Price(m, row, col));
  }

  /** When discounting undoes growth, the rollback of the two successor
      prices is the node's own price: the discounted price is a martingale. */
  lemma DiscountedPriceMartingale(m: Market, row: nat, col: nat)
    requires m.u != m.d
    requires m.disc * m.growth == 1.0
    requires row <= col
    ensures Rollback(m, Price(m, row, col + 1), Price(m, row + 1, col + 1)) == Price(m, row, col)
  {
    var s := Price(m, row, col);
    PriceSuccessors(m, row, col);
    RiskNeutral(m);
    calc {
      Rollback(m, Price(m, row, col + 1), Price(m, row + 1, col + 1));
      m.disc * (m.P() * (m.u * s) + m.Q() * (m.d * s));
      m.disc * ((m.P() * m.u + m.Q() * m.d) * s);
      m.disc * (m.growth * s);
      (m.disc * m.growth) * s;
    }
  }

  /** The product of a non-negative factor keeps an order. */
  lemma ScaleMonotone(c: real, x: real, y: real)
    requires c >= 0.0 && x <= y
    ensures c * x <= c * y
  {
    assert c * y - c * x == c * (y - x);
  }

  /** A non-zero factor cancels against a division by it. */
  lemma CancelFactor(c: real, x: real)
    requires c != 0.0
    ensures (c * x) / c == x
  {
  }

  /** A discounted average with non-negative weights is monotone in both
      averaged values. */
  lemma WeightedMonotone(w: real, p: real, q: real, a1: real, b1: real, a2: real, b2: real)
    requires w >= 0.0 && p >= 0.0 && q >= 0.0
    requires a1 <= a2 && b1 <= b2
    ensures w * (p * a1 + q * b1) <= w * (p * a2 + q * b2)
  {
    ScaleMonotone(p, a1, a2);
    ScaleMonotone(q, b1, b2);
    ScaleMonotone(w, p * a1 + q * b1, p * a2 + q * b2);
  }

  /** Shifting both averaged values by f shifts a discounted average of
      weights summing to one by the discounted f. */
  lemma WeightedShift(w: real, p: real, q: real, a: real, b: real, f: real)
    requires p + q == 1.0
    ensures w * (p * (a - f) + q * (b - f)) == w * (p * a + q * b) - w * f
  {
    assert p * (a - f) + q * (b - f) == (p * a + q * b) - (p + q) * f;
  }

  /** Rolling back two values lowered by f gives the rollback lowered by the
      discounted f. */
  lemma RollbackShift(m: Market, up: real, down: real, f: real)
    requires m.u != m.d
    ensures Rollback(m, up - f, down - f) == Rollback(m, up, down) - m.disc * f
  {
    RiskNeutral(m);
    WeightedShift(m.disc, m.P(), m.Q(), up, down, f);
  }

  /** A rollback of two values that lie at least f above two others lies at
      least the discounted f above the others' rollback. */
  lemma RollbackAboveShifted(m: Market, up: real, down: real, up0: real, down0: real, f: real)
    requires m.u != m.d
    requires 0.0 <= m.P() <= 1.0 && m.disc >= 0.0
    requires up >= up0 - f && down >= down0 - f
    ensures Rollback(m, up, down) >= Rollback(m, up0, down0) - m.disc * f
  {
    RollbackMonotone(m, up0 - f, down0 - f, up, down);
    RollbackShift(m, up0, down0, f);
  }

  /** With probabilities in [0, 1] and a non-negative discount factor, a
      rollback is monotone in both successor values. */
  lemma RollbackMonotone(m: Market, up1: real, down1: real, up2: real, down2: real)
    requires m.u != m.d
    requires 0.0 <= m.P() <= 1.0 && m.disc >= 0.0
    requires up1 <= up2 && down1 <= down2
    ensures Rollback(m, up1, down1) <= Rollback(m, up2, down2)
  {
    WeightedMonotone(m.disc, m.P(), m.Q(), up1, down1, up2, down2);
  }

  /** With probabilities in [0, 1] and a non-negative discount factor, the
      rollback of two non-negative values is non-negative. */
  lemma RollbackNonNegative(m: Market, up: real, down: real)
    requires m.u != m.d
    ensures 0.0 <= m.P() <= 1.0 && m.disc >= 0.0 && up >= 0.0 && down >= 0.0 ==>
            Rollback(m, up, down) >= 0.0
  {
    if 0.0 <= m.P() <= 1.0 && m.disc >= 0.0 && up >= 0.0 && down >= 0.0 {
      RollbackMonotone(m, 0.0, 0.0, up, down);
    }
  }

  /** The strike plays no part in a rollback step. */
  lemma RollbackIgnoresStrike(m: Market, k: real, up: real, down: real)
    requires m.u != m.d
    ensures Rollback(m.WithStrike(k), up, down) == Rollback(m, up, down)
  {
    assert m.WithStrike(k).P() == m.P();
  }

  /** Raising the strike never raises an option value (at any node, so in
      particular not the price at (0, 0)). */
  lemma {:induction false} ValueAntitoneInStrike(m: Market, k1: real, k2: real, row: nat, col: nat)
    requires m.u != m.d
    requires 0.0 <= m.P() <= 1.0 && m.disc >= 0.0
    requires k1 <= k2
    requires row <= col <= m.N
    ensures Value(m.WithStrike(k2), row, col) <= Value(m.WithStrike(k1), row, col)
    decreases m.N - col
  {
    var m1, m2 := m.WithStrike(k1), m.WithStrike(k2);
    if col < m.N {
      ValueAntitoneInStrike(m, k1, k2, row, col + 1);
      ValueAntitoneInStrike(m, k1, k2, row + 1, col + 1);
      var a1, b1 := Value(m1, row, col + 1), Value(m1, row + 1, col + 1);
      var a2, b2 := Value(m2, row, col + 1), Value(m2, row + 1, col + 1);
      RollbackMonotone(m, a2, b2, a1, b1);
      RollbackIgnoresStrike(m, k1, a1, b1);
      RollbackIgnoresStrike(m, k2, a2, b2);
    } else {
      assert Price(m1, row, col) == Price(m2, row, col);
    }
  }

  /** Strike monotonicity needs p in [0, 1]. Nothing keeps p there: with
      u = 1.1, d = 0.9 and a growth factor of 0.8, below d, p = -0.5, and
      raising the strike of a one-step tree from 95 to 100 raises the root
      value from -9.375 to -6.25. */
  lemma StrikeMonotonicityNeedsProbabilities()
    ensures var m := Market(100.0, 95.0, 1, 1.1, 0.9, 0.8, 1.25);
            m.P() == -0.5 &&
            Value(m, 0, 0) == -9.375 && Value(m.WithStrike(100.0), 0, 0) == -6.25
  {
    var m := Market(100.0, 95.0, 1, 1.1, 0.9, 0.8, 1.25);
    assert Price(m, 0, 1) == 110.0 && Price(m, 1, 1) == 90.0;
    assert Value(m, 0, 0) == Rollback(m, Value(m, 0, 1), Value(m, 1, 1));
    var m2 := m.WithStrike(100.0);
    assert Price(m2, 0, 1) == 110.0 && Price(m2, 1, 1) == 90.0;
    assert Value(m2, 0, 0) == Rollback(m2, Value(m2, 0, 1), Value(m2, 1, 1));
  }

  /** No-arbitrage upper bound: a call is never worth more than the asset,
      when prices and the strike are non-negative and discounting undoes growth. */
  lemma {:induction false} ValueAtMostPrice(m: Market, row: nat, col: nat)
    requires m.u != m.d
    requires 0.0 <= m.P() <= 1.0 && m.disc >= 0.0 && m.disc * m.growth == 1.0
    requires m.S0 >= 0.0 && m.u >= 0.0 && m.d >= 0.0 && m.K >= 0.0
    requires row <= col <= m.N
    ensures Value(m, row, col) <= Price(m, row, col)
    decreases m.N - col
  {
    if col < m.N {
      ValueAtMostPrice(m, row, col + 1);
      ValueAtMostPrice(m, row + 1, col + 1);
      RollbackMonotone(m, Value(m, row, col + 1), Value(m, row + 1, col + 1),
                          Price(m, row, col + 1), Price(m, row + 1, col + 1));
      DiscountedPriceMartingale(m, row, col);
    }
  }

  /** No-arbitrage lower bound: a call is worth at least the asset minus the
      strike discounted over the remaining steps. */
  lemma {:induction false} ValueAtLeastForwardIntrinsic(m: Market, row: nat, col: nat)
    requires m.u != m.d
    requires 0.0 <= m.P() <= 1.0 && m.disc >= 0.0 && m.disc * m.growth == 1.0
    requires row <= col <= m.N
    ensures Value(m, row, col) >= Price(m, row, col) - m.K * Pow(m.disc, m.N - col)
    decreases m.N - col
  {
    if col < m.N {
      ValueAtLeastForwardIntrinsic(m, row, col + 1);
      ValueAtLeastForwardIntrinsic(m, row + 1, col + 1);
      var g := Pow(m.disc, m.N - (col + 1));
      DiscountedPriceMartingale(m, row, col);
      RollbackAboveShifted(m, Value(m, row, col + 1), Value(m, row + 1, col + 1),
                           Price(m, row, col + 1), Price(m, row + 1, col + 1), m.K * g);
      assert Pow(m.disc, m.N - col) == m.disc * g;
      assert m.disc * (m.K * g) == m.K * Pow(m.disc, m.N - col);
    }
  }
}
