/**
 * The broadcasting variant of the pricer: only the last column of prices is
 * computed in closed form; each earlier column of prices is the next one
 * divided by u, and each earlier column of values is the rollback of the
 * next one, both written as whole-column slice assignments.
 */
module NumpyBroadcasting {
  import opened BinomialLattice
  import opened ColumnSlices

  /** Prices a European call on an N-step lattice, with the same inputs and
      the same outputs as the nested-loop variant; in addition every price
      column before maturity is the next one divided by u. */
  method BinomialOptionPricing(m: Market)
    returns (stockPrice: array2<real>, optionPayoff: array2<real>, optionPrice: real)
    requires m.WellDefined()
    ensures fresh(stockPrice) && fresh(optionPayoff)
    ensures stockPrice.Length0 == m.N + 1 && stockPrice.Length1 == m.N + 1
    ensures optionPayoff.Length0 == m.N + 1 && optionPayoff.Length1 == m.N + 1
    // both matrices are the lattices, cell by cell
    ensures forall row, col :: 0 <= row <= m.N && 0 <= col <= m.N ==>
      stockPrice[row, col] == PriceCell(m, row, col) && optionPayoff[row, col] == ValueCell(m, row, col)
    ensures optionPrice == optionPayoff[0, 0] == Value(m, 0, 0)
    // ... which is: node prices on and above the diagonal, zeros below it,
    // the call payoff in the last column and rollbacks everywhere before it
    ensures forall row, col :: 0 <= row <= col <= m.N ==> stockPrice[row, col] == Price(m, row, col)
    ensures forall row, col :: 0 <= col < row <= m.N ==> stockPrice[row, col] == 0.0
    ensures forall row :: 0 <= row <= m.N ==> optionPayoff[row, m.N] == Payoff(stockPrice[row, m.N], m.K)
    ensures forall row, col :: 0 <= row <= col < m.N ==>
      optionPayoff[row, col] == Rollback(m, optionPayoff[row, col + 1], optionPayoff[row + 1, col + 1])
    ensures forall row, col :: 0 <= col < row <= m.N ==> optionPayoff[row, col] == 0.0
    ensures forall row, col :: 0 <= row <= col < m.N ==> stockPrice[row, col] == stockPrice[row, col + 1] / m.u
  {
    stockPrice := new real[m.N + 1, m.N + 1]((_, _) => 0.0);
    optionPayoff := new real[m.N + 1, m.N + 1]((_, _) => 0.0);
    TerminalColumns(m, stockPrice, optionPayoff);
    BackwardColumns(m, stockPrice, optionPayoff);

    optionPrice := optionPayoff[0, 0];
    PriceMatrixBackward(m, stockPrice);
    ValueMatrixShape(m, optionPayoff);
  }

  /** The last column of both matrices, as whole-column assignments: the
      node prices S0 * u^(N - row) * d^row (exponent vectors N..0 and 0..N)
      and then their call payoffs. */
  method TerminalColumns(m: Market, stockPrice: array2<real>, optionPayoff: array2<real>)
    requires stockPrice.Length0 == m.N + 1 && stockPrice.Length1 == m.N + 1
    requires optionPayoff.Length0 == m.N + 1 && optionPayoff.Length1 == m.N + 1
    requires stockPrice != optionPayoff
    requires forall i, j :: 0 <= i <= m.N && 0 <= j <= m.N ==> stockPrice[i, j] == 0.0
    requires forall i, j :: 0 <= i <= m.N && 0 <= j <= m.N ==> optionPayoff[i, j] == 0.0
    modifies stockPrice, optionPayoff
    ensures forall i, j :: 0 <= i <= m.N && 0 <= j <= m.N ==>
      stockPrice[i, j] == if j == m.N then Price(m, i, m.N) else 0.0
    ensures forall i, j :: 0 <= i <= m.N && 0 <= j <= m.N ==>
      optionPayoff[i, j] == if j == m.N then Payoff(Price(m, i, m.N), m.K) else 0.0
  {
    var prices := seq(m.N + 1, row requires 0 <= row <= m.N => m.S0 * Pow(m.u, m.N - row) * Pow(m.d, row));
    SetColumn(stockPrice, m.N, prices);
    var payoffs := seq(m.N + 1, row requires 0 <= row <= m.N reads stockPrice => Payoff(stockPrice[row, m.N], m.K));
    SetColumn(optionPayoff, m.N, payoffs);
  }

  /** The descending loop over columns N-1..0: rows 0..col of column col are
      written from column col + 1 only, which is final from then on. */
  method BackwardColumns(m: Market, stockPrice: array2<real>, optionPayoff: array2<real>)
    requires m.u != 0.0 && m.u != m.d
    requires stockPrice.Length0 == m.N + 1 && stockPrice.Length1 == m.N + 1
    requires optionPayoff.Length0 == m.N + 1 && optionPayoff.Length1 == m.N + 1
    requires stockPrice != optionPayoff
    requires forall i, j :: 0 <= i <= m.N && 0 <= j <= m.N ==>
      stockPrice[i, j] == if j == m.N then Price(m, i, m.N) else 0.0
    requires forall i, j :: 0 <= i <= m.N && 0 <= j <= m.N ==>
      optionPayoff[i, j] == if j == m.N then Payoff(Price(m, i, m.N), m.K) else 0.0
    modifies stockPrice, optionPayoff
    ensures forall i, j :: 0 <= i <= m.N && 0 <= j <= m.N ==> stockPrice[i, j] == PriceCell(m, i, j)
    ensures forall i, j :: 0 <= i <= m.N && 0 <= j <= m.N ==> optionPayoff[i, j] == ValueCell(m, i, j)
  {
    for col := m.N downto 0
      invariant forall i, j :: 0 <= i <= m.N && 0 <= j <= m.N ==>
        stockPrice[i, j] == if j >= col then PriceCell(m, i, j) else 0.0
      invariant forall i, j :: 0 <= i <= m.N && 0 <= j <= m.N ==>
        optionPayoff[i, j] == if j >= col then ValueCell(m, i, j) else 0.0
    {
      PriceColumn(m, col, stockPrice);
      ValueColumn(m, col, optionPayoff);
    }
  }

  /** The price slice: column col, rows 0..col, is column col + 1 divided by u. */
  method PriceColumn(m: Market, col: nat, stockPrice: array2<real>)
    requires m.u != 0.0 && col < m.N
    requires stockPrice.Length0 == m.N + 1 && stockPrice.Length1 == m.N + 1
    requires forall i, j :: 0 <= i <= m.N && 0 <= j <= m.N ==>
      stockPrice[i, j] == if j > col then PriceCell(m, i, j) else 0.0
    modifies stockPrice
    ensures forall i, j :: 0 <= i <= m.N && 0 <= j <= m.N ==>
      stockPrice[i, j] == if j >= col then PriceCell(m, i, j) else 0.0
  {
    forall row | 0 <= row <= col
      ensures Price(m, row, col + 1) / m.u == Price(m, row, col)
    {
      PriceFromNextColumn(m, row, col);
    }
    var prices := seq(col + 1, row requires 0 <= row <= col reads stockPrice => stockPrice[row, col + 1] / m.u);
    SetColumn(stockPrice, col, prices);
  }

  /** The value slice: column col, rows 0..col, is the discounted p, q
      average of the two shifted slices of column col + 1, all read before
      any is written. */
  method ValueColumn(m: Market, col: nat, optionPayoff: array2<real>)
    requires m.u != m.d && col < m.N
    requires optionPayoff.Length0 == m.N + 1 && optionPayoff.Length1 == m.N + 1
    requires forall i, j :: 0 <= i <= m.N && 0 <= j <= m.N ==>
      optionPayoff[i, j] == if j > col then ValueCell(m, i, j) else 0.0
    modifies optionPayoff
    ensures forall i, j :: 0 <= i <= m.N && 0 <= j <= m.N ==>
      optionPayoff[i, j] == if j >= col then ValueCell(m, i, j) else 0.0
  {
    var values := seq(col + 1, row requires 0 <= row <= col reads optionPayoff =>
      Rollback(m, optionPayoff[row, col + 1], optionPayoff[row + 1, col + 1]));
    SetColumn(optionPayoff, col, values);
  }
}
