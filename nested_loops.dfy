/**
 * The nested-loop variant of the pricer: the price matrix is filled cell by
 * cell from the closed-form node price, the last column of the value
 * matrix is set to the call payoff, and a descending sweep over the columns
 * fills each node from its two successors in the next column.
 */
module NestedLoops {
  import opened BinomialLattice
  import opened ColumnSlices

  /** Prices a European call on an N-step lattice.  Both returned matrices
      are (N+1) x (N+1) and hold the price and value lattices cell by cell
      (zero below the diagonal); the option price is the value at the root,
      unrounded. */
  method BinomialOptionPricing(m: Market)
    returns (stockPrice: array2<real>, optionPayoff: array2<real>, optionPrice: real)
    requires m.WellDefined()
    ensures fresh(stockPrice) && fresh(optionPayoff)
    ensures stockPrice.Length0 == m.N + 1 && stockPrice.Length1 == m.N + 1
    ensures optionPayoff.Length0 == m.N + 1 && optionPayoff.Length1 == m.N + 1
    // both matrices are the lattices, cell by cell
    ensures forall row, col :: 0 <= row <= m.N && 0 <= col <= m.N ==>
      stockPrice[row, col] == PriceCell(m, row, col) && optionPayoff[row, col] == ValueCell(m, row, col)
    ensures optionPrice == optionPayoff[0, 0] == Value(m, 0, 0)
    // ... which is: node prices on and above the diagonal, zeros below it,
    // the call payoff in the last column and rollbacks everywhere before it
    ensures forall row, col :: 0 <= row <= col <= m.N ==> stockPrice[row, col] == Price(m, row, col)
    ensures forall row, col :: 0 <= col < row <= m.N ==> stockPrice[row, col] == 0.0
    ensures forall row :: 0 <= row <= m.N ==> optionPayoff[row, m.N] == Payoff(stockPrice[row, m.N], m.K)
    ensures forall row, col :: 0 <= row <= col < m.N ==>
      optionPayoff[row, col] == Rollback(m, optionPayoff[row, col + 1], optionPayoff[row + 1, col + 1])
    ensures forall row, col :: 0 <= col < row <= m.N ==> optionPayoff[row, col] == 0.0
  {
    stockPrice := new real[m.N + 1, m.N + 1]((_, _) => 0.0);
    FillStockPrices(m, stockPrice);

    optionPayoff := new real[m.N + 1, m.N + 1]((_, _) => 0.0);
    TerminalPayoff(m, stockPrice, optionPayoff);
    BackwardInduction(m, optionPayoff);

    optionPrice := optionPayoff[0, 0];
    ValueMatrixShape(m, optionPayoff);
  }

  /** The first nested loop: for each column, rows 0..col get the
      closed-form node price; the cells below the diagonal keep their 0. */
  method FillStockPrices(m: Market, stockPrice: array2<real>)
    requires stockPrice.Length0 == m.N + 1 && stockPrice.Length1 == m.N + 1
    requires forall i, j :: 0 <= i <= m.N && 0 <= j <= m.N ==> stockPrice[i, j] == 0.0
    modifies stockPrice
    ensures forall i, j :: 0 <= i <= m.N && 0 <= j <= m.N ==> stockPrice[i, j] == PriceCell(m, i, j)
  {
    for col := 0 to m.N + 1
      invariant forall i, j :: 0 <= i <= m.N && 0 <= j <= m.N ==>
        stockPrice[i, j] == if j < col then PriceCell(m, i, j) else 0.0
    {
      for row := 0 to col + 1
        invariant forall i, j :: 0 <= i <= m.N && 0 <= j <= m.N ==>
          stockPrice[i, j] == if j < col || (j == col && i < row) then PriceCell(m, i, j) else 0.0
      {
        stockPrice[row, col] := m.S0 * Pow(m.u, col - row) * Pow(m.d, row);
      }
    }
  }

  /** The payoff floor max(0, price - K) applied to the whole last column,
      as one column-slice assignment. */
  method TerminalPayoff(m: Market, stockPrice: array2<real>, optionPayoff: array2<real>)
    requires stockPrice.Length0 == m.N + 1 && stockPrice.Length1 == m.N + 1
    requires optionPayoff.Length0 == m.N + 1 && optionPayoff.Length1 == m.N + 1
    requires stockPrice != optionPayoff
    requires forall i, j :: 0 <= i <= m.N && 0 <= j <= m.N ==> stockPrice[i, j] == PriceCell(m, i, j)
    requires forall i, j :: 0 <= i <= m.N && 0 <= j <= m.N ==> optionPayoff[i, j] == 0.0
    modifies optionPayoff
    ensures forall i, j :: 0 <= i <= m.N && 0 <= j <= m.N ==>
      optionPayoff[i, j] == if j == m.N then Payoff(Price(m, i, m.N), m.K) else 0.0
  {
    var payoffs := seq(m.N + 1, row requires 0 <= row <= m.N reads stockPrice => Payoff(stockPrice[row, m.N], m.K));
    SetColumn(optionPayoff, m.N, payoffs);
  }

  /** The descending nested loop: once the last column holds the payoffs,
      columns N-1 down to 0 are filled row by row from the finished column
      to their right; each column is final once its iteration ends. */
  method BackwardInduction(m: Market, optionPayoff: array2<real>)
    requires m.u != m.d
    requires optionPayoff.Length0 == m.N + 1 && optionPayoff.Length1 == m.N + 1
    requires forall i, j :: 0 <= i <= m.N && 0 <= j <= m.N ==>
      optionPayoff[i, j] == if j == m.N then Payoff(Price(m, i, m.N), m.K) else 0.0
    modifies optionPayoff
    ensures forall i, j :: 0 <= i <= m.N && 0 <= j <= m.N ==> optionPayoff[i, j] == ValueCell(m, i, j)
  {
    for col := m.N downto 0
      invariant forall i, j :: 0 <= i <= m.N && 0 <= j <= m.N ==>
        optionPayoff[i, j] == if j >= col then ValueCell(m, i, j) else 0.0
    {
      for row := 0 to col + 1
        invariant forall i, j :: 0 <= i <= m.N && 0 <= j <= m.N ==>
          optionPayoff[i, j] == if j > col || (j == col && i < row) then ValueCell(m, i, j) else 0.0
      {
        optionPayoff[row, col] := Rollback(m, optionPayoff[row, col + 1], optionPayoff[row + 1, col + 1]);
      }
    }
  }
}
