# Binomial option pricing, modelled in Dafny

The repository prices a European call option on a recombining binomial
lattice (Cox-Ross-Rubinstein style). `binomial_option_pricing` exists in two
variants that return the same three things: an `(N+1) x (N+1)` matrix of
asset prices, an `(N+1) x (N+1)` matrix of option values, and the option
price at the root.

- `Method_1_Nested_Loops.py` fills the price matrix cell by cell from the
  closed form `S0 * u^(col-row) * d^row`. It then writes the call payoff
  `max(0, S - K)` into the last column of the value matrix. Finally it sweeps
  the columns `N-1 .. 0` with an inner loop over rows `0 .. col`. Each node
  becomes the discounted risk-neutral average `disc * (p * up + q * down)` of
  its two successors in the next column.
- `Method_2_Numpy_Broadcasting.py` computes only the last price column in
  closed form. It writes the payoff column, then makes one descending pass
  over the columns. In that pass each earlier price column is the next one
  divided by `u`, and each earlier value column is the same rollback applied
  to the whole slice `0 .. col` at once.

In both matrices a cell `(row, col)` is a node of the tree only when
`row <= col`. The cells below the diagonal are never written and stay 0.

The model has these modules:

- `BinomialLattice` (`lattice.dfy`) holds the pricer's inputs, `Market`, and
  the specification functions:
  - `Price`: the node price of `Method_1_Nested_Loops.py:18`. Its properties are
    the lemmas `PriceSuccessors`, `PriceMatrixShape` and `PriceFromNextColumn`;
  - `Payoff`: the call payoff;
  - `Rollback`: one backward step, the loop body of
    `Method_1_Nested_Loops.py:29-31`. Its properties are the lemmas
    `RollbackShift`, `RollbackMonotone`, `RollbackNonNegative` and
    `RollbackIgnoresStrike`;
  - `Value`: the option value by backward induction over node coordinates;
  - `PriceCell` and `ValueCell`: the full matrices, zero below the diagonal.

  It also holds the lemmas about these functions: the risk-neutral
  identities, the price recurrence, non-negativity, monotonicity in the
  strike and the no-arbitrage bounds.
- `BinomialExpectation` (`closed_form.dfy`) is an independent reference
  definition of the value. It is the discounted expectation of the terminal
  payoff under the binomial distribution of down-moves. The module proves
  that backward induction computes exactly this expectation.
- `ColumnSlices` (`slices.dfy`) models the column-slice assignment
  `a[0:len(v), col] = v`.
- `NestedLoops` (`nested_loops.dfy`) and `NumpyBroadcasting`
  (`broadcasting.dfy`) are the two variants. Each is an imperative method
  over `array2<real>`. Its loop invariants say which columns are final and
  which cells are still zero. Each method is proved against `PriceCell`,
  `ValueCell` and `Value`.
- `VariantAgreement` (`agreement.dfy`) runs both variants on the same inputs
  and proves that they return the same matrices and the same price.

The transcendental and rounding steps are inputs of the model:

- `Market.d` is the down factor the code derives as `round(1/u, 1)`.
- `Market.growth` stands for `exp(r * dt)`.
- `Market.disc` stands for `exp(-r * dt)`.

`Market.P()` is `(growth - d) / (u - d)`, the code's `p`. `Market.Q()` is
`1 - P()`, the code's `q`.

## Model

| member | source | states |
|---|---|---|
| NestedLoops.BinomialOptionPricing | Method_1_Nested_Loops.py:4-35 | Returns fresh `(N+1) x (N+1)` matrices. The price matrix is `PriceCell` and the value matrix is `ValueCell`, cell by cell. As a consequence: closed-form prices on and above the diagonal; zeros below it in both matrices; the payoff of the stored price in the last value column; every earlier value the rollback of its two successors; the returned price `option_payoff[0, 0]`, equal to `Value` at the root |
| NestedLoops.FillStockPrices | Method_1_Nested_Loops.py:16-18 | The column-by-column, row `0..col` loop leaves every cell equal to `PriceCell`. Cells with `row > col` keep their initial 0 |
| NestedLoops.TerminalPayoff | Method_1_Nested_Loops.py:24 | The last value column becomes `max(0, price - K)` of the last price column. Every other cell is untouched |
| NestedLoops.BackwardInduction | Method_1_Nested_Loops.py:27-31 | The descending sweep turns a matrix holding only the payoff column into `ValueCell`. The invariant says every column `>= col` is final and every earlier cell is still 0. All successor reads stay in bounds |
| NumpyBroadcasting.BinomialOptionPricing | Method_2_Numpy_Broadcasting.py:3-32 | The same contract as the nested-loop variant. In addition, each price cell before maturity is the next column's cell divided by `u` |
| NumpyBroadcasting.TerminalColumns | Method_2_Numpy_Broadcasting.py:16-19 | The last price column gets `S0 * u^(N-row) * d^row` and the last value column its payoff. Everything else stays 0 |
| NumpyBroadcasting.BackwardColumns | Method_2_Numpy_Broadcasting.py:22-28 | The descending column loop yields `PriceCell` and `ValueCell`. At each step every column `>= col` is final and every earlier cell is still 0 |
| NumpyBroadcasting.PriceColumn | Method_2_Numpy_Broadcasting.py:24 | The slice `0..col` of column `col`, set to column `col + 1` divided by `u`, equals the closed-form prices of that column |
| NumpyBroadcasting.ValueColumn | Method_2_Numpy_Broadcasting.py:26-28 | The slice update, with the shifted slices `0:col+1` and `1:col+2` of column `col + 1` read before any write, makes column `col` equal `ValueCell` |
| ColumnSlices.SetColumn | Method_2_Numpy_Broadcasting.py:24 | Models every column-slice assignment: `Method_2_Numpy_Broadcasting.py` lines 16, 19, 24 and 26-28, and `Method_1_Nested_Loops.py` line 24. A column-slice assignment writes exactly the first `len(values)` cells of one column and leaves all others unchanged |
| VariantAgreement.CompareVariants | Method_2_Numpy_Broadcasting.py:3-32 | On the same inputs the two variants return equal price matrices, equal value matrices and equal option prices |
| BinomialLattice.Market.P | Method_1_Nested_Loops.py:9 | The up-probability `p = (growth - d) / (u - d)` is the weight under which `p * u + (1 - p) * d` equals the growth factor |
| BinomialLattice.Market.Q | Method_1_Nested_Loops.py:10 | The down-probability `q = 1 - p` is the weight under which `(1 - q) * u + q * d` equals the growth factor |
| BinomialLattice.Value | Method_1_Nested_Loops.py:24-31 | The backward-induction value of a node. With `0 <= p <= 1` and `disc >= 0` it is `>= 0` at every node, proved from the same property of its two successors |
| BinomialLattice.Market.WithStrike | Method_1_Nested_Loops.py:4 | Changing the strike changes no other input |
| BinomialLattice.Pow | Method_1_Nested_Loops.py:18 | `x ** n` is non-negative for a non-negative base and positive for a positive base |
| BinomialLattice.Payoff | Method_1_Nested_Loops.py:24 | `max(0, s - K)` is at least 0, at least `s - K`, and equal to one of the two |
| BinomialLattice.PriceMatrixShape | Method_1_Nested_Loops.py:13-18 | A matrix holding `PriceCell` has `S0 * u^(col-row) * d^row` on and above the diagonal and 0 below it |
| BinomialLattice.PriceMatrixBackward | Method_2_Numpy_Broadcasting.py:24 | In a matrix holding `PriceCell`, every node before maturity is its up-successor divided by `u` |
| BinomialLattice.ValueMatrixShape | Method_1_Nested_Loops.py:21-31 | A matrix holding `ValueCell` has the payoff in its last column, the rollback of the two successors in every earlier node, and 0 below the diagonal |
| BinomialLattice.RiskNeutral | Method_1_Nested_Loops.py:9-10 | `p + q = 1`, and `p * u + q * d` equals the growth factor |
| BinomialLattice.PriceSuccessors | Method_1_Nested_Loops.py:18 | A node's successors cost `u` times and `d` times its own price |
| BinomialLattice.PriceFromNextColumn | Method_2_Numpy_Broadcasting.py:24 | Dividing the up-successor's price by `u` gives the node's closed-form price back, which makes the two variants' price matrices agree |
| BinomialLattice.DiscountedPriceMartingale | Method_1_Nested_Loops.py:9-10 | When `disc * growth = 1`, rolling back the two successor prices gives the node price |
| BinomialLattice.RollbackShift | Method_1_Nested_Loops.py:29-31 | Rolling back two values lowered by `f` gives the rollback lowered by `disc * f` |
| BinomialLattice.RollbackAboveShifted | Method_1_Nested_Loops.py:29-31 | Successor values at least `f` above two others roll back to at least `disc * f` above their rollback |
| BinomialLattice.RollbackMonotone | Method_1_Nested_Loops.py:29-31 | With `0 <= p <= 1` and `disc >= 0`, the rollback is monotone in both successor values |
| BinomialLattice.RollbackNonNegative | Method_1_Nested_Loops.py:29-31 | With `0 <= p <= 1` and `disc >= 0`, the rollback of two non-negative values is non-negative |
| BinomialLattice.RollbackIgnoresStrike | Method_1_Nested_Loops.py:29-31 | The strike plays no part in a rollback step |
| BinomialLattice.ValueAntitoneInStrike | Method_1_Nested_Loops.py:24-33 | When `0 <= p <= 1` and `disc >= 0`, raising `K` never raises any node value, the price at `(0, 0)` included |
| BinomialLattice.StrikeMonotonicityNeedsProbabilities | Method_1_Nested_Loops.py:9 | Without `0 <= p <= 1` strike monotonicity fails: for `u = 1.1`, `d = 0.9`, growth `0.8` and `N = 1`, `p = -0.5`, and raising `K` from 95 to 100 raises the root value from -9.375 to -6.25 |
| BinomialLattice.ValueAtMostPrice | Method_1_Nested_Loops.py:24-31 | When `0 <= p <= 1`, `disc >= 0`, `disc * growth = 1` and `S0`, `u`, `d` and `K` are non-negative, a call is never worth more than its underlying |
| BinomialLattice.ValueAtLeastForwardIntrinsic | Method_1_Nested_Loops.py:24-31 | When `0 <= p <= 1`, `disc >= 0` and `disc * growth = 1`, a call is worth at least the price minus the strike discounted over the steps left |
| BinomialExpectation.Choose | Method_1_Nested_Loops.py:27-31 | The binomial coefficient is non-negative |
| BinomialExpectation.ChooseAbove | Method_1_Nested_Loops.py:27-31 | `C(n, k) = 0` when `k > n` |
| BinomialExpectation.WeightUnfold | Method_1_Nested_Loops.py:27-31 | The path weight of `k` down-moves in `n` steps splits by the last step into `p` and `q` parts |
| BinomialExpectation.BinomialPascal | Method_1_Nested_Loops.py:27-31 | The closed-form probability `C(n,k) p^(n-k) q^k` satisfies the same last-step split |
| BinomialExpectation.WeightInterior | Method_1_Nested_Loops.py:27-31 | Path weight and closed-form probability agree at an interior node once they agree one step earlier |
| BinomialExpectation.WeightIsBinomial | Method_1_Nested_Loops.py:27-31 | The weight the recurrence accumulates on the node `k` down-moves away is `C(n,k) p^(n-k) q^k` |
| BinomialExpectation.SumPascal | Method_1_Nested_Loops.py:27-31 | A sum of Pascal-combined terms is `p` times the sum of the up-terms plus `q` times the sum of the shifted down-terms |
| BinomialExpectation.TermPascal | Method_1_Nested_Loops.py:27-31 | Each term of the expectation `h + 1` steps ahead is the Pascal combination of the terms `h` steps ahead of the two successors |
| BinomialExpectation.TermsArePascal | Method_1_Nested_Loops.py:27-31 | The whole term sequence `h + 1` steps ahead is that Pascal combination |
| BinomialExpectation.MixStep | Method_1_Nested_Loops.py:27-31 | Averaging the successors' expectations with weights `p`, `q` gives the expectation one step further back |
| BinomialExpectation.ExpectationNow | Method_1_Nested_Loops.py:24 | With no steps left, the expectation is the node's own payoff |
| BinomialExpectation.ExpectationStep | Method_1_Nested_Loops.py:29-31 | The risk-neutral average of the successors' expectations `h` steps ahead is the node's expectation `h + 1` steps ahead |
| BinomialExpectation.DiscountedStep | Method_1_Nested_Loops.py:29-31 | The discounted expectation obeys the backward recurrence of the code |
| BinomialExpectation.ValueIsClosedForm | Method_1_Nested_Loops.py:24-31 | Backward induction computes, at every node, the discounted expected terminal payoff over the remaining steps |
| BinomialExpectation.RootExpectation | Method_1_Nested_Loops.py:24-33 | At the root, that expectation is the sum over `k = 0..N` of `C(N,k) p^(N-k) q^k` times the payoff `k` down-moves down |
| BinomialExpectation.RootTerm | Method_1_Nested_Loops.py:24-33 | The sum agrees with the binomial formula term by term |
| BinomialExpectation.OptionPriceIsBinomialPrice | Method_1_Nested_Loops.py:33 | The returned price `option_payoff[0, 0]` equals `disc^N * sum_k C(N,k) p^(N-k) q^k max(0, S0 u^(N-k) d^k - K)` |

## Left out

- The demo harness with its example inputs and `print` calls (`Method_1_Nested_Loops.py:38-79`, `Method_2_Numpy_Broadcasting.py:34-51`). It is I/O and is not modelled.
- `exp(r * dt)` and `exp(-r * dt)`: Dafny has no exponential. The model takes the two one-step factors as the inputs `growth` and `disc`, so `T`, `r` and `dt = T / N` do not appear. The bounds lemmas assume `disc * growth = 1` where they need it.
- `d = round(1/u, 1)`: decimal rounding is not modelled. `d` is an input, and nothing in the model assumes `d = 1/u`.
- `.round(3)` on the returned price: the returned price is `option_payoff[0, 0]` unrounded.
- `u` is modelled as a real number, that is, a Python float. The code also accepts an integer `u`. Method 1 then computes `u**(col-row)` with Python's unbounded integers. Method 2 computes `u**np.arange(N, -1, -1)` in NumPy's 64-bit integers (`Method_2_Numpy_Broadcasting.py:16`), which wrap around once `u^N >= 2^63` (for example `u = 10, N = 19`, or `u = 2, N = 63`). The last price column then holds wrong, possibly negative, values and the two variants disagree. `VariantAgreement.CompareVariants` does not describe such inputs.
- BinomialLattice.ValueAntitoneInStrike: a rising strike lowers the option value only when `0 <= p <= 1` (and `disc >= 0`). The code never clamps `p` (`Method_1_Nested_Loops.py:9`), so outside that range the property fails. With `u = 1.01` the code's `d = round(1/1.01, 1)` is `1.0`. Take `growth = 1.04`, `disc = 1/1.04`, `N = 2` and `S0 = 100`: then `p = 4`, and raising `K` from 100.2 to 100.8 raises the root value from `9.76/1.04^2` to `14.56/1.04^2`. `StrikeMonotonicityNeedsProbabilities` proves a one-step counterexample of the same kind. `ValueAtMostPrice`, `ValueAtLeastForwardIntrinsic` and the non-negativity of `Value` carry the same hypothesis.
- IEEE-754 behaviour is not modelled: overflow to infinity, NaN, and the different summation order of the two variants. The model computes over exact reals, where the two variants agree exactly.
- NumPy allocation and broadcasting: `np.zeros` is an `array2<real>` filled with 0. An array expression is a Dafny sequence built from the current array contents. A slice assignment is `ColumnSlices.SetColumn`.
- Input errors: the code raises no validation error of its own. `N = 0` fails at `T / N`, `u = 0` fails at `1/u`, and `u = d` makes `p` infinite or NaN. The model makes `N >= 1`, `u != 0` and `u != d` preconditions (`Market.WellDefined`) and does not model a raised error. A dedicated domain error for `u = d` or `N < 1` is a design intention that the code does not implement, so it is left out as well.
- Hoisted `p` and `q`: the code computes `p` and `q` once, before the loops. The model's loop bodies use `Rollback`, which reads them as `Market.P()` and `Market.Q()` (the same formulas). `RiskNeutral` proves `p + q = 1`.
- Row order within a column is not stated as a separate lemma. The nested loop writes rows one at a time, while the slice reads the whole column `col + 1` first. `VariantAgreement.CompareVariants` proves that the two give the same matrices. The bodies of both variants read only column `col + 1` when they fill column `col`; no contract states this separately.
