/**
 * The two pricer variants are two strategies for one computation: on the
 * same inputs they return the same price matrix, the same value matrix and
 * the same option price.
 */
module VariantAgreement {
  import opened BinomialLattice
  import NestedLoops
  import NumpyBroadcasting

  method CompareVariants(m: Market)
    returns (loopPrices: array2<real>, loopValues: array2<real>, loopPrice: real,
             slicePrices: array2<real>, sliceValues: array2<real>, slicePrice: real)
    requires m.WellDefined()
    ensures loopPrices.Length0 == slicePrices.Length0 == m.N + 1 && loopPrices.Length1 == slicePrices.Length1 == m.N + 1
    ensures loopValues.Length0 == sliceValues.Length0 == m.N + 1 && loopValues.Length1 == sliceValues.Length1 == m.N + 1
    ensures forall row, col :: 0 <= row <= m.N && 0 <= col <= m.N ==>
      loopPrices[row, col] == slicePrices[row, col] && loopValues[row, col] == sliceValues[row, col]
    ensures loopPrice == slicePrice
  {
    loopPrices, loopValues, loopPrice := NestedLoops.BinomialOptionPricing(m);
    slicePrices, sliceValues, slicePrice := NumpyBroadcasting.BinomialOptionPricing(m);
  }
}
