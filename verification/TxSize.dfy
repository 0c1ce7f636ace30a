/** packages/utils/src/index.ts: the size estimate of a transaction. */
module TxSize {

  function TxSizeCalculator(inflowNum: nat, outflowNum: nat, crossLayerOutflowNum: nat, hasSwap: bool,
                            noMemo: bool): nat {
    1 + inflowNum * 32 + inflowNum * 32
    + 1 + outflowNum * 32 + outflowNum * 1
    + crossLayerOutflowNum * 20 + crossLayerOutflowNum * 32 + crossLayerOutflowNum * 20
    + crossLayerOutflowNum * 32 + crossLayerOutflowNum * 32 + crossLayerOutflowNum * 32
    + 1 + (if hasSwap then 32 else 0) + (if noMemo then 0 else 81) + 256
  }
}
