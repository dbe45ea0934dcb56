/**
 * Resource management: the endpoint's `rm_full` word records, one bit per
 * direction, whether the completion queue was full at its last check.
 * Senders test the bits (`is_tx_res_full`, `is_rx_res_full`) and fail fast
 * while one is set; each check re-derives its bit from what it observed.
 */
module RxrRm {
  import opened RxrDefs

  /** `is_tx_res_full`: nonzero exactly when the TX-CQ-full bit (bit 0) is set. */
  function IsTxResFull(rmFull: bv64): (r: bv64)
    ensures r != 0 <==> rmFull & 1 == 1
    ensures r == 0 || r == RmTxCqFull
  {
    rmFull & RmTxCqFull
  }

  /** `is_rx_res_full`: nonzero exactly when the RX-CQ-full bit (bit 1) is set. */
  function IsRxResFull(rmFull: bv64): (r: bv64)
    ensures r != 0 <==> (rmFull >> 1) & 1 == 1
    ensures r == 0 || r == RmRxCqFull
  {
    rmFull & RmRxCqFull
  }

  /**
   * `rm_full` after `rxr_rm_rx_cq_check` observed the RX completion queue
   * full (`cqFull`) or not: the RX bit records the observation and every
   * other bit is kept.
   */
  function RxCqChecked(rmFull: bv64, cqFull: bool): (r: bv64)
    ensures IsRxResFull(r) != 0 <==> cqFull
    ensures r & !RmRxCqFull == rmFull & !RmRxCqFull
  {
    if cqFull then rmFull | RmRxCqFull else rmFull & !RmRxCqFull
  }

  /** `rm_full` after `rxr_rm_tx_cq_check`, symmetrically for the TX bit. */
  function TxCqChecked(rmFull: bv64, cqFull: bool): (r: bv64)
    ensures IsTxResFull(r) != 0 <==> cqFull
    ensures r & !RmTxCqFull == rmFull & !RmTxCqFull
  {
    if cqFull then rmFull | RmTxCqFull else rmFull & !RmTxCqFull
  }

  /** `is_tx_res_full` looks at bit 0 only: words that agree there agree on it. */
  lemma TxResFullOnlyBit0(a: bv64, b: bv64)
    requires a & 1 == b & 1
    ensures IsTxResFull(a) == IsTxResFull(b)
  {
  }

  /** `is_rx_res_full` looks at bit 1 only. */
  lemma RxResFullOnlyBit1(a: bv64, b: bv64)
    requires a & 2 == b & 2
    ensures IsRxResFull(a) == IsRxResFull(b)
  {
  }

  /**
   * The flags are not sticky: after a second check of the same queue the
   * bit reflects the second observation only, and the other bits are still
   * those from before the first check.
   */
  lemma LatestRxCheckWins(rmFull: bv64, first: bool, second: bool)
    ensures IsRxResFull(RxCqChecked(RxCqChecked(rmFull, first), second)) != 0 <==> second
    ensures RxCqChecked(RxCqChecked(rmFull, first), second) & !RmRxCqFull == rmFull & !RmRxCqFull
  {
  }

  lemma LatestTxCheckWins(rmFull: bv64, first: bool, second: bool)
    ensures IsTxResFull(TxCqChecked(TxCqChecked(rmFull, first), second)) != 0 <==> second
    ensures TxCqChecked(TxCqChecked(rmFull, first), second) & !RmTxCqFull == rmFull & !RmTxCqFull
  {
  }

  /** A check of one queue leaves the other direction's verdict alone. */
  lemma ChecksAreIndependent(rmFull: bv64, cqFull: bool)
    ensures IsTxResFull(RxCqChecked(rmFull, cqFull)) == IsTxResFull(rmFull)
    ensures IsRxResFull(TxCqChecked(rmFull, cqFull)) == IsRxResFull(rmFull)
  {
  }
}
