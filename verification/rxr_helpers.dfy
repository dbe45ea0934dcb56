/**
 * The endpoint's pure decision and sizing helpers. They read attributes
 * that are fixed when the endpoint is opened; those attributes are
 * gathered here in the value record `EpAttrs`.
 */
module RxrHelpers {
  import opened RxrDefs

  /** The memory interface a registered region lives on (`enum fi_hmem_iface`). */
  datatype HmemIface = HmemSystem | HmemCuda | HmemRocr | HmemZe | HmemNeuron | HmemSynapseAi

  /** The endpoint's peer-to-peer policy for device memory (`hmem_p2p_opt`). */
  datatype P2pOpt = P2pEnabled | P2pRequired | P2pPreferred | P2pDisabled

  /** The part of a memory registration (`struct efa_mr`) the p2p decision reads. */
  datatype MemReg = MemReg(iface: HmemIface)

  /** Read-only attributes of an endpoint (fields of `struct rxr_ep`). */
  datatype EpAttrs = EpAttrs(
    rxSize: SizeT,
    txSize: SizeT,
    mtuSize: SizeT,
    coreRxSize: SizeT,
    efaMaxOutstandingTxOps: SizeT,
    maxMsgSize: SizeT,
    maxProtoHdrSize: SizeT,
    caps: bv64,        // base_ep.util_ep.caps
    msgOrder: bv64,    // application's ordering requirements
    hmemP2pOpt: P2pOpt)

  /** C's `MIN` on `size_t`. */
  function Min(a: SizeT, b: SizeT): (r: SizeT)
    ensures r <= a && r <= b
    ensures r == a || r == b
  {
    if a < b then a else b
  }

  /**
   * `rxr_get_rx_pool_chunk_cnt`: the RX packet pool never holds more
   * chunks than either the device's or the application's RX queue depth.
   */
  function RxPoolChunkCnt(ep: EpAttrs): (r: SizeT)
    ensures r <= ep.coreRxSize && r <= ep.rxSize
    ensures r == ep.coreRxSize || r == ep.rxSize
  {
    Min(ep.coreRxSize, ep.rxSize)
  }

  /** `rxr_get_tx_pool_chunk_cnt`: bounded by both the device's outstanding-TX limit and the TX queue depth. */
  function TxPoolChunkCnt(ep: EpAttrs): (r: SizeT)
    ensures r <= ep.efaMaxOutstandingTxOps && r <= ep.txSize
    ensures r == ep.efaMaxOutstandingTxOps || r == ep.txSize
  {
    Min(ep.efaMaxOutstandingTxOps, ep.txSize)
  }

  /**
   * `rxr_need_sas_ordering`: `msg_order & FI_ORDER_SAS`, returned as a C
   * `int`. The bit sits low enough that the conversion keeps it, so the
   * result is nonzero exactly when send-after-send ordering was requested.
   */
  function NeedSasOrdering(msgOrder: bv64): (r: Int32)
    ensures r != 0 <==> msgOrder & FiOrderSas != 0
    ensures r == 0 || r == 0x100
  {
    var v := msgOrder & FiOrderSas;
    assert v & 0xffff_ffff == v && v < 0x8000_0000;
    assert v == 0 ==> v as int == 0;
    assert v != 0 ==> v == 0x100;
    ToCInt(v)
  }

  /** Unsigned `size_t` subtraction, which wraps below zero. */
  function SizeSub(a: SizeT, b: SizeT): (r: SizeT)
    ensures b <= a ==> r == a - b
    ensures a < b ==> r == a - b + SizeMax + 1
  {
    (a - b) % (SizeMax + 1)
  }

  /**
   * `rxr_ep_use_zcpy_rx`: whether received messages can land directly in
   * the application's buffer. `infoMode` is `info->mode`; `envUseZcpyRx`
   * is the `use_zcpy_rx` environment toggle.
   */
  function UseZcpyRx(ep: EpAttrs, infoMode: bv64, envUseZcpyRx: bool): (r: bool)
    // each condition is necessary
    ensures r ==> ep.caps & FiDirectedRecv == 0
    ensures r ==> ep.caps & FiTagged == 0
    ensures r ==> ep.caps & FiAtomic == 0
    ensures r ==> ep.maxMsgSize <= SizeSub(ep.mtuSize, ep.maxProtoHdrSize)
    ensures r ==> SasNotRequested(ep.msgOrder)
    ensures r ==> infoMode & FiMsgPrefix != 0
    ensures r ==> envUseZcpyRx
    // and together they suffice; when the header fits in the MTU the size
    // test is "a largest message plus a header fits in one MTU"
    ensures ep.maxProtoHdrSize <= ep.mtuSize ==>
      (r <==> ep.caps & (FiDirectedRecv | FiTagged | FiAtomic) == 0
              && ep.maxMsgSize + ep.maxProtoHdrSize <= ep.mtuSize
              && SasNotRequested(ep.msgOrder)
              && infoMode & FiMsgPrefix != 0
              && envUseZcpyRx)
  {
    ep.caps & FiDirectedRecv == 0
    && ep.caps & FiTagged == 0
    && ep.caps & FiAtomic == 0
    && ep.maxMsgSize <= SizeSub(ep.mtuSize, ep.maxProtoHdrSize)
    && NeedSasOrdering(ep.msgOrder) == 0
    && infoMode & FiMsgPrefix != 0
    && envUseZcpyRx
  }

  /** The application did not ask for send-after-send ordering. */
  predicate SasNotRequested(msgOrder: bv64) {
    msgOrder & FiOrderSas == 0
  }

  /**
   * With a protocol header longer than the MTU the `size_t` subtraction in
   * the size test wraps. Zero-copy receive is then chosen, when the other
   * conditions hold, for every maximum message size up to the wrapped
   * bound, messages longer than the MTU included, rather than for none.
   */
  lemma ZcpySizeTestWrapsWhenHeaderExceedsMtu(ep: EpAttrs, infoMode: bv64)
    requires ep.mtuSize < ep.maxProtoHdrSize
    requires ep.maxMsgSize <= SizeMax - (ep.maxProtoHdrSize - ep.mtuSize) + 1
    requires ep.caps & (FiDirectedRecv | FiTagged | FiAtomic) == 0
    requires SasNotRequested(ep.msgOrder)
    requires infoMode & FiMsgPrefix != 0
    ensures UseZcpyRx(ep, infoMode, true)
  {
    assert ep.caps & FiDirectedRecv == 0 && ep.caps & FiTagged == 0 && ep.caps & FiAtomic == 0;
    assert NeedSasOrdering(ep.msgOrder) == 0;
  }

  /**
   * `rxr_ep_use_p2p`: 0 (stage through host memory), 1 (transfer
   * device-to-device) or -FI_ENOSYS (fail the transfer), by the
   * endpoint's `hmem_p2p_opt` policy. `mr` is the
   * registration of the buffer, if any; `p2pSupportedByDevice` is the set of
   * interfaces for which the domain's `hmem_info` reports device p2p
   * support.
   */
  function UseP2p(ep: EpAttrs, p2pSupportedByDevice: set<HmemIface>, mr: Option<MemReg>): (r: int)
    ensures r == 0 || r == 1 || r == -FiEnosys
    ensures r == 1 <==>
      mr.Some? && (mr.value.iface == HmemSystem
                   || (mr.value.iface in p2pSupportedByDevice && ep.hmemP2pOpt != P2pDisabled))
    ensures r == -FiEnosys <==>
      mr.Some? && mr.value.iface != HmemSystem
      && mr.value.iface !in p2pSupportedByDevice && ep.hmemP2pOpt == P2pRequired
  {
    if mr.None? then 0
    else if mr.value.iface == HmemSystem then 1
    else if mr.value.iface in p2pSupportedByDevice then
      (if ep.hmemP2pOpt != P2pDisabled then 1 else 0)
    else if ep.hmemP2pOpt == P2pRequired then -FiEnosys
    else 0
  }

  /**
   * Under the REQUIRED policy device memory is never silently staged: the
   * answer is p2p or an error.
   */
  lemma RequiredPolicyNeverStagesDeviceMemory(ep: EpAttrs, supported: set<HmemIface>, mr: MemReg)
    requires ep.hmemP2pOpt == P2pRequired && mr.iface != HmemSystem
    ensures UseP2p(ep, supported, Some(mr)) != 0
  {
  }

  /** Under the DISABLED policy device memory is never sent p2p, and no error is raised. */
  lemma DisabledPolicyStagesDeviceMemory(ep: EpAttrs, supported: set<HmemIface>, mr: MemReg)
    requires ep.hmemP2pOpt == P2pDisabled && mr.iface != HmemSystem
    ensures UseP2p(ep, supported, Some(mr)) == 0
  {
  }

  /** A completion entry from the shared-memory provider (`struct fi_cq_data_entry`). */
  datatype CqDataEntry = CqDataEntry(opContext: nat, flags: bv64, len: SizeT, buf: nat, data: bv64)

  /** A tagged completion entry (`struct fi_cq_tagged_entry`). */
  datatype CqTaggedEntry = CqTaggedEntry(opContext: nat, flags: bv64, len: SizeT, buf: nat, data: bv64, tag: bv64)

  /** The data-entry part of a tagged completion entry. */
  function DataPart(e: CqTaggedEntry): CqDataEntry {
    CqDataEntry(e.opContext, e.flags, e.len, e.buf, e.data)
  }

  /**
   * `rxr_copy_shm_cq_entry`: every field of the output entry is written,
   * the five shared ones from the shm entry and `tag` as 0, so the copy
   * loses nothing of the shm entry and carries no tag.
   */
  function CopyShmCqEntry(shm: CqDataEntry): (r: CqTaggedEntry)
    ensures DataPart(r) == shm
    ensures r.tag == 0
  {
    CqTaggedEntry(shm.opContext, shm.flags, shm.len, shm.buf, shm.data, 0)
  }

  /** Conversely, a tagged entry is the copy of its data part exactly when its tag is 0. */
  lemma CopyShmCqEntryInverse(e: CqTaggedEntry)
    ensures CopyShmCqEntry(DataPart(e)) == e <==> e.tag == 0
  {
  }
}
