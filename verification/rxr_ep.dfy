/**
 * The EFA RDM endpoint (`struct rxr_ep`) and its receive operation
 * entries (`struct rxr_op_entry` used as an rx entry), reduced to the
 * state that the resource-management checks and the rx-entry release
 * touch. Each intrusive list is a sequence of entry handles; which pool,
 * queue or entry a packet entry currently belongs to is a map from packet
 * handle to owner.
 */
module RxrEp {
  import opened RxrDefs
  import opened Lists
  import opened RxrRm

  type EntryId = nat
  type PktId = nat
  type PeerId = nat

  /** Operation-entry states; an entry in `OpFree` is back in the entry pool. */
  datatype OpState = OpFree | TxReq | OpSend | RxInit | RxUnexp | RxMatched | OpRecv

  /** Who holds a packet entry: its pool, the device (posted), or an operation entry's queue. */
  datatype PktOwner = Pooled | Posted | QueuedOn(entry: EntryId)

  /** RXR_OP_ENTRY_QUEUED_CTRL is set: the entry is on the queued-control list. */
  predicate HasQueuedCtrl(rxrFlags: bv64) {
    rxrFlags & RxrOpEntryQueuedCtrl != 0
  }

  /** RXR_EOR_IN_FLIGHT is set: the entry's EOR packet has not completed yet. */
  predicate EorInFlight(rxrFlags: bv64) {
    rxrFlags & RxrEorInFlight != 0
  }

  class RxEntry {
    /** The entry's handle: the node that the endpoint's lists link. */
    const id: EntryId
    /** `rx_entry->peer`, absent when the peer record is gone. */
    var peer: Option<PeerId>
    var rxrFlags: bv64
    var state: OpState
    /** `rx_entry->queued_pkts`: packets waiting to be re-sent after an RNR. */
    var queuedPkts: seq<PktId>

    constructor (id: EntryId, peer: Option<PeerId>, state: OpState)
      ensures this.id == id && this.peer == peer && this.state == state
      ensures rxrFlags == 0 && queuedPkts == []
    {
      this.id := id;
      this.peer := peer;
      this.state := state;
      rxrFlags := 0;
      queuedPkts := [];
    }
  }

  class Endpoint {
    /** Resource-management flags (`rm_full`). */
    var rmFull: bv64
    /** `rx_entry_list`: every allocated rx entry, for cleanup at close. */
    var rxEntryList: seq<EntryId>
    /** Each peer's list of rx entries that refer to it. */
    var peerRxEntryLists: map<PeerId, seq<EntryId>>
    /** `op_entry_queued_rnr_list`: entries with packets queued after an RNR. */
    var queuedRnrList: seq<EntryId>
    /** `op_entry_queued_ctrl_list`: entries with a queued control packet. */
    var queuedCtrlList: seq<EntryId>
    /** Owner of every packet entry. */
    var pktOwner: map<PktId, PktOwner>
    /** Entries returned to the operation-entry pool. */
    var freeOpEntries: set<EntryId>

    /** A node is linked into each list at most once. */
    ghost predicate Valid()
      reads this
    {
      && NoDup(rxEntryList)
      && NoDup(queuedRnrList)
      && NoDup(queuedCtrlList)
      && forall q :: q in peerRxEntryLists ==> NoDup(peerRxEntryLists[q])
    }

    /** An endpoint as opened: nothing allocated, nothing queued, no queue full. */
    constructor Open()
      ensures Valid()
      ensures rmFull == 0
      ensures rxEntryList == [] && queuedRnrList == [] && queuedCtrlList == []
      ensures peerRxEntryLists == map[] && pktOwner == map[] && freeOpEntries == {}
    {
      rmFull := 0;
      rxEntryList, queuedRnrList, queuedCtrlList := [], [], [];
      peerRxEntryLists, pktOwner, freeOpEntries := map[], map[], {};
    }

    /**
     * `rxr_rm_rx_cq_check`, as one atomic step: record whether the RX
     * completion queue is full (`cqFull`, the answer of `ofi_cirque_isfull`)
     * in the RX bit of `rm_full`.
     */
    method RmRxCqCheck(cqFull: bool)
      modifies this`rmFull
      ensures rmFull == RxCqChecked(old(rmFull), cqFull)
      ensures IsRxResFull(rmFull) != 0 <==> cqFull
      ensures IsTxResFull(rmFull) == IsTxResFull(old(rmFull))
    {
      if cqFull {
        rmFull := rmFull | RmRxCqFull;
      } else {
        rmFull := rmFull & !RmRxCqFull;
      }
      ChecksAreIndependent(old(rmFull), cqFull);
    }

    /** `rxr_rm_tx_cq_check`: the same for the TX completion queue and the TX bit. */
    method RmTxCqCheck(cqFull: bool)
      modifies this`rmFull
      ensures rmFull == TxCqChecked(old(rmFull), cqFull)
      ensures IsTxResFull(rmFull) != 0 <==> cqFull
      ensures IsRxResFull(rmFull) == IsRxResFull(old(rmFull))
    {
      if cqFull {
        rmFull := rmFull | RmTxCqFull;
      } else {
        rmFull := rmFull & !RmTxCqFull;
      }
      ChecksAreIndependent(old(rmFull), cqFull);
    }

    /**
     * `rxr_pkt_entry_release_tx`, reduced to its effect on ownership: the
     * packet goes back to its pool. A packet already in its pool is never
     * released again.
     */
    method ReleasePktTx(p: PktId)
      requires p in pktOwner && pktOwner[p] != Pooled
      modifies this`pktOwner
      ensures pktOwner == old(pktOwner)[p := Pooled]
    {
      pktOwner := pktOwner[p := Pooled];
    }

    /**
     * The packet step of `rxr_release_rx_entry`: when packets are queued on
     * the entry, release each one to its pool, then splice the entry out of
     * the RNR list. Each packet is still queued on the entry when its turn
     * comes, so none is released twice, and no packet off the list moves.
     */
    method ReleaseQueuedPkts(rx: RxEntry)
      requires NoDup(queuedRnrList)
      requires NoDup(rx.queuedPkts)
      requires forall p :: p in rx.queuedPkts ==> p in pktOwner && pktOwner[p] == QueuedOn(rx.id)
      modifies this`pktOwner, this`queuedRnrList
      ensures NoDup(queuedRnrList)
      ensures queuedRnrList ==
        if |rx.queuedPkts| > 0 then Unlink(old(queuedRnrList), rx.id) else old(queuedRnrList)
      ensures pktOwner.Keys == old(pktOwner).Keys
      ensures forall p :: p in rx.queuedPkts ==> pktOwner[p] == Pooled
      ensures forall p :: p in old(pktOwner) && p !in rx.queuedPkts ==> pktOwner[p] == old(pktOwner)[p]
      ensures old(forall p :: p in pktOwner && pktOwner[p] == QueuedOn(rx.id) ==> p in rx.queuedPkts)
        ==> forall p :: p in pktOwner ==> pktOwner[p] != QueuedOn(rx.id)
    {
      var pkts := rx.queuedPkts;
      if |pkts| > 0 {
        var i := 0;
        while i < |pkts|
          modifies this`pktOwner
          invariant 0 <= i <= |pkts|
          invariant pktOwner.Keys == old(pktOwner).Keys
          invariant forall j :: 0 <= j < i ==> pktOwner[pkts[j]] == Pooled
          invariant forall j :: i <= j < |pkts| ==> pktOwner[pkts[j]] == QueuedOn(rx.id)
          invariant forall p :: p in old(pktOwner) && p !in pkts[..i] ==> pktOwner[p] == old(pktOwner)[p]
        {
          ReleasePktTx(pkts[i]);
          i := i + 1;
        }
        assert pkts[..i] == pkts;
        queuedRnrList := Unlink(queuedRnrList, rx.id);
      }
    }

    /**
     * `rxr_release_rx_entry`: unlink the entry from its peer's list (when it
     * has a peer) and from the endpoint's tracking list, release every packet
     * still queued on it and, if there were any, unlink it from the RNR list;
     * unlink it from the control list when RXR_OP_ENTRY_QUEUED_CTRL is set;
     * mark it free and return it to the entry pool. An entry whose EOR packet
     * is still in flight must not be released.
     */
    method ReleaseRxEntry(rx: RxEntry)
      requires Valid()
      requires rx.id !in freeOpEntries
      requires !EorInFlight(rx.rxrFlags)
      requires rx.peer.Some? ==> rx.peer.value in peerRxEntryLists
      requires NoDup(rx.queuedPkts)
      requires forall p :: p in rx.queuedPkts ==> p in pktOwner && pktOwner[p] == QueuedOn(rx.id)
      modifies this`peerRxEntryLists, this`rxEntryList, this`pktOwner, this`queuedRnrList
      modifies this`queuedCtrlList, this`freeOpEntries, rx`state
      ensures Valid()
      // the lists, each with only this entry spliced out
      ensures rxEntryList == Unlink(old(rxEntryList), rx.id)
      ensures peerRxEntryLists ==
        if old(rx.peer).Some?
        then old(peerRxEntryLists)[old(rx.peer).value := Unlink(old(peerRxEntryLists)[old(rx.peer).value], rx.id)]
        else old(peerRxEntryLists)
      ensures queuedRnrList ==
        if |old(rx.queuedPkts)| > 0 then Unlink(old(queuedRnrList), rx.id) else old(queuedRnrList)
      ensures queuedCtrlList ==
        if HasQueuedCtrl(old(rx.rxrFlags)) then Unlink(old(queuedCtrlList), rx.id) else old(queuedCtrlList)
      // every queued packet is back in its pool; no other packet moved
      ensures pktOwner.Keys == old(pktOwner).Keys
      ensures forall p :: p in old(rx.queuedPkts) ==> pktOwner[p] == Pooled
      ensures forall p :: p in old(pktOwner) && p !in old(rx.queuedPkts) ==> pktOwner[p] == old(pktOwner)[p]
      // the entry is free and back in its pool
      ensures rx.state == OpFree
      ensures freeOpEntries == old(freeOpEntries) + {rx.id}
      // with consistent links, nothing is left dangling
      // (the code that links an entry keeps each precondition below: it is on
      // the RNR list only with packets queued, on the control list only with
      // RXR_OP_ENTRY_QUEUED_CTRL set, on a peer's list only if that is its
      // peer, and every packet queued on it is in its `queued_pkts`)
      ensures rx.id !in rxEntryList
      ensures old(forall q :: q in peerRxEntryLists && rx.id in peerRxEntryLists[q] ==> rx.peer == Some(q))
        ==> forall q :: q in peerRxEntryLists ==> rx.id !in peerRxEntryLists[q]
      ensures old(rx.id in queuedRnrList ==> |rx.queuedPkts| > 0) ==> rx.id !in queuedRnrList
      ensures old(rx.id in queuedCtrlList ==> HasQueuedCtrl(rx.rxrFlags)) ==> rx.id !in queuedCtrlList
      ensures old(forall p :: p in pktOwner && pktOwner[p] == QueuedOn(rx.id) ==> p in rx.queuedPkts)
        ==> forall p :: p in pktOwner ==> pktOwner[p] != QueuedOn(rx.id)
    {
      if rx.peer.Some? {
        var q := rx.peer.value;
        peerRxEntryLists := peerRxEntryLists[q := Unlink(peerRxEntryLists[q], rx.id)];
      }

      rxEntryList := Unlink(rxEntryList, rx.id);

      ReleaseQueuedPkts(rx);

      if HasQueuedCtrl(rx.rxrFlags) {
        queuedCtrlList := Unlink(queuedCtrlList, rx.id);
      }

      rx.state := OpFree;
      freeOpEntries := freeOpEntries + {rx.id};
    }
  }
}
