# EFA RDM endpoint core (libfabric `prov/efa`, `rxr.h`)

A Dafny model of the inline routines of the EFA provider's RDM endpoint
header `prov/efa/src/rdm/rxr.h`, with proofs of what they guarantee:

- **Resource management.** The endpoint's `rm_full` word keeps one bit per
  completion queue. `rxr_rm_rx_cq_check` and `rxr_rm_tx_cq_check` re-derive
  their bit from whether the queue is full. `is_tx_res_full` and
  `is_rx_res_full` test the bits. The word is a field of the `Endpoint`
  class, updated in place; queue fullness is an input.
- **Releasing an rx entry.** `rxr_release_rx_entry` does the following:
  - unlinks the entry from its peer's list, when it has a peer, and from
    the endpoint's list;
  - when packets are queued on the entry, returns each one to its pool and
    unlinks the entry from the RNR-queued list;
  - when `RXR_OP_ENTRY_QUEUED_CTRL` is set, unlinks the entry from the
    control-queued list;
  - marks the entry free and hands it back to its pool.

  An entry whose EOR packet is still in flight (`RXR_EOR_IN_FLIGHT`) must
  not be released; that is a precondition of the model.

  Each intrusive list is a sequence of entry handles, and `dlist_remove`
  is `Lists.Unlink`. Packet-entry ownership (pool, device, or the queue of
  an operation entry) is a map from packet handle to owner.
- **Pure helpers.** These cover:
  - RX and TX packet-pool chunk counts;
  - the send-after-send ordering test;
  - zero-copy receive eligibility, with `size_t` wrap-around written out;
  - the device peer-to-peer decision;
  - translating a shared-memory completion entry into a tagged one.
- **Poisoning** (`ENABLE_EFA_POISONING`). Words of a buffer are overwritten
  with `0xdeadbeef`. Memory is an array of 32-bit words.
- **RNR backoff constants** and the overflow bound the header promises for
  them.

Modules: `Lists` (`rxr_lists.dfy`), `RxrDefs` (`rxr_defs.dfy`),
`RxrRm` (`rxr_rm.dfy`), `RxrHelpers` (`rxr_helpers.dfy`),
`RxrPoison` (`rxr_poison.dfy`), `RxrEp` (`rxr_ep.dfy`).

The following libfabric constants are not defined in `rxr.h`:
`FI_TAGGED`, `FI_ATOMIC`, `FI_DIRECTED_RECV`, `FI_MSG_PREFIX`,
`FI_ORDER_SAS` (libfabric's `include/rdma/fabric.h`), `FI_ENOSYS`
(`include/rdma/fi_errno.h`), the `fi_hmem_iface` values
(`include/rdma/fi_domain.h`) and the `FI_HMEM_P2P_*` policies
(`include/rdma/fi_endpoint.h`). Those headers are not part of this model;
the model uses their published values.

## Model

| member | source | states |
|---|---|---|
| Lists.Unlink | prov/efa/src/rdm/rxr.h:474-477 | `dlist_remove` of a node. Afterwards the node is off the list and every other node keeps its membership. A node that is not on the list leaves the list unchanged. The list does not grow, and it stays duplicate-free. |
| Lists.UnlinkSplices | prov/efa/src/rdm/rxr.h:474-477 | On a duplicate-free list, removing the node at position i splices it out and keeps the order of the rest. |
| Lists.UnlinkCommutes | prov/efa/src/rdm/rxr.h:474-489 | Removing two entries from the same list gives the same list in either order. |
| RxrDefs.ToCInt | prov/efa/src/rdm/rxr.h:513-516 | Converting a `uint64_t` to the `int` return type keeps any value that fits in 31 bits. |
| RxrDefs.BackoffDoublingFits | prov/efa/src/rdm/rxr.h:107-113 | `RXR_MAX_RNR_BACKOFF_WAIT_TIME_CAP` is below `INT_MAX/2`. Any wait time up to it can be doubled without exceeding `INT_MAX`. |
| RxrDefs.BackoffDefaultsWithinCap | prov/efa/src/rdm/rxr.h:104-117 | The random timeout bounds are ordered and positive, and lie below the default cap. The default cap lies within the largest permitted cap. |
| RxrRm.IsTxResFull | prov/efa/src/rdm/rxr.h:619-622 | The result is nonzero exactly when bit 0 of `rm_full` is set. It is either 0 or `RXR_RM_TX_CQ_FULL`. |
| RxrRm.IsRxResFull | prov/efa/src/rdm/rxr.h:624-627 | The result is nonzero exactly when bit 1 of `rm_full` is set. It is either 0 or `RXR_RM_RX_CQ_FULL`. |
| RxrRm.RxCqChecked | prov/efa/src/rdm/rxr.h:629-637 | After an RX check, `is_rx_res_full` is nonzero exactly when the queue was full. Every other bit of `rm_full` is kept. |
| RxrRm.TxCqChecked | prov/efa/src/rdm/rxr.h:639-647 | After a TX check, `is_tx_res_full` is nonzero exactly when the queue was full. Every other bit is kept. |
| RxrRm.TxResFullOnlyBit0 | prov/efa/src/rdm/rxr.h:619-622 | `is_tx_res_full` depends on bit 0 only. |
| RxrRm.RxResFullOnlyBit1 | prov/efa/src/rdm/rxr.h:624-627 | `is_rx_res_full` depends on bit 1 only. |
| RxrRm.LatestRxCheckWins | prov/efa/src/rdm/rxr.h:629-637 | The RX bit is not sticky. After two checks it reflects the second observation only, and the other bits are those from before the first check. |
| RxrRm.LatestTxCheckWins | prov/efa/src/rdm/rxr.h:639-647 | The same holds for the TX bit. |
| RxrRm.ChecksAreIndependent | prov/efa/src/rdm/rxr.h:629-647 | An RX check leaves `is_tx_res_full` unchanged, and a TX check leaves `is_rx_res_full` unchanged. |
| RxrEp.Endpoint.RmRxCqCheck | prov/efa/src/rdm/rxr.h:629-637 | Updates `rm_full` in place. Afterwards the RX verdict is nonzero exactly when the queue was full, and the TX verdict is unchanged. |
| RxrEp.Endpoint.RmTxCqCheck | prov/efa/src/rdm/rxr.h:639-647 | Updates `rm_full` in place. Afterwards the TX verdict is nonzero exactly when the queue was full, and the RX verdict is unchanged. |
| RxrEp.Endpoint.ReleasePktTx | prov/efa/src/rdm/rxr.h:483 | Releasing a packet that is not in its pool puts it back in its pool. Nothing else changes. |
| RxrEp.Endpoint.ReleaseQueuedPkts | prov/efa/src/rdm/rxr.h:479-486 | Each packet queued on the entry is released exactly once and ends in its pool. Packets not on the queue are untouched. The entry leaves the RNR list exactly when packets were queued. When every packet the ownership map records as queued on the entry is on its queue, no packet is left queued on it afterwards. |
| RxrEp.Endpoint.ReleaseRxEntry | prov/efa/src/rdm/rxr.h:468-497 | Requires that no EOR packet of the entry is in flight (rxr.h:174-180). The entry is spliced out of the endpoint list. It leaves the peer list only when it had a peer, the RNR list only when packets were queued, and the control list only when `RXR_OP_ENTRY_QUEUED_CTRL` was set. No other entry's membership changes, and the lists stay duplicate-free. Every queued packet returns to its pool and no other packet moves. The entry ends `RXR_OP_FREE` and back in its pool. When its links were consistent, neither the four modelled lists nor any packet owner refers to it any more. |
| RxrHelpers.Min | prov/efa/src/rdm/rxr.h:503-511 | `MIN` returns one of its arguments, and the result is no larger than either. |
| RxrHelpers.RxPoolChunkCnt | prov/efa/src/rdm/rxr.h:503-506 | The RX pool chunk count is at most both `core_rx_size` and `rx_size`, and it equals one of them. |
| RxrHelpers.TxPoolChunkCnt | prov/efa/src/rdm/rxr.h:508-511 | The TX pool chunk count is at most both `efa_max_outstanding_tx_ops` and `tx_size`, and it equals one of them. |
| RxrHelpers.NeedSasOrdering | prov/efa/src/rdm/rxr.h:513-516 | The `int` result is nonzero exactly when `FI_ORDER_SAS` is in `msg_order`. The bit survives the narrowing. |
| RxrHelpers.SizeSub | prov/efa/src/rdm/rxr.h:523 | `size_t` subtraction is the plain difference when it does not underflow. When it does, it wraps modulo 2^64. |
| RxrHelpers.UseZcpyRx | prov/efa/src/rdm/rxr.h:518-527 | Zero-copy receive requires all of: none of `FI_DIRECTED_RECV`, `FI_TAGGED` and `FI_ATOMIC` in caps; the size test; no SAS ordering; `FI_MSG_PREFIX` in mode; and the environment toggle. Each is necessary. When the header fits in the MTU, the conditions together are sufficient, with the size test reading "message plus header fits in the MTU". |
| RxrHelpers.ZcpySizeTestWrapsWhenHeaderExceedsMtu | prov/efa/src/rdm/rxr.h:518-527 | When the protocol header is longer than the MTU and the other conditions hold, zero-copy receive is chosen for every maximum message size up to the wrapped bound of the unsigned difference, messages longer than the MTU included. |
| RxrHelpers.UseP2p | prov/efa/src/rdm/rxr.h:658-679 | The result is 0, 1 or `-FI_ENOSYS`. It is 1 exactly for a registration on system memory, or on an interface the device supports with the policy not DISABLED. It is `-FI_ENOSYS` exactly for an unsupported device interface under REQUIRED. |
| RxrHelpers.RequiredPolicyNeverStagesDeviceMemory | prov/efa/src/rdm/rxr.h:669-676 | Under REQUIRED, device memory is never staged through the host. The answer is p2p or an error. |
| RxrHelpers.DisabledPolicyStagesDeviceMemory | prov/efa/src/rdm/rxr.h:669-678 | Under DISABLED, device memory is always staged, without error. |
| RxrHelpers.CopyShmCqEntry | prov/efa/src/rdm/rxr.h:432-442 | The tagged entry carries the five fields of the shm entry unchanged, and its tag is 0. |
| RxrHelpers.CopyShmCqEntryInverse | prov/efa/src/rdm/rxr.h:432-442 | A tagged entry is the copy of its own data part exactly when its tag is 0. |
| RxrPoison.Poisoned | prov/efa/src/rdm/rxr.h:75-80 | Poisoning n words keeps the length, sets the first n words to `0xdeadbeef` and keeps the rest. |
| RxrPoison.PoisonMemRegion | prov/efa/src/rdm/rxr.h:75-80 | After the loop, the first `size / 4` words hold the pattern and every later word is unchanged. |
| RxrPoison.PoisonPktEntry | prov/efa/src/rdm/rxr.h:82-90 | The wire data is poisoned. The packet structure is poisoned except its trailing `wiredata` pointer (two words), which is left intact. |

## Left out

- `efa_eq_write_error` (rxr.h:577-608): it writes to an event queue, logs, prints and aborts. This is I/O and process termination.
- `efa_rdm_ep_post_flush` (rxr.h:681-699): it hands a work-request list to `ibv_post_send` and traces. These are foreign calls. The reset of the endpoint's xmit list head and tail that follows them is not modelled either.
- The `ofi_genlock_lock`/`unlock` pair in the CQ checks is concurrency and is not modelled. Each check is one atomic step, and `ofi_cirque_isfull` becomes the boolean input `cqFull`.
- Functions declared in `rxr.h` without a body, for example `rxr_ep_progress`, `rxr_ep_alloc_rx_entry`, `rxr_release_tx_entry`, `rxr_cq_queue_rnr_pkt` and the handshake and peer routines, are not part of this model. The RNR backoff algorithm itself is not shown, so only its constants are modelled.
- The `FI_WARN` log message on the `-FI_ENOSYS` path of `rxr_ep_use_p2p` (rxr.h:673-674) is logging and is not modelled.
- `rxr_ep_domain` (`container_of` pointer arithmetic), struct layouts, alignment and the other unused constants are not modelled. The domain's per-interface `hmem_info` is the input set `p2pSupportedByDevice`.
- `RxrEp.Endpoint.ReleasePktTx` models only the ownership effect of `rxr_pkt_entry_release_tx`, whose body is not part of this model. The packet goes back to its pool. Its own bookkeeping, and which of the TX or RX pools it returns to, are not modelled.
- `RxrEp.Endpoint.ReleaseRxEntry` does not model the `ENABLE_EFA_POISONING` overwrite of the whole rx entry before it is freed. Poisoning is modelled separately in `RxrPoison`. The model also leaves the entry's `queued_pkts` field as it was, as the code does.
- `RxrEp.Endpoint.ReleaseRxEntry` unlinks the entry only from the peer, endpoint, RNR and control lists, as the code does. The endpoint's other lists of rx entries, `rx_list`, `rx_unexp_list`, `rx_tagged_list`, `rx_unexp_tagged_list` and `op_entry_longcts_send_list` (rxr.h:343-360), are not modelled; the release relies on its caller having taken the entry off them already.
- `RxrEp.Endpoint.ReleaseQueuedPkts` proves that no packet is left queued on the entry only when the ownership map and the entry's `queued_pkts` agree beforehand. That agreement is kept by the code that queues packets, which is not part of this model.
- `RxrEp.Endpoint.ReleaseRxEntry` proves "nothing left dangling" only under the consistency the linking code maintains, and not unconditionally. That code is not part of this model.
- The `RxrEp.Endpoint.ReleaseRxEntry` model has no aliasing between lists beyond what the sequences express. Intrusive-list pointer structure (`prev`/`next`) is abstracted to membership and order.
- `RxrPoison.PoisonMemRegion`: the loop counter is a C `int` compared against a `size_t`. The model uses an unbounded counter, so regions of 2^33 bytes or more, where the C counter would overflow, are outside the model. Byte-granular `memcpy` is modelled as whole 32-bit word writes.
- Bit 10 is kept as two separate constants, `RXR_EOR_IN_FLIGHT` (rx entries) and `RXR_TX_ENTRY_WRITTEN_RNR_CQ_ERR_ENTRY` (tx entries). Nothing is claimed about their coexistence.
- `RxrRm.LatestRxCheckWins` and `RxrRm.LatestTxCheckWins` state the outcome bit by bit, namely the verdict bit and all other bits, rather than as equality of whole words.
