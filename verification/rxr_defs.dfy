/**
 * Shared definitions of the EFA RDM (rxr) endpoint: C integer widths,
 * the flag bits that `rxr.h` and the libfabric API headers define, and
 * the bounds on the receiver-not-ready (RNR) backoff wait time.
 */
module RxrDefs {

  datatype Option<T> = None | Some(value: T)

  /** `size_t` on a 64-bit host. */
  const SizeMax: int := 0xffff_ffff_ffff_ffff
  type SizeT = x: int | 0 <= x <= SizeMax

  /** C `int`. */
  const IntMax: int := 0x7fff_ffff
  type Int32 = x: int | -IntMax - 1 <= x <= IntMax

  /** `sizeof(char *)` on a 64-bit host. */
  const PointerSize: nat := 8

  // Flags carried in an operation entry's `rxr_flags` (rxr.h).
  /** rx entries only: an EOR packet is in flight, so the entry cannot be released yet. */
  const RxrEorInFlight: bv64 := 1 << 10
  /** tx entries only: shares bit 10 with RxrEorInFlight. */
  const RxrTxEntryWrittenRnrCqErrEntry: bv64 := 1 << 10
  const RxrOpEntryQueuedCtrl: bv64 := 1 << 11

  // Resource-management bits of the endpoint's `rm_full` word (rxr.h).
  const RmTxCqFull: bv64 := 1 << 0
  const RmRxCqFull: bv64 := 1 << 1

  // Capability, mode and ordering bits of libfabric's rdma/fabric.h.
  const FiTagged: bv64 := 1 << 3
  const FiAtomic: bv64 := 1 << 4
  const FiDirectedRecv: bv64 := 1 << 59
  const FiMsgPrefix: bv64 := 1 << 58
  const FiOrderSas: bv64 := 1 << 8

  /** `FI_ENOSYS`, Linux's `ENOSYS`. */
  const FiEnosys: int := 38

  /** Default for `rxr_env.rnr_backoff_wait_time_cap`. */
  const DefaultRnrBackoffWaitTimeCap: int := 1000000

  /** Largest value `rxr_env.rnr_backoff_wait_time_cap` may take: `INT_MAX/2 - 1`. */
  const MaxRnrBackoffWaitTimeCap: int := IntMax / 2 - 1

  /** Bounds of the random initial RNR backoff timeout. */
  const RandMinTimeout: int := 40
  const RandMaxTimeout: int := 120

  /**
   * The cap is below INT_MAX/2, so a wait time that has not passed the cap
   * can be doubled in a C `int` without overflow.
   */
  lemma BackoffDoublingFits(waitTime: int)
    requires 0 <= waitTime <= MaxRnrBackoffWaitTimeCap
    ensures MaxRnrBackoffWaitTimeCap < IntMax / 2
    ensures 2 * waitTime < IntMax
  {
  }

  /** The default cap, and the random timeout bounds, lie within the largest cap. */
  lemma BackoffDefaultsWithinCap()
    ensures 0 < RandMinTimeout <= RandMaxTimeout <= DefaultRnrBackoffWaitTimeCap
    ensures DefaultRnrBackoffWaitTimeCap <= MaxRnrBackoffWaitTimeCap
  {
  }

  /** C's conversion of a `uint64_t` to `int`: the low 32 bits, two's complement. */
  function ToCInt(x: bv64): (r: Int32)
    ensures x & 0xffff_ffff == x && x < 0x8000_0000 ==> r == x as int
  {
    var low := (x & 0xffff_ffff) as int;
    if low <= IntMax then low else low - 0x1_0000_0000
  }
}
