/**
 * Build-time poisoning (ENABLE_EFA_POISONING): released memory is
 * overwritten with a fixed 32-bit pattern so that a later use of it shows
 * up. Memory is seen here as an array of 32-bit words; a region of `size`
 * bytes covers its first `size / 4` words completely, and any remaining
 * bytes belong to a word that is left alone.
 */
module RxrPoison {
  import opened RxrDefs

  const PoisonValue: bv32 := 0xdeadbeef

  /** Bytes in one poison word (`sizeof(uint32_t)`). */
  const WordSize: nat := 4

  /** The first `n` words of `s` replaced by the pattern, the rest kept. */
  function Poisoned(s: seq<bv32>, n: nat): (r: seq<bv32>)
    requires n <= |s|
    ensures |r| == |s|
    ensures forall k :: 0 <= k < n ==> r[k] == PoisonValue
    ensures r[n..] == s[n..]
  {
    seq(n, _ => PoisonValue) + s[n..]
  }

  /** `rxr_poison_mem_region`: poison the whole words of a region of `size` bytes. */
  method PoisonMemRegion(buf: array<bv32>, size: nat)
    requires size / WordSize <= buf.Length
    modifies buf
    ensures buf[..] == Poisoned(old(buf[..]), size / WordSize)
  {
    var i := 0;
    while i < size / WordSize
      invariant 0 <= i <= size / WordSize
      invariant forall k :: 0 <= k < i ==> buf[k] == PoisonValue
      invariant forall k :: i <= k < buf.Length ==> buf[k] == old(buf[k])
    {
      buf[i] := PoisonValue;
      i := i + 1;
    }
    assert buf[..] == Poisoned(old(buf[..]), size / WordSize);
  }

  /**
   * `rxr_poison_pkt_entry`: poison the packet's wire data and the packet
   * structure, except the structure's last member, the `wiredata` pointer
   * (two words), which is still needed to release the wire data.
   */
  method PoisonPktEntry(pkt: array<bv32>, wiredata: array<bv32>, wiredataSize: nat)
    requires pkt != wiredata
    requires WordSize * pkt.Length >= PointerSize
    requires wiredataSize / WordSize <= wiredata.Length
    modifies pkt, wiredata
    ensures wiredata[..] == Poisoned(old(wiredata[..]), wiredataSize / WordSize)
    ensures pkt[..] == Poisoned(old(pkt[..]), pkt.Length - 2)
    ensures pkt[pkt.Length - 2..] == old(pkt[pkt.Length - 2..])
  {
    PoisonMemRegion(wiredata, wiredataSize);
    PoisonMemRegion(pkt, WordSize * pkt.Length - PointerSize);
  }
}
