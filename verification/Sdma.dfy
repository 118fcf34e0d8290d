/**
 Single-address DMA across its buffer boundary.  The controller pauses at every 512 KiB
 boundary it reaches with data left, and the driver programs the address it keeps in
 `dma_addr_next`; section 2.2.2 of the SD Host Controller Simplified Specification 3.00.
 */
module Sdma {

  /** A stretch of memory the controller has moved without a pause. */
  datatype Burst = Burst(start: nat, end: nat)

  /** The bursts follow each other without gap or overlap from `lo` to `hi`. */
  ghost predicate Contiguous(bursts: seq<Burst>, lo: nat, hi: nat) {
    if bursts == [] then lo == hi
    else bursts[0].start == lo && lo < bursts[0].end && Contiguous(bursts[1..], bursts[0].end, hi)
  }

  lemma {:induction false} ContiguousSnoc(bursts: seq<Burst>, lo: nat, mid: nat, hi: nat)
    requires Contiguous(bursts, lo, mid) && mid < hi
    ensures Contiguous(bursts + [Burst(mid, hi)], lo, hi)
    decreases |bursts|
  {
    if bursts == [] {
      assert ([] + [Burst(mid, hi)])[1..] == [];
    } else {
      ContiguousSnoc(bursts[1..], bursts[0].end, mid, hi);
      assert (bursts + [Burst(mid, hi)])[1..] == bursts[1..] + [Burst(mid, hi)];
    }
  }

  /** `(a + 0x80000) & ~0x7FFFF`: the first boundary above `a`. */
  function NextBoundary(a: nat): (r: nat)
    ensures a < r <= a + 0x8_0000 && r % 0x8_0000 == 0
  {
    (a + 0x8_0000) / 0x8_0000 * 0x8_0000
  }

  lemma BoundaryAfter(a: nat)
    requires a % 0x8_0000 == 0
    ensures NextBoundary(a) == a + 0x8_0000
  {
  }

  lemma BoundaryInside(a: nat)
    requires a < 0x1_0000_0000_0000_0000
    ensures a % 0x1_0000_0000_0000_0000 == a
  {
  }

  lemma NoBursts(lo: nat)
    ensures Contiguous([], lo, lo)
  {
  }

  class Controller {
    /** The two halves of the DMA address register. */
    var addressLow: nat
    var addressHigh: nat
    var blockCount: nat
    /** `sdmmc->dma_addr_next`. */
    var dmaAddrNext: nat

    predicate Programmed(address: nat)
      reads this
    {
      addressLow < 0x1_0000_0000 && addressHigh < 0x1_0000_0000 && addressHigh * 0x1_0000_0000 + addressLow == address
    }

    /** The DMA part of `_sdmmc_config_dma`; it refuses addresses that are not 8-byte aligned. */
    method ConfigDma(address: nat, blockSize: nat, sectors: nat) returns (ok: bool)
      requires address < 0x1_0000_0000_0000_0000
      modifies this
      ensures ok <==> blockSize != 0 && sectors != 0 && address % 8 == 0
      ensures ok ==> Programmed(address) && dmaAddrNext == NextBoundary(address) % 0x1_0000_0000_0000_0000 &&
                     blockCount == if sectors >= 0xFFFF then 0xFFFF else sectors
    {
      if blockSize == 0 || sectors == 0 { return false; }
      if address % 8 != 0 { return false; }
      Program(address);
      dmaAddrNext := NextBoundary(address) % 0x1_0000_0000_0000_0000;
      blockCount := if sectors >= 0xFFFF then 0xFFFF else sectors;
      ok := true;
    }

    method Program(address: nat)
      requires address < 0x1_0000_0000_0000_0000
      modifies this`addressLow, this`addressHigh
      ensures Programmed(address)
    {
      addressLow := address % 0x1_0000_0000;
      addressHigh := address / 0x1_0000_0000;
    }

    /**
     `_sdmmc_update_dma` together with the transfer engine.  The engine starts each burst at
     the programmed address and stops at a boundary or at the end of the data.  The poll fails
     at the pause after the first `patience` ones, if the transfer gets that far.
     */
    method UpdateDma(start: nat, blockSize: nat, patience: nat) returns (ok: bool, bursts: seq<Burst>)
      requires Programmed(start) && dmaAddrNext == NextBoundary(start) % 0x1_0000_0000_0000_0000
      requires 0 < blockSize * blockCount && start + blockSize * blockCount <= 0x1_0000_0000_0000_0000
      modifies this`addressLow, this`addressHigh, this`dmaAddrNext
      ensures exists hi :: start < hi <= start + blockSize * blockCount && Contiguous(bursts, start, hi)
      ensures ok ==> Contiguous(bursts, start, start + blockSize * blockCount) && |bursts| <= patience + 1
      ensures !ok ==> |bursts| == patience + 1
      ensures forall i :: 0 <= i < |bursts| - 1 ==> bursts[i].end % 0x8_0000 == 0
    {
      hide NextBoundary, Contiguous;
      bursts := [];
      NoBursts(start);
      var left := blockSize * blockCount;
      ghost var pos := start;
      while true
        invariant 0 < left && pos + left == start + blockSize * blockCount && Contiguous(bursts, start, pos)
        invariant Programmed(pos) && |bursts| <= patience
        invariant dmaAddrNext == NextBoundary(pos) % 0x1_0000_0000_0000_0000
        invariant forall i :: 0 <= i < |bursts| ==> bursts[i].end % 0x8_0000 == 0
        decreases left
      {
        var from := addressHigh * 0x1_0000_0000 + addressLow;
        var boundary := NextBoundary(from);
        var end := if from + left <= boundary then from + left else boundary;
        ContiguousSnoc(bursts, start, pos, end);
        BoundaryAfter(boundary);
        bursts := bursts + [Burst(from, end)];
        left := left - (end - from);
        pos := end;
        if left == 0 { return true, bursts; }
        if |bursts| > patience { return false, bursts; }
        BoundaryInside(boundary);
        Program(dmaAddrNext);
        dmaAddrNext := (dmaAddrNext + 0x8_0000) % 0x1_0000_0000_0000_0000;
      }
    }
  }
}
