/**
 The SD storage under the emulated eMMC: the speed-downgrade state machine of `nx_sd.c` and
 the chunked, retried transfer of `sdmmc.c`.

 The card is adversarial.  Any initialisation and any transfer attempt may fail, and a
 failed attempt leaves arbitrary contents in the sectors or buffer slots it covered.
 */
module SdStorage {
  import opened Bytes

  /** The contents of one 512-byte sector. */
  type Block = seq<byte>

  const INIT_FAIL: nat := 0
  const UHS_SDR104: nat := 4

  /** `sd_mode--` on an unsigned 32-bit variable. */
  function Decrement(mode: nat): nat {
    if mode == 0 then 0xFFFF_FFFF else mode - 1
  }

  /**
   Move `n` sectors between a medium and a buffer, or fail with arbitrary contents left in
   whichever side was to be written.  A range beyond the end of the medium is refused.
   */
  method Move(medium: seq<Block>, sector: nat, n: nat, buf: array<Block>, at: nat, isWrite: bool)
    returns (ok: bool, medium': seq<Block>)
    requires at + n <= buf.Length
    modifies buf
    ensures Framed(isWrite, sector, at, n, medium, old(buf[..]), medium', buf[..])
    ensures ok ==> sector + n <= |medium'| && medium'[sector..sector + n] == buf[at..at + n]
  {
    ok, medium' := *, medium;
    if sector + n > |medium| { return false, medium; }
    var k := 0;
    while k < n
      invariant 0 <= k <= n
      invariant Framed(isWrite, sector, at, n, medium, old(buf[..]), medium', buf[..])
      invariant ok ==> forall j :: sector <= j < sector + k ==> medium'[j] == buf[at + (j - sector)]
    {
      var garbage: Block := *;
      if isWrite {
        medium' := medium'[sector + k := if ok then buf[at + k] else garbage];
      } else {
        buf[at + k] := if ok then medium'[sector + k] else garbage;
      }
      k := k + 1;
    }
  }

  class Storage {
    /** The sectors of the card; `sec_cnt` is a 32-bit count. */
    var disk: seq<Block>
    var initialized: bool
    /** The static `sd_mode`: 4 is the fastest bus mode, 0 means giving up. */
    var sdMode: nat
    /** Whether the controller is SDMMC_1, the one whose card can be initialised again. */
    const isSd: bool
    /** How many transfer attempts have failed although their range lies on the card. */
    ghost var faults: nat
    /** How many initialisations have failed. */
    ghost var initFaults: nat

    ghost predicate Valid()
      reads this
    {
      |disk| < 0x1_0000_0000 && sdMode <= UHS_SDR104
    }

    constructor (disk: seq<Block>, isSd: bool)
      requires |disk| < 0x1_0000_0000
      ensures Valid() && this.disk == disk && this.isSd == isSd && sdMode == 4 && !initialized
      ensures faults == 0 && initFaults == 0
    {
      this.faults, this.initFaults := 0, 0;
      this.disk, this.isSd, this.sdMode, this.initialized := disk, isSd, UHS_SDR104, false;
    }

    /** `sdmmc_storage_end`: fails, without effect, if the card does not go idle. */
    method End()
      modifies this`initialized
    {
      var idle: bool := *;
      if idle { initialized := false; }
    }

    /** `sdmmc_storage_init_sd`, reduced to its result. */
    method InitSd() returns (res: bool)
      modifies this`initialized, this`initFaults
      ensures initialized == res && initFaults == old(initFaults) + if res then 0 else 1
    {
      res := *;
      initialized := res;
      if !res { initFaults := initFaults + 1; }
    }

    /** `nx_sd_init_retry`; an out-of-range mode is set back to the maximum. */
    method InitRetry(powerCycle: bool) returns (res: bool)
      modifies this`initialized, this`sdMode, this`initFaults
      ensures var mode := if powerCycle then Decrement(old(sdMode)) else old(sdMode);
              sdMode == if mode <= UHS_SDR104 then mode else UHS_SDR104
      ensures res <==> sdMode != INIT_FAIL && initFaults == old(initFaults)
      ensures initFaults == old(initFaults) + if res || sdMode == INIT_FAIL then 0 else 1
      ensures res ==> initialized
    {
      if powerCycle {
        sdMode := Decrement(sdMode);
        End();
      }
      if sdMode == INIT_FAIL { return false; }
      if sdMode > UHS_SDR104 { sdMode := UHS_SDR104; }
      res := InitSd();
    }

    /** `nx_sd_initialize`: try slower and slower modes until one works or none is left. */
    method Initialize(powerCycle: bool) returns (res: bool)
      requires sdMode <= UHS_SDR104
      modifies this`initialized, this`sdMode, this`initFaults
      ensures initFaults - old(initFaults) == old(sdMode) - sdMode && old(initFaults) <= initFaults
      ensures res <==> initFaults - old(initFaults) < old(sdMode)
      ensures res ==> initialized
    {
      if powerCycle { End(); }
      res := InitRetry(false);
      while !res
        invariant sdMode <= old(sdMode) && (res ==> initialized && INIT_FAIL < sdMode)
        invariant initFaults - old(initFaults) ==
                  old(sdMode) - sdMode + if res || sdMode == INIT_FAIL then 0 else 1
        decreases sdMode, !res
      {
        if sdMode == INIT_FAIL { return; }
        res := InitRetry(true);
      }
    }

    /**
     One attempt to move `n` sectors from `sector` on, to or from slots `at` on of `buf`.
     The card refuses ranges beyond its end.
     */
    method Attempt(sector: nat, n: nat, buf: array<Block>, at: nat, isWrite: bool) returns (ok: bool, count: nat)
      requires at + n <= buf.Length
      modifies this`disk, this`faults, buf
      ensures Framed(isWrite, sector, at, n, old(disk), old(buf[..]), disk, buf[..])
      ensures faults == old(faults) + if !ok && sector + n <= |disk| then 1 else 0
      ensures ok ==> count == n && sector + n <= |disk| && disk[sector..sector + n] == buf[at..at + n]
    {
      ok, disk := Move(disk, sector, n, buf, at, isWrite);
      count := n;
      if !ok && sector + n <= |disk| { faults := faults + 1; }
    }

    /** The first `done` sectors of the request have been moved to or from their own slots. */
    ghost predicate Moved(sector: nat, done: nat, buf: array<Block>)
      reads this, buf
    {
      done == 0 || Same(disk, buf[..], sector, done)
    }

    lemma NothingMoved(sector: nat, buf: array<Block>)
      ensures Moved(sector, 0, buf)
    {
    }

    /** One attempt for the next chunk, right behind what has been moved. */
    method AttemptNext(sector: nat, num: nat, buf: array<Block>, isWrite: bool, at: nat) returns (ok: bool, count: nat)
      requires Valid() && sector < 0x1_0000_0000 && num <= buf.Length && at < num && Moved(sector, at, buf)
      modifies this`disk, this`faults, buf
      ensures Valid() && Framed(isWrite, sector, 0, num, old(disk), old(buf[..]), disk, buf[..])
      ensures old(faults) <= faults && |disk| == |old(disk)|
      ensures sector + num <= |disk| ==> faults == old(faults) + if ok then 0 else 1
      ensures Moved(sector, at, buf)
      ensures ok ==> 0 < count && at + count <= num && Moved(sector, at + count, buf)
    {
      hide Framed, Same;
      var n := if num - at < 0xFFFF then num - at else 0xFFFF;
      SameFits(disk, buf[..], sector, at);
      var offset := (sector + at) % 0x1_0000_0000;
      ok, count := Attempt(offset, n, buf, at, isWrite);
      FramedWithin(isWrite, sector, at, n, num, old(disk), old(buf[..]), disk, buf[..]);
      SameKept(old(disk), old(buf[..]), disk, buf[..], isWrite, sector, at, n);
      if ok { SameExtends(old(disk), old(buf[..]), disk, buf[..], isWrite, sector, at, n); }
    }

    /** Initialise the card again: from the current speed the first time, one step slower later. */
    method Reinit(first: bool) returns (res: bool)
      requires sdMode <= UHS_SDR104 && (!first ==> INIT_FAIL < sdMode)
      modifies this`initialized, this`sdMode, this`initFaults
      ensures res ==> initialized && INIT_FAIL < sdMode
      ensures old(initFaults) <= initFaults && sdMode == old(sdMode) - if first then initFaults - old(initFaults) else 1
      ensures res <==> if first then initFaults - old(initFaults) < old(sdMode)
                       else sdMode != INIT_FAIL && initFaults == old(initFaults)
      ensures !first ==> initFaults <= old(initFaults) + 1
    {
      if first { res := Initialize(true); } else { res := InitRetry(true); }
    }

    /** Up to `retries` attempts for the next chunk, of at most 0xFFFF sectors. */
    method Tries(sector: nat, num: nat, buf: array<Block>, isWrite: bool, at: nat, retries: nat)
      returns (ok: bool, count: nat)
      requires Valid() && sector < 0x1_0000_0000 && num <= buf.Length && at < num && Moved(sector, at, buf)
      modifies this`disk, this`faults, buf
      ensures Valid() && Framed(isWrite, sector, 0, num, old(disk), old(buf[..]), disk, buf[..])
      ensures |disk| == |old(disk)| && old(faults) <= faults
      ensures sector + num <= |disk| ==> if ok then faults < old(faults) + retries else faults == old(faults) + retries
      ensures ok ==> 0 < count && at + count <= num && Moved(sector, at + count, buf)
    {
      hide Framed, Same, Moved;
      FramedSame(isWrite, sector, 0, num, disk, buf[..]);
      ok, count := false, 0;
      var left := retries;
      while left > 0
        invariant 0 <= left <= retries && Valid() && |disk| == |old(disk)| && old(faults) <= faults && !ok
        invariant Framed(isWrite, sector, 0, num, old(disk), old(buf[..]), disk, buf[..]) && Moved(sector, at, buf)
        invariant sector + num <= |disk| ==> faults == old(faults) + (retries - left)
      {
        ghost var disk0, buf0 := disk, buf[..];
        ok, count := AttemptNext(sector, num, buf, isWrite, at);
        FramedTrans(isWrite, sector, num, old(disk), old(buf[..]), disk0, buf0, disk, buf[..]);
        if ok { return; }
        left := left - 1;
      }
    }

    /**
     The tries for one chunk.  When they are used up, an SD card, and no other, is initialised
     again, at a lower speed the second time and after that, and the whole transfer starts over:
     `at'` is where the chunk that finally succeeded began.
     */
    method Chunk(sector: nat, num: nat, buf: array<Block>, isWrite: bool, at: nat, firstReinit: bool)
      returns (ok: bool, at': nat, count: nat, firstReinit': bool)
      requires Valid() && sector < 0x1_0000_0000 && num <= buf.Length && at < num && Moved(sector, at, buf)
      requires !firstReinit ==> INIT_FAIL < sdMode
      modifies this, buf
      ensures Framed(isWrite, sector, 0, num, old(disk), old(buf[..]), disk, buf[..])
      ensures Valid() && |disk| == |old(disk)| && old(faults) <= faults && old(initFaults) <= initFaults
      ensures sdMode + (initFaults - old(initFaults)) <= old(sdMode) && (firstReinit' ==> firstReinit)
      ensures ok ==> 0 < count && at' + count <= num && Moved(sector, at' + count, buf)
      ensures ok ==> at' == if firstReinit' == firstReinit && sdMode == old(sdMode) then at else 0
      ensures firstReinit' == firstReinit && sdMode == old(sdMode) ==>
                initialized == old(initialized) && initFaults == old(initFaults)
      ensures !isSd ==> firstReinit' == firstReinit && sdMode == old(sdMode)
      ensures firstReinit' ==> sdMode == old(sdMode)
      ensures ok && !firstReinit' ==> INIT_FAIL < sdMode
      ensures sector + num <= |disk| ==>
                faults >= old(faults)
                          + Used(firstReinit, firstReinit', old(sdMode), sdMode, initFaults - old(initFaults))
      ensures sector + num <= |disk| && !ok ==> faults >= old(faults) + if isSd && !firstReinit then 3 else 5
      ensures sector + num <= |disk| && !ok && isSd ==>
                !firstReinit' && (sdMode == INIT_FAIL || initFaults > old(initFaults)) &&
                ((firstReinit && initFaults - old(initFaults) >= old(sdMode)) ||
                 faults >= old(faults) + if firstReinit then 8 else 3)
    {
      hide Framed, Same, Moved;
      at', firstReinit' := at, firstReinit;
      ok, count := Tries(sector, num, buf, isWrite, at, 5);
      ghost var again := false;
      while !ok
        invariant Valid() && |disk| == |old(disk)| && old(faults) <= faults && old(initFaults) <= initFaults
        invariant Framed(isWrite, sector, 0, num, old(disk), old(buf[..]), disk, buf[..])
        invariant sdMode + (initFaults - old(initFaults)) <= old(sdMode) && at' < num && (again ==> isSd)
        invariant ok ==> 0 < count && at' + count <= num && Moved(sector, at' + count, buf)
        invariant !firstReinit' ==> INIT_FAIL < sdMode
        invariant at' == if again then 0 else at
        invariant if again then !firstReinit' && (firstReinit || sdMode < old(sdMode))
                  else firstReinit' == firstReinit && sdMode == old(sdMode) && initialized == old(initialized) &&
                       initFaults == old(initFaults)
        invariant sector + num <= |disk| ==>
                    faults >= old(faults) + (if ok then 0 else if again then 3 else 5)
                              + Used(firstReinit, firstReinit', old(sdMode), sdMode, initFaults - old(initFaults))
        decreases firstReinit', sdMode, !ok
      {
        if !isSd { return; }
        var reinit := Reinit(firstReinit');
        firstReinit', again := false, true;
        if !reinit { return; }
        at' := 0;
        NothingMoved(sector, buf);
        ghost var disk0, buf0 := disk, buf[..];
        ok, count := Tries(sector, num, buf, isWrite, 0, 3);
        FramedTrans(isWrite, sector, num, old(disk), old(buf[..]), disk0, buf0, disk, buf[..]);
      }
    }

    /**
     `_sdmmc_storage_readwrite`.  A range that lies on the card is given up only after five failed
     attempts; with fewer, speed and state of the card stay as they were.  On an SD card it is not
     given up then either, if one of the modes still works; and as long as no initialisation fails,
     only after three more for every mode the card has left.
     */
    method ReadWrite(sector: nat, num: nat, buf: array<Block>, isWrite: bool) returns (res: bool)
      requires Valid() && sector < 0x1_0000_0000 && num < 0x1_0000_0000 && num <= buf.Length
      modifies this, buf
      ensures Valid() && sdMode <= old(sdMode)
      ensures Framed(isWrite, sector, 0, num, old(disk), old(buf[..]), disk, buf[..])
      ensures res && 0 < num ==> Same(disk, buf[..], sector, num)
      ensures |disk| == |old(disk)| && old(faults) <= faults && old(initFaults) <= initFaults
      ensures !isSd || (sector + num <= |disk| && faults < old(faults) + 5) ==>
                initialized == old(initialized) && sdMode == old(sdMode) && initFaults == old(initFaults)
      ensures sector + num <= |disk| && faults < old(faults) + 5 ==> res == old(initialized)
      ensures isSd && sector + num <= |disk| && faults < old(faults) + 8 ==>
                initFaults < old(initFaults) + old(sdMode) ==> res == old(initialized)
      ensures isSd && sector + num <= |disk| && faults < old(faults) + 5 + 3 * old(sdMode) ==>
                initFaults == old(initFaults) ==> res == old(initialized)
    {
      hide Framed, Same;
      FramedSame(isWrite, sector, 0, num, disk, buf[..]);
      var at := 0;
      var firstReinit := true;
      if !initialized { return false; }
      while at < num
        invariant 0 <= at <= num && Moved(sector, at, buf)
        invariant Valid() && sdMode + (initFaults - old(initFaults)) <= old(sdMode)
        invariant !firstReinit ==> isSd && INIT_FAIL < sdMode
        invariant |disk| == |old(disk)| && old(faults) <= faults && old(initFaults) <= initFaults && old(initialized)
        invariant firstReinit ==> initialized && sdMode == old(sdMode) && initFaults == old(initFaults)
        invariant sector + num <= |disk| ==>
                    faults >= old(faults) + Used(true, firstReinit, old(sdMode), sdMode, initFaults - old(initFaults))
        invariant Framed(isWrite, sector, 0, num, old(disk), old(buf[..]), disk, buf[..])
        decreases firstReinit, sdMode, num - at
      {
        ghost var disk0, buf0 := disk, buf[..];
        var ok, count;
        ok, at, count, firstReinit := Chunk(sector, num, buf, isWrite, at, firstReinit);
        FramedTrans(isWrite, sector, num, old(disk), old(buf[..]), disk0, buf0, disk, buf[..]);
        if !ok { return false; }
        at := at + count;
      }
      res := true;
    }
  }

  /**
   The failed attempts that have led to the present mode: five to the first initialisation, and
   three to every step down that no failed initialisation explains.
   */
  ghost function Used(first: bool, first': bool, mode: nat, mode': nat, initFaults: int): int {
    (if first && !first' then 5 else 0) + 3 * (mode - mode' - initFaults)
  }

  /** Only the sectors of the range may change in a write, only their slots in a read. */
  ghost predicate Framed(isWrite: bool, sector: nat, at: nat, n: nat,
                         disk: seq<Block>, buf: seq<Block>, disk': seq<Block>, buf': seq<Block>) {
    && |disk'| == |disk| && |buf'| == |buf|
    && (isWrite ==> buf' == buf) && (!isWrite ==> disk' == disk)
    && (forall k :: 0 <= k < |disk| && !(sector <= k < sector + n) ==> disk'[k] == disk[k])
    && (forall k :: 0 <= k < |buf| && !(at <= k < at + n) ==> buf'[k] == buf[k])
  }

  /** Sectors `sector` to `sector + n - 1` of the card are the first `n` slots of the buffer. */
  ghost predicate Same(disk: seq<Block>, buf: seq<Block>, sector: nat, n: nat) {
    sector + n <= |disk| && n <= |buf| && disk[sector..sector + n] == buf[..n]
  }

  lemma FramedSame(isWrite: bool, sector: nat, at: nat, n: nat, disk: seq<Block>, buf: seq<Block>)
    ensures Framed(isWrite, sector, at, n, disk, buf, disk, buf)
  {
  }

  lemma FramedWithin(isWrite: bool, sector: nat, at: nat, n: nat, num: nat,
                     disk: seq<Block>, buf: seq<Block>, disk': seq<Block>, buf': seq<Block>)
    requires at + n <= num && Framed(isWrite, sector + at, at, n, disk, buf, disk', buf')
    ensures Framed(isWrite, sector, 0, num, disk, buf, disk', buf') && |disk'| == |disk|
  {
  }

  lemma FramedTrans(isWrite: bool, sector: nat, num: nat, disk: seq<Block>, buf: seq<Block>,
                    disk': seq<Block>, buf': seq<Block>, disk'': seq<Block>, buf'': seq<Block>)
    requires Framed(isWrite, sector, 0, num, disk, buf, disk', buf')
    requires Framed(isWrite, sector, 0, num, disk', buf', disk'', buf'')
    ensures Framed(isWrite, sector, 0, num, disk, buf, disk'', buf'')
  {
  }

  /** What has been moved lies on the card, so the 32-bit sector offset has not wrapped. */
  lemma SameFits(disk: seq<Block>, buf: seq<Block>, sector: nat, at: nat)
    requires |disk| < 0x1_0000_0000 && sector < 0x1_0000_0000 && (at == 0 || Same(disk, buf, sector, at))
    ensures sector + at < 0x1_0000_0000
  {
  }

  lemma SameKept(disk: seq<Block>, buf: seq<Block>, disk': seq<Block>, buf': seq<Block>,
                 isWrite: bool, sector: nat, at: nat, n: nat)
    requires at == 0 || Same(disk, buf, sector, at)
    requires Framed(isWrite, sector + at, at, n, disk, buf, disk', buf')
    ensures at == 0 || Same(disk', buf', sector, at)
  {
    if at > 0 {
      forall k | 0 <= k < at ensures disk'[sector..sector + at][k] == buf'[..at][k] {
        assert disk[sector..sector + at][k] == buf[..at][k];
      }
    }
  }

  /** An attempt right behind what has been moved adds to it. */
  lemma SameExtends(disk: seq<Block>, buf: seq<Block>, disk': seq<Block>, buf': seq<Block>,
                    isWrite: bool, sector: nat, at: nat, n: nat)
    requires at == 0 || Same(disk, buf, sector, at)
    requires Framed(isWrite, sector + at, at, n, disk, buf, disk', buf')
    requires sector + at + n <= |disk'| && at + n <= |buf'| && disk'[sector + at..sector + at + n] == buf'[at..at + n]
    ensures Same(disk', buf', sector, at + n)
  {
    SameKept(disk, buf, disk', buf', isWrite, sector, at, n);
    assert disk'[sector..sector + at + n] == disk'[sector..sector + at] + disk'[sector + at..sector + at + n];
    assert buf'[..at + n] == buf'[..at] + buf'[at..at + n];
  }
}
