/**
 The emulated eMMC: three partitions kept either in a raw range of the SD card or in files,
 the user partition possibly split over several of them.
 */
module Emummc {
  import opened Arithmetic
  import opened Bytes
  import opened Flattening
  import opened PartFiles
  import opened SdStorage

  datatype Backend = Raw | Files
  datatype Partition = Gpp | Boot0 | Boot1 | NoPartition
  datatype Status = Failed | Succeeded | FatalAbort

  /** `sdmmc_nand_get_active_partition_index`. */
  function Index(p: Partition): nat {
    match p
    case Gpp => 2
    case Boot1 => 1
    case _ => 0
  }

  const MAX_PARTS: nat := 32

  class Mmc {
    const backend: Backend
    const storage: Storage
    /** Raw: the first sector of the range on the card. */
    const offset: nat
    /** Files: `f_emu`, with the contents of the open files. */
    var boot0: seq<Block>
    var boot1: seq<Block>
    var gpp: seq<seq<Block>>
    var parts: nat
    var partSize: nat
    var totalSect: nat
    var active: Partition
    /** How many file accesses have failed although they lie inside their file. */
    ghost var faults: nat

    ghost predicate FilesOpen()
      reads this
    {
      && gpp != [] && |gpp| <= MAX_PARTS && Even(gpp, partSize) && 0 < partSize == |gpp[0]|
      && totalSect == |Flatten(gpp)|
      && parts == if |gpp| == 1 then 0 else |gpp|
    }

    ghost predicate Valid()
      reads this, storage
    {
      match backend
      case Raw => storage.Valid() && offset + 0x4000 <= |storage.disk|
      case Files => FilesOpen()
    }

    /** The emulated device as a value. */
    ghost function Contents(): (d: Device)
      requires Valid()
      reads this, storage
      ensures d.Valid() && d.active == active
    {
      match backend
      case Raw => Card(storage.disk, offset, active)
      case Files => Split(boot0, boot1, Flatten(gpp), active)
    }

    ghost function View(p: Partition): seq<Block>
      requires Valid()
      reads this, storage
    {
      Contents().Of(p)
    }

    /** Failed accesses of the medium underneath. */
    ghost function Faults(): nat
      reads this, storage
    {
      faults + storage.faults
    }

    /** A raw device: the card from sector `offset` on. */
    constructor OnCard(storage: Storage, offset: nat)
      requires storage.Valid() && offset + 0x4000 <= |storage.disk|
      ensures Valid() && backend == Raw && this.storage == storage && this.offset == offset
      ensures Contents() == Card(storage.disk, offset, NoPartition) && Faults() == storage.faults
      ensures View(Boot0) == storage.disk[offset..offset + 0x2000]
      ensures View(Boot1) == storage.disk[offset + 0x2000..offset + 0x4000]
      ensures View(Gpp) == storage.disk[offset + 0x4000..]
    {
      this.backend, this.storage, this.offset := Raw, storage, offset;
      this.boot0, this.boot1, this.gpp, this.active, this.faults := [], [], [], NoPartition, 0;
      this.parts, this.partSize, this.totalSect := 0, 0, 0;
    }

    /** `_file_based_emmc_initialize` on the part files that exist, in order. */
    constructor Open(storage: Storage, boot0: seq<Block>, boot1: seq<Block>, files: seq<seq<Block>>)
      requires files != [] && 0 < |files[0]|
      requires var open := if |files| <= 32 then files else files[..32]; Even(open, |files[0]|)
      ensures Valid() && backend == Files && this.storage == storage
      ensures View(Boot0) == boot0 && View(Boot1) == boot1
      ensures View(Gpp) == Flatten(if |files| <= 32 then files else files[..32])
    {
      this.backend, this.storage, this.offset := Files, storage, 0;
      this.boot0, this.boot1, this.active, this.faults := boot0, boot1, NoPartition, 0;
      this.partSize := |files[0]|;
      this.totalSect := |files[0]|;
      this.gpp := files[..1];
      this.parts := 1;
      new;
      assert Flatten(files[..1]) == files[0] by { assert files[..1][1..] == []; }
      while parts < MAX_PARTS
        invariant 1 <= parts <= MAX_PARTS && parts <= |files| && gpp == files[..parts]
        invariant totalSect == |Flatten(gpp)| && partSize == |files[0]|
        invariant this.boot0 == boot0 && this.boot1 == boot1
        decreases MAX_PARTS - parts
      {
        if parts == |files| {
          if parts == 1 { parts := 0; }
          assert files[..|files|] == files;
          return;
        }
        FlattenSnoc(gpp, files[parts]);
        assert files[..parts] + [files[parts]] == files[..parts + 1];
        totalSect := totalSect + |files[parts]|;
        gpp := gpp + [files[parts]];
        parts := parts + 1;
      }
      assert files[..|files|] == files;
    }

    /** Seek and read or write one of the open part files. */
    method AccessPart(i: nat, sector: nat, n: nat, buf: array<Block>, at: nat, isWrite: bool) returns (ok: bool)
      requires FilesOpen() && at + n <= buf.Length && i < |gpp|
      modifies this`gpp, this`faults, buf
      ensures FilesOpen() && faults == old(faults) + if !ok && sector + n <= |old(gpp)[i]| then 1 else 0
      ensures var pos := i * partSize + sector;
              Framed(isWrite, pos, at, n, Flatten(old(gpp)), old(buf[..]), Flatten(gpp), buf[..]) &&
              (ok ==> pos + n <= |Flatten(gpp)| && Flatten(gpp)[pos..pos + n] == buf[at..at + n])
    {
      hide Flatten, Start;
      var part;
      ok, part := Move(gpp[i], sector, n, buf, at, isWrite);
      PartAccess(gpp, i, part, sector, at, n, isWrite, old(buf[..]), buf[..]);
      StartIsProduct(gpp, partSize, i);
      if !ok && sector + n <= |gpp[i]| { faults := faults + 1; }
      gpp := gpp[i := part];
    }

    /** The loop for accesses that cross from one part file to the next. */
    method CrossParts(sector: nat, num: nat, buf: array<Block>, isWrite: bool) returns (ok: bool)
      requires FilesOpen() && num <= buf.Length
      modifies this`gpp, this`faults, buf
      ensures FilesOpen() && old(faults) <= faults && (faults == old(faults) && sector + num <= totalSect ==> ok)
      ensures Framed(isWrite, sector, 0, num, Flatten(old(gpp)), old(buf[..]), Flatten(gpp), buf[..])
      ensures ok && 0 < num ==> Same(Flatten(gpp), buf[..], sector, num)
    {
      hide Flatten, Framed, Same, Even;
      FramedSame(isWrite, sector, 0, num, Flatten(gpp), buf[..]);
      var f, s := sector / partSize, sector % partSize;
      var remaining, at := num, 0;
      while remaining > 0
        invariant 0 <= remaining <= num && at == num - remaining && FilesOpen()
        invariant 0 <= f && 0 <= s < partSize && (remaining > 0 ==> f * partSize + s == sector + at)
        invariant Framed(isWrite, sector, 0, num, Flatten(old(gpp)), old(buf[..]), Flatten(gpp), buf[..])
        invariant at == 0 || Same(Flatten(gpp), buf[..], sector, at)
        invariant old(faults) <= faults
      {
        var n := if remaining < partSize - s then remaining else partSize - s;
        ghost var all0, buf0 := Flatten(gpp), buf[..];
        if sector + num <= totalSect { PieceFits(gpp, partSize, f, s, n); }
        if f >= |gpp| { return false; }
        var done := AccessNext(sector, num, buf, isWrite, at, f, s, n);
        FramedTrans(isWrite, sector, num, Flatten(old(gpp)), old(buf[..]), all0, buf0, Flatten(gpp), buf[..]);
        if !done { return false; }
        at := at + n;
        remaining := remaining - n;
        if remaining > 0 { NextPart(f, partSize, s, n); }
        s := 0;
        f := f + 1;
      }
      ok := true;
    }

    /** The next piece of an access, right behind what has been moved. */
    method AccessNext(sector: nat, num: nat, buf: array<Block>, isWrite: bool, at: nat, f: nat, s: nat, n: nat)
      returns (ok: bool)
      requires FilesOpen() && num <= buf.Length && at + n <= num && 0 < n && f < |gpp|
      requires s + n <= partSize && f * partSize + s == sector + at
      requires at == 0 || Same(Flatten(gpp), buf[..], sector, at)
      modifies this`gpp, this`faults, buf
      ensures FilesOpen() && Framed(isWrite, sector, 0, num, Flatten(old(gpp)), old(buf[..]), Flatten(gpp), buf[..])
      ensures old(faults) <= faults && (!ok && sector + num <= totalSect ==> old(faults) < faults)
      ensures ok ==> Same(Flatten(gpp), buf[..], sector, at + n)
    {
      hide Flatten, Framed, Same, Even;
      if sector + num <= totalSect { PieceFits(gpp, partSize, f, s, n); }
      ok := AccessPart(f, s, n, buf, at, isWrite);
      FramedWithin(isWrite, sector, at, n, num, Flatten(old(gpp)), old(buf[..]), Flatten(gpp), buf[..]);
      if ok { SameExtends(Flatten(old(gpp)), old(buf[..]), Flatten(gpp), buf[..], isWrite, sector, at, n); }
    }

    /**
     The raw branch of `emummc_read_write_inner`, on the card: nothing keeps the access inside the
     partition, and sums are taken in 32 bits.
     */
    method RawAccess(buf: array<Block>, sector: nat, num: nat, isWrite: bool) returns (status: Status)
      requires Valid() && backend == Raw && num <= buf.Length && sector < 0x1_0000_0000 && num < 0x1_0000_0000
      modifies storage, buf
      ensures Valid() && (status == FatalAbort <==> active == NoPartition)
      ensures var pos := (RawStart(offset, active) + sector) % 0x1_0000_0000;
              Framed(isWrite, pos, 0, num, old(storage.disk), old(buf[..]), storage.disk, buf[..]) &&
              (status == Succeeded && 0 < num ==> Same(storage.disk, buf[..], pos, num))
      ensures status == FatalAbort ==> storage.disk == old(storage.disk) && buf[..] == old(buf[..])
      ensures |storage.disk| == |old(storage.disk)| && old(storage.faults) <= storage.faults
      ensures var pos := (RawStart(offset, active) + sector) % 0x1_0000_0000;
              storage.faults == old(storage.faults) && pos + num <= |storage.disk| && active != NoPartition ==>
                storage.initialized == old(storage.initialized) && (storage.initialized ==> status == Succeeded)
    {
      hide Framed, Same;
      var s := (sector + offset) % 0x1_0000_0000;
      s := (s + Index(active) * 0x2000) % 0x1_0000_0000;
      WrappedSum(sector, offset, Index(active) * 0x2000);
      FramedSame(isWrite, s, 0, num, storage.disk, buf[..]);
      if active == NoPartition { return FatalAbort; }
      if (s + num) % 0x1_0000_0000 > |storage.disk| {
        SmallSum(s + num);
        return Failed;
      }
      SmallSum(s + num);
      var ok := storage.ReadWrite(s, num, buf, isWrite);
      status := if ok then Succeeded else Failed;
    }

    /** An access that starts in part `f` at sector `s`. */
    method SplitAccess(buf: array<Block>, sector: nat, num: nat, isWrite: bool, f: nat, s: nat) returns (ok: bool)
      requires FilesOpen() && num <= buf.Length && s < partSize && s <= sector && f * partSize + s == sector
      modifies this`gpp, this`faults, buf
      ensures FilesOpen() && old(faults) <= faults
      ensures faults == old(faults) && 0 < num && sector + num <= totalSect && sector + num < 0x1_0000_0000 ==> ok
      ensures Framed(isWrite, sector, 0, num, Flatten(old(gpp)), old(buf[..]), Flatten(gpp), buf[..])
      ensures ok && 0 < num ==> Same(Flatten(gpp), buf[..], sector, num)
    {
      hide Flatten, Framed, Even, Same;
      FramedSame(isWrite, sector, 0, num, Flatten(gpp), buf[..]);
      SmallSum(s + num);
      if (s + num) % 0x1_0000_0000 > partSize {
        ok := CrossParts(sector, num, buf, isWrite);
        return;
      }
      if 0 < num && s + num <= partSize { PieceFits(gpp, partSize, f, s, num); }
      if f >= |gpp| { return false; }
      ok := AccessPart(f, s, num, buf, 0, isWrite);
      if ok { SameFromStart(Flatten(gpp), buf[..], sector, num); }
    }

    /** The file branch for the user partition. */
    method GppAccess(buf: array<Block>, sector: nat, num: nat, isWrite: bool) returns (ok: bool)
      requires FilesOpen() && num <= buf.Length
      modifies this`gpp, this`faults, buf
      ensures FilesOpen() && old(faults) <= faults
      ensures faults == old(faults) && 0 < num && sector + num < 0x1_0000_0000 ==>
                sector + num <= |Flatten(old(gpp))| ==> ok
      ensures Framed(isWrite, sector, 0, num, Flatten(old(gpp)), old(buf[..]), Flatten(gpp), buf[..])
      ensures ok && 0 < num ==> Same(Flatten(gpp), buf[..], sector, num)
    {
      hide Flatten, Framed, Even, Same, PartOf, SectorIn;
      FramedSame(isWrite, sector, 0, num, Flatten(gpp), buf[..]);
      if parts == 0 {
        OnlyPart(gpp);
        ok := AccessPart(0, sector, num, buf, 0, isWrite);
        if ok { SameFromStart(Flatten(gpp), buf[..], sector, num); }
      } else {
        SmallSum(sector + num);
        if (sector + num) % 0x1_0000_0000 > totalSect { return false; }
        SplitSector(sector, partSize);
        ok := SplitAccess(buf, sector, num, isWrite, PartOf(sector, partSize), SectorIn(sector, partSize));
      }
    }

    /** Seek and read or write a boot file, which is never split. */
    method BootAccess(file: seq<Block>, buf: array<Block>, sector: nat, num: nat, isWrite: bool)
      returns (ok: bool, file': seq<Block>)
      requires num <= buf.Length
      modifies this`faults, buf
      ensures old(faults) <= faults && (faults == old(faults) && sector + num <= |file| ==> ok)
      ensures Framed(isWrite, sector, 0, num, file, old(buf[..]), file', buf[..])
      ensures ok ==> Same(file', buf[..], sector, num)
    {
      hide Framed, Same;
      ok, file' := Move(file, sector, num, buf, 0, isWrite);
      if ok { SameFromStart(file', buf[..], sector, num); }
      if !ok && sector + num <= |file| { faults := faults + 1; }
    }

    /** The file branch of `emummc_read_write_inner`. */
    method FileAccess(buf: array<Block>, sector: nat, num: nat, isWrite: bool) returns (ok: bool)
      requires Valid() && backend == Files && num <= buf.Length
      modifies this`gpp, this`boot0, this`boot1, this`faults, buf
      ensures Valid() && old(faults) <= faults
      ensures faults == old(faults) && Fits(old(Contents()), sector, num) ==> ok
      ensures Framed(isWrite, sector, 0, num, old(View(active)), old(buf[..]), View(active), buf[..])
      ensures forall p :: p != active ==> Contents().Of(p) == old(Contents()).Of(p)
      ensures ok && 0 < num ==> Same(View(active), buf[..], sector, num)
    {
      hide Flatten, Framed, Same, Even;
      FramedSame(isWrite, sector, 0, num, View(active), buf[..]);
      match active {
        case Gpp => ok := GppAccess(buf, sector, num, isWrite);
        case Boot1 => ok, boot1 := BootAccess(boot1, buf, sector, num, isWrite);
        case Boot0 => ok, boot0 := BootAccess(boot0, buf, sector, num, isWrite);
        case NoPartition => ok := false;
      }
    }

    /** The card of a raw device has been initialised. */
    ghost predicate Ready()
      reads this, storage
    {
      backend == Raw ==> storage.initialized
    }

    /**
     `emummc_read_write_inner`: on either backend an access moves exactly its sectors of the space
     it is made in and changes nothing else.
     */
    method ReadWriteInner(buf: array<Block>, sector: nat, num: nat, isWrite: bool) returns (status: Status)
      requires Valid() && num <= buf.Length && sector < 0x1_0000_0000 && num < 0x1_0000_0000
      modifies this`gpp, this`boot0, this`boot1, this`faults, storage, buf
      ensures Valid() && (status == FatalAbort <==> backend == Raw && active == NoPartition)
      ensures var d, d' := old(Contents()), Contents();
              d' == d.Put(d'.Space()) &&
              Framed(isWrite, d.At(sector), 0, num, d.Space(), old(buf[..]), d'.Space(), buf[..]) &&
              (status == Succeeded && 0 < num ==> Same(d'.Space(), buf[..], d.At(sector), num))
      ensures old(Faults()) <= Faults()
      ensures Faults() == old(Faults()) && Fits(old(Contents()), sector, num) ==>
                Ready() == old(Ready()) && (Ready() ==> status == Succeeded)
    {
      hide Flatten, Framed, Same;
      if backend == Raw {
        status := RawAccess(buf, sector, num, isWrite);
        if active == NoPartition { FramedSame(isWrite, old(Contents()).At(sector), 0, num, [], buf[..]); }
      } else {
        var ok := FileAccess(buf, sector, num, isWrite);
        status := if ok then Succeeded else Failed;
        OnlyActive(old(Contents()), Contents());
      }
    }

    /** A read changes nothing, whether it succeeds or not. */
    method PerformRead(sector: nat, num: nat) returns (ok: bool, output: seq<Block>)
      requires Valid() && sector < 0x1_0000_0000 && num < 0x1_0000_0000
      modifies this`gpp, this`boot0, this`boot1, this`faults, storage
      ensures Valid() && old(Faults()) <= Faults() && Contents() == old(Contents())
      ensures ok ==> output == Output(old(Contents()), Read(sector, num))
      ensures Faults() == old(Faults()) && OpFits(old(Contents()), Read(sector, num)) ==>
                Ready() == old(Ready()) && (Ready() ==> ok)
    {
      hide Flatten, Framed, Same, Valid;
      var buf := new Block[num];
      ghost var before := buf[..];
      var status := ReadWriteInner(buf, sector, num, false);
      ok, output := status == Succeeded, buf[..];
      ghost var d := old(Contents());
      ReadResult(d.Space(), Contents().Space(), before, buf[..], d.At(sector), num);
      PutSpace(d);
    }

    /**
     A write replaces exactly its sectors.  One that stays inside its partition leaves the others
     alone even when it fails; one that runs over the end of a raw boot partition and succeeds puts
     the rest of its data into the next one.
     */
    method PerformWrite(sector: nat, data: seq<Block>) returns (ok: bool)
      requires Valid() && sector < 0x1_0000_0000 && |data| < 0x1_0000_0000
      modifies this`gpp, this`boot0, this`boot1, this`faults, storage
      ensures Valid() && old(Faults()) <= Faults()
      ensures ok ==> Contents() == Step(old(Contents()), Write(sector, data))
      ensures Contains(old(Contents()), sector, |data|) ==> forall p :: p != active ==> View(p) == old(View(p))
      ensures ok && backend == Raw && active == Boot0 && sector < 0x2000 < sector + |data| <= 0x4000 ==>
                View(Boot1) == data[0x2000 - sector..] + old(View(Boot1))[sector + |data| - 0x2000..]
      ensures Faults() == old(Faults()) && OpFits(old(Contents()), Write(sector, data)) ==>
                Ready() == old(Ready()) && (Ready() ==> ok)
    {
      hide Flatten, Framed, Same, Replace, Valid, Contains;
      var buf := new Block[|data|](i requires 0 <= i < |data| => data[i]);
      assert buf[..] == data;
      var status := ReadWriteInner(buf, sector, |data|, true);
      ok := status == Succeeded;
      ghost var d, d' := old(Contents()), Contents();
      WriteResult(d.Space(), d'.Space(), data, buf[..], d.At(sector), |data|, ok);
      OthersKept(d, d', sector, |data|, true, data, buf[..]);
      if ok && backend == Raw && active == Boot0 && sector < 0x2000 < sector + |data| <= 0x4000 {
        WriteSpills(d, sector, data);
      }
    }

    /** One operation of the host; `output` is what a read returns. */
    method Perform(op: Op) returns (ok: bool, output: seq<Block>)
      requires Valid() && op.Words()
      modifies this`gpp, this`boot0, this`boot1, this`active, this`faults, storage
      ensures Valid() && old(Faults()) <= Faults()
      ensures active == (if op.Select? then op.partition else old(active))
      ensures Contents().Place() == old(Contents()).Place()
      ensures ok ==> Contents() == Step(old(Contents()), op) && output == Output(old(Contents()), op)
      ensures forall p :: Spares(old(Contents()).Place(), old(active), op, p) ==> View(p) == old(View(p))
      ensures Faults() == old(Faults()) && OpFits(old(Contents()), op) ==> Ready() == old(Ready()) && (Ready() ==> ok)
    {
      hide Flatten, Replace;
      ok, output := true, [];
      match op {
        case Select(p) => active := p;
        case Read(sector, num) => ok, output := PerformRead(sector, num);
        case Write(sector, data) => ok := PerformWrite(sector, data);
      }
    }

    /**
     Any sequence of selections, reads and writes, up to the first that fails.  A partition that
     no write reaches is unchanged, in failed runs too.
     */
    method Run(ops: seq<Op>) returns (ok: bool, outputs: seq<seq<Block>>)
      requires Valid() && forall i :: 0 <= i < |ops| ==> ops[i].Words()
      modifies this`gpp, this`boot0, this`boot1, this`active, this`faults, storage
      ensures Valid() && old(Faults()) <= Faults()
      ensures ok ==> Contents() == Final(old(Contents()), ops) && outputs == Outputs(old(Contents()), ops)
      ensures forall p :: AllSpare(old(Contents()).Place(), old(active), ops, p) ==> View(p) == old(View(p))
      ensures Faults() == old(Faults()) && old(Ready()) && AllFit(old(Contents()), ops) ==> ok
    {
      hide Step, Output, Flatten, OpFits, Spares;
      outputs := [];
      ghost var place := Contents().Place();
      var i := 0;
      while i < |ops|
        invariant 0 <= i <= |ops| && Valid() && Contents().Place() == place
        invariant Final(Contents(), ops[i..]) == Final(old(Contents()), ops)
        invariant outputs + Outputs(Contents(), ops[i..]) == Outputs(old(Contents()), ops)
        invariant old(Faults()) <= Faults()
        invariant AllFit(old(Contents()), ops) ==>
                    AllFit(Contents(), ops[i..]) && (Faults() == old(Faults()) ==> Ready() == old(Ready()))
        invariant forall p :: AllSpare(place, old(active), ops, p) ==>
                    AllSpare(place, active, ops[i..], p) && View(p) == old(View(p))
      {
        assert ops[i..][1..] == ops[i + 1..];
        StepActive(Contents(), ops[i]);
        SpareNext(place, active, ops, i);
        var done, output := Perform(ops[i]);
        if !done { return false, outputs; }
        outputs := outputs + [output];
        i := i + 1;
      }
      ok := true;
    }
  }

  // ----- the device the host sees

  datatype Op = Select(partition: Partition) | Read(sector: nat, num: nat) | Write(sector: nat, data: seq<Block>) {
    /** Sector and count are 32-bit words. */
    predicate Words() { Select? || (sector < 0x1_0000_0000 && Count(this) < 0x1_0000_0000) }
  }

  function Count(op: Op): nat
    requires !op.Select?
  {
    if op.Read? then op.num else |op.data|
  }

  /** Three partitions apart, or one after the other on a card from `offset` on. */
  datatype Place = Apart | OnCard(offset: nat)

  datatype Device =
    | Split(boot0: seq<Block>, boot1: seq<Block>, gpp: seq<Block>, active: Partition)
    | Card(disk: seq<Block>, offset: nat, active: Partition)
  {
    predicate Valid() { Card? ==> offset + 0x4000 <= |disk| < 0x1_0000_0000 }

    function Place(): Place { if Split? then Apart else OnCard(offset) }

    /** The contents of a partition. */
    function Of(p: Partition): seq<Block>
      requires Valid()
    {
      match (this, p)
      case (_, NoPartition) => []
      case (Split(_, _, _, _), Gpp) => gpp
      case (Split(_, _, _, _), Boot0) => boot0
      case (Split(_, _, _, _), Boot1) => boot1
      case (Card(_, _, _), _) => disk[Lo(p)..Hi(p)]
    }

    /** The stretch of a partition on the card. */
    function Lo(p: Partition): nat
      requires Card?
    {
      RawStart(offset, p)
    }

    function Hi(p: Partition): nat
      requires Card?
    {
      if p == Gpp then |disk| else RawStart(offset, p) + 0x2000
    }

    /** What accesses are made in, and where a sector lies in it; on a card the sum has 32 bits. */
    function Space(): seq<Block>
      requires Valid()
    {
      if Split? || active == NoPartition then Of(active) else disk
    }

    function At(sector: nat): nat {
      if Split? then sector else (RawStart(offset, active) + sector) % 0x1_0000_0000
    }

    function Put(space: seq<Block>): Device {
      match (this, active)
      case (_, NoPartition) => this
      case (Split(_, _, _, _), Gpp) => this.(gpp := space)
      case (Split(_, _, _, _), Boot0) => this.(boot0 := space)
      case (Split(_, _, _, _), Boot1) => this.(boot1 := space)
      case (Card(_, _, _), _) => this.(disk := space)
    }
  }

  function Replace(blocks: seq<Block>, sector: nat, data: seq<Block>): (r: seq<Block>)
    ensures |r| == |blocks|
  {
    if sector + |data| <= |blocks| then blocks[..sector] + data + blocks[sector + |data|..] else blocks
  }

  function Step(d: Device, op: Op): (r: Device)
    requires d.Valid()
    ensures r.Valid() && r.Place() == d.Place()
  {
    match op
    case Select(p) => d.(active := p)
    case Read(_, _) => d
    case Write(sector, data) => d.Put(Replace(d.Space(), d.At(sector), data))
  }

  function Output(d: Device, op: Op): seq<Block>
    requires d.Valid()
  {
    if op.Read? && d.At(op.sector) + op.num <= |d.Space()|
    then d.Space()[d.At(op.sector)..d.At(op.sector) + op.num] else []
  }

  /** A partition is selected and the range, not empty, lies in the space; for files its end has 32 bits. */
  predicate Fits(d: Device, sector: nat, num: nat)
    requires d.Valid()
  {
    && d.active != NoPartition && 0 < num && d.At(sector) + num <= |d.Space()|
    && (d.Split? ==> sector + num < 0x1_0000_0000)
  }

  predicate OpFits(d: Device, op: Op)
    requires d.Valid()
  {
    op.Select? || Fits(d, op.sector, Count(op))
  }

  predicate AllFit(d: Device, ops: seq<Op>)
    requires d.Valid()
    decreases |ops|
  {
    ops == [] || (OpFits(d, ops[0]) && AllFit(Step(d, ops[0]), ops[1..]))
  }

  function Final(d: Device, ops: seq<Op>): (r: Device)
    requires d.Valid()
    ensures r.Valid() && r.Place() == d.Place()
    decreases |ops|
  {
    if ops == [] then d else Final(Step(d, ops[0]), ops[1..])
  }

  function Outputs(d: Device, ops: seq<Op>): seq<seq<Block>>
    requires d.Valid()
    decreases |ops|
  {
    if ops == [] then [] else [Output(d, ops[0])] + Outputs(Step(d, ops[0]), ops[1..])
  }

  /** The access stays inside the selected partition, as far as nothing else keeps it there. */
  predicate Contains(d: Device, sector: nat, num: nat) {
    InsideFor(d.Place(), d.active, sector, num)
  }

  predicate InsideFor(place: Place, active: Partition, sector: nat, num: nat) {
    place.OnCard? ==>
      && RawStart(place.offset, active) + sector + num < 0x1_0000_0000
      && (active in {Boot0, Boot1} ==> sector + num <= 0x2000)
  }

  /** The operation does not write while `p` is selected, nor run into it from another partition. */
  predicate Spares(place: Place, active: Partition, op: Op, p: Partition) {
    op.Write? ==> active != p && InsideFor(place, active, op.sector, |op.data|)
  }

  predicate AllSpare(place: Place, active: Partition, ops: seq<Op>, p: Partition)
    decreases |ops|
  {
    ops == [] ||
    (Spares(place, active, ops[0], p) &&
     AllSpare(place, if ops[0].Select? then ops[0].partition else active, ops[1..], p))
  }

  lemma SpareNext(place: Place, active: Partition, ops: seq<Op>, i: nat)
    requires i < |ops|
    ensures forall p :: AllSpare(place, active, ops[i..], p) ==>
              Spares(place, active, ops[i], p) &&
              AllSpare(place, if ops[i].Select? then ops[i].partition else active, ops[i + 1..], p)
  {
    assert ops[i..][1..] == ops[i + 1..];
  }

  /** A write that stays inside its partition changes no other one. */
  lemma StepSpares(d: Device, op: Op, p: Partition)
    requires d.Valid() && Spares(d.Place(), d.active, op, p)
    ensures Step(d, op).Of(p) == d.Of(p)
  {
    hide Replace;
    if d.Card? && op.Write? && p != NoPartition && d.active != NoPartition {
      OutsidePartition(d, op.sector, |op.data|, p);
      hide Step, Device.Of, Device.At, InsideFor;
      MissesPartition(d, op.sector, op.data, p);
    }
  }

  /** A partition of a card, before and after a write, is a stretch of it. */
  lemma CardWrite(d: Device, sector: nat, data: seq<Block>, p: Partition)
    requires d.Valid() && d.Card? && p != NoPartition && d.active != NoPartition
    ensures d.Of(p) == d.disk[d.Lo(p)..d.Hi(p)]
    ensures Step(d, Write(sector, data)).Of(p) == Replace(d.disk, d.At(sector), data)[d.Lo(p)..d.Hi(p)]
  {
    hide Replace;
  }

  /** A write whose sectors are not those of `p` leaves it alone. */
  lemma MissesPartition(d: Device, sector: nat, data: seq<Block>, p: Partition)
    requires d.Valid() && d.Card? && p != NoPartition
    ensures d.Hi(p) <= d.At(sector) || d.At(sector) + |data| <= d.Lo(p) ==>
              Step(d, Write(sector, data)).Of(p) == d.Of(p)
  {
    hide Replace;
    ReplaceElsewhere(d.disk, d.At(sector), data, d.Lo(p), d.Hi(p));
  }

  lemma ReplaceElsewhere(blocks: seq<Block>, from: nat, data: seq<Block>, i: nat, j: nat)
    requires i <= j <= |blocks|
    ensures j <= from || from + |data| <= i ==> Replace(blocks, from, data)[i..j] == blocks[i..j]
  {
  }

  /** Whole runs: a partition changes only by writes made while it is selected, if boot writes stay inside. */
  lemma {:induction false} PartitionsAreSeparate(d: Device, ops: seq<Op>, p: Partition)
    requires d.Valid() && AllSpare(d.Place(), d.active, ops, p)
    ensures Final(d, ops).Of(p) == d.Of(p)
    decreases |ops|
  {
    hide Spares;
    if ops == [] {
    } else {
      StepSpares(d, ops[0], p);
      StepActive(d, ops[0]);
      hide Step;
      PartitionsAreSeparate(Step(d, ops[0]), ops[1..], p);
    }
  }

  // ----- where a raw device is not three partitions

  /** Over the end of a boot partition the data goes on into the next partition. */
  lemma WriteSpills(d: Device, sector: nat, data: seq<Block>)
    requires d.Valid() && d.Card? && d.active in {Boot0, Boot1} && sector < 0x2000 < sector + |data|
    requires d.Lo(d.active) + sector + |data| <= if d.active == Boot0 then d.Hi(Boot1) else |d.disk|
    ensures var next, over := if d.active == Boot0 then Boot1 else Gpp, sector + |data| - 0x2000;
            over <= |d.Of(next)| &&
            Step(d, Write(sector, data)).Of(next) == data[0x2000 - sector..] + d.Of(next)[over..]
  {
    hide Replace, Step, Device.Of;
    var from, next := d.Lo(d.active) + sector, if d.active == Boot0 then Boot1 else Gpp;
    SmallSum(from);
    CardWrite(d, sector, data, next);
    Spilled(d.disk, from, data, d.Lo(next), d.Hi(next));
  }

  lemma Spilled(blocks: seq<Block>, from: nat, data: seq<Block>, start: nat, end: nat)
    requires from <= start <= from + |data| <= end <= |blocks|
    ensures Replace(blocks, from, data)[start..end] ==
            data[start - from..] + blocks[start..end][from + |data| - start..]
  {
    var r := Replace(blocks, from, data);
    assert r[start..from + |data|] == data[start - from..];
    assert r[from + |data|..end] == blocks[start..end][from + |data| - start..];
    assert r[start..end] == r[start..from + |data|] + r[from + |data|..end];
  }

  function Filled(v: byte): Block { seq(512, _ => v) }

  /** A sector unlike `b`. */
  function Other(b: Block): (r: Block)
    ensures r != b
  {
    assert Filled(0)[0] != Filled(1)[0];
    if b == Filled(0) then Filled(1) else Filled(0)
  }

  function Others(blocks: seq<Block>): (r: seq<Block>)
    ensures |r| == |blocks| && forall k :: 0 <= k < |r| ==> r[k] != blocks[k]
  {
    if blocks == [] then [] else [Other(blocks[0])] + Others(blocks[1..])
  }

  /** The writes of `num` sectors from `sector` on, whatever their data, leave all other partitions alone. */
  ghost predicate Isolated(d: Device, sector: nat, num: nat)
    requires d.Valid()
  {
    forall data: seq<Block>, q: Partition :: |data| == num && q != d.active ==>
      Step(d, Write(sector, data)).Of(q) == d.Of(q)
  }

  /**
   On a card that is so exactly when they stay inside the partition; and where the sum of 32 bits
   wraps, exactly when they end in front of the other partitions.
   */
  lemma RawIsolation(d: Device, sector: nat, num: nat)
    requires d.Valid() && d.Card? && sector < 0x1_0000_0000 && Fits(d, sector, num)
    ensures Isolated(d, sector, num) <==>
            if d.Lo(d.active) + sector < 0x1_0000_0000 then d.active == Gpp || sector + num <= 0x2000
            else d.At(sector) + num <= if d.active == Boot0 then d.Hi(Boot0) else d.offset
  {
    Position(d, sector);
    hide Isolated, Device.Of, Device.At;
    IsolatedUntouched(d, sector, num);
  }

  lemma IsolatedUntouched(d: Device, sector: nat, num: nat)
    requires d.Valid() && d.Card? && Fits(d, sector, num)
    ensures Isolated(d, sector, num) <==> Touched(d, d.At(sector), num) == NoPartition
  {
    hide Step, Others, Device.Of, Device.At;
    var q := Touched(d, d.At(sector), num);
    hide Touched;
    if q == NoPartition {
      forall data: seq<Block>, p: Partition | |data| == num && p != d.active
        ensures Step(d, Write(sector, data)).Of(p) == d.Of(p)
      {
        if p == NoPartition { NoneHeld(d, sector, data); } else { MissesPartition(d, sector, data, p); }
      }
    } else {
      var x := if d.At(sector) < d.Lo(q) then d.Lo(q) else d.At(sector);
      var data := Others(d.disk[d.At(sector)..d.At(sector) + num]);
      Overwritten(d, sector, data, q, x);
    }
  }

  lemma NoneHeld(d: Device, sector: nat, data: seq<Block>)
    requires d.Valid()
    ensures Step(d, Write(sector, data)).Of(NoPartition) == d.Of(NoPartition)
  {
    hide Step;
  }

  lemma Position(d: Device, sector: nat)
    requires d.Valid() && d.Card? && sector < 0x1_0000_0000
    ensures var sum := d.Lo(d.active) + sector;
            d.At(sector) == if sum < 0x1_0000_0000 then sum else sum - 0x1_0000_0000
  {
    var sum := d.Lo(d.active) + sector;
    if sum >= 0x1_0000_0000 { ModUnique(sum, 0x1_0000_0000, 1, sum - 0x1_0000_0000); }
  }

  /** A partition other than the selected one that a range of the card meets. */
  function Touched(d: Device, from: nat, num: nat): (q: Partition)
    requires d.Valid() && d.Card?
    ensures q == NoPartition ==>
              forall p :: p != d.active && p != NoPartition ==> d.Hi(p) <= from || from + num <= d.Lo(p)
    ensures q != NoPartition ==> q != d.active && from < d.Hi(q) && d.Lo(q) < from + num
  {
    if d.active != Boot0 && from < d.Hi(Boot0) && d.Lo(Boot0) < from + num then Boot0
    else if d.active != Boot1 && from < d.Hi(Boot1) && d.Lo(Boot1) < from + num then Boot1
    else if d.active != Gpp && from < d.Hi(Gpp) && d.Lo(Gpp) < from + num then Gpp
    else NoPartition
  }

  /** A write that reaches sector `x` of another partition with other data changes it. */
  lemma Overwritten(d: Device, sector: nat, data: seq<Block>, q: Partition, x: nat)
    requires d.Valid() && d.Card? && Fits(d, sector, |data|) && q != NoPartition
    requires d.At(sector) <= x < d.At(sector) + |data| && d.Lo(q) <= x < d.Hi(q)
    requires data[x - d.At(sector)] != d.disk[x]
    ensures Step(d, Write(sector, data)).Of(q) != d.Of(q)
  {
    CardWrite(d, sector, data, q);
    hide Step, Device.Of;
    ReplacedAt(d.disk, d.At(sector), data, d.Lo(q), d.Hi(q), x);
  }

  lemma ReplacedAt(blocks: seq<Block>, from: nat, data: seq<Block>, i: nat, j: nat, x: nat)
    requires from <= x < from + |data| <= |blocks| && i <= x < j <= |blocks| && data[x - from] != blocks[x]
    ensures Replace(blocks, from, data)[i..j] != blocks[i..j]
  {
    var r := Replace(blocks, from, data);
    assert r[i..j][x - i] == r[x] == data[x - from] && blocks[i..j][x - i] == blocks[x];
  }

  // ----- where it is

  predicate AllInside(place: Place, active: Partition, ops: seq<Op>)
    decreases |ops|
  {
    ops == [] ||
    ((ops[0].Select? || InsideFor(place, active, ops[0].sector, Count(ops[0]))) &&
     AllInside(place, if ops[0].Select? then ops[0].partition else active, ops[1..]))
  }

  /** The two devices hold the same partitions. */
  predicate Alike(c: Device, f: Device) {
    c.Card? && f.Split? && c.Valid() && c.active == f.active && forall p :: c.Of(p) == f.Of(p)
  }

  lemma AlikeStep(c: Device, f: Device, op: Op)
    requires Alike(c, f) && (op.Select? || InsideFor(c.Place(), c.active, op.sector, Count(op)))
    ensures Alike(Step(c, op), Step(f, op)) && Output(c, op) == Output(f, op)
  {
    if op.Select? {
      forall p ensures Step(c, op).Of(p) == Step(f, op).Of(p) { assert c.Of(p) == f.Of(p); }
    }
    if op.Write? { AlikeWrite(c, f, op.sector, op.data); }
    if op.Read? { AlikeRead(c, f, op.sector, op.num); }
  }

  lemma AlikeRead(c: Device, f: Device, sector: nat, num: nat)
    requires Alike(c, f) && InsideFor(c.Place(), c.active, sector, num)
    ensures Output(c, Read(sector, num)) == Output(f, Read(sector, num))
  {
    assert c.Of(c.active) == f.Of(c.active);
    InsideSlice(c, sector, num);
  }

  lemma InsideSlice(c: Device, sector: nat, num: nat)
    requires c.Valid() && c.Card? && InsideFor(c.Place(), c.active, sector, num)
    ensures var part := c.Of(c.active);
            Output(c, Read(sector, num)) == if sector + num <= |part| then part[sector..sector + num] else []
  {
    if c.active != NoPartition {
      SmallSum(c.Lo(c.active) + sector);
      Subslice(c.disk, c.Lo(c.active), c.Hi(c.active), sector, num);
    }
  }

  lemma Subslice(blocks: seq<Block>, lo: nat, hi: nat, i: nat, n: nat)
    requires lo <= hi <= |blocks|
    ensures lo + i + n <= hi ==> blocks[lo..hi][i..i + n] == blocks[lo + i..lo + i + n]
  {
    if lo + i + n <= hi {
      var part := blocks[lo..hi];
      assert forall k :: i <= k < i + n ==> part[k] == blocks[lo + k];
    }
  }

  lemma AlikeWrite(c: Device, f: Device, sector: nat, data: seq<Block>)
    requires Alike(c, f) && InsideFor(c.Place(), c.active, sector, |data|)
    ensures Alike(Step(c, Write(sector, data)), Step(f, Write(sector, data)))
  {
    var op := Write(sector, data);
    forall p ensures Step(c, op).Of(p) == Step(f, op).Of(p) {
      assert c.Of(p) == f.Of(p);
      if p != c.active {
        StepSpares(c, op, p);
        StepSpares(f, op, p);
      } else {
        ReplaceInside(c, sector, data);
      }
    }
  }

  lemma ReplaceInside(c: Device, sector: nat, data: seq<Block>)
    requires c.Valid() && c.Card? && InsideFor(c.Place(), c.active, sector, |data|)
    ensures c.active != NoPartition ==>
              Step(c, Write(sector, data)).Of(c.active) == Replace(c.Of(c.active), sector, data)
  {
    if c.active != NoPartition {
      SmallSum(c.Lo(c.active) + sector);
      CardWrite(c, sector, data, c.active);
      hide Step, Device.Of, Replace;
      ReplaceWithin(c.disk, c.Lo(c.active), c.Hi(c.active), sector, data);
    }
  }

  lemma ReplaceWithin(blocks: seq<Block>, lo: nat, hi: nat, i: nat, data: seq<Block>)
    requires lo <= hi <= |blocks| && (hi == |blocks| || lo + i + |data| <= hi)
    ensures Replace(blocks, lo + i, data)[lo..hi] == Replace(blocks[lo..hi], i, data)
  {
  }

  /** Runs whose boot accesses stay inside give the same results on either backend. */
  lemma {:induction false} BackendsAgree(c: Device, f: Device, ops: seq<Op>)
    requires Alike(c, f) && AllInside(c.Place(), c.active, ops)
    ensures Outputs(c, ops) == Outputs(f, ops) && Alike(Final(c, ops), Final(f, ops))
    decreases |ops|
  {
    if ops == [] {
    } else {
      AlikeStep(c, f, ops[0]);
      StepActive(c, ops[0]);
      hide Step, Output, Alike;
      BackendsAgree(Step(c, ops[0]), Step(f, ops[0]), ops[1..]);
    }
  }

  lemma StepActive(d: Device, op: Op)
    requires d.Valid()
    ensures Step(d, op).active == if op.Select? then op.partition else d.active
  {
  }

  lemma ReadResult(view: seq<Block>, view': seq<Block>, buf: seq<Block>, buf': seq<Block>, sector: nat, num: nat)
    requires Framed(false, sector, 0, num, view, buf, view', buf') && |buf'| == num
    ensures view' == view
    ensures Same(view', buf', sector, num) ==> sector + num <= |view| && view[sector..sector + num] == buf'
  {
    assert buf'[..num] == buf';
  }

  lemma ThreeParts(blocks: seq<Block>, i: nat, j: nat)
    requires i <= j <= |blocks|
    ensures blocks == blocks[..i] + blocks[i..j] + blocks[j..]
  {
  }

  lemma WriteResult(view: seq<Block>, view': seq<Block>, buf: seq<Block>, buf': seq<Block>, sector: nat, num: nat,
                    ok: bool)
    requires Framed(true, sector, 0, num, view, buf, view', buf') && |buf| == num
    requires ok && 0 < num ==> Same(view', buf', sector, num)
    ensures ok ==> view' == Replace(view, sector, buf)
  {
    if ok {
      if num == 0 {
        assert view' == view;
      } else {
        assert buf[..num] == buf;
        ThreeParts(view', sector, sector + num);
        assert view'[..sector] == view[..sector] && view'[sector + num..] == view[sector + num..];
      }
    }
  }

  lemma SameFromStart(all: seq<Block>, buf: seq<Block>, sector: nat, num: nat)
    requires num <= |buf| && sector + num <= |all| && all[sector..sector + num] == buf[0..0 + num]
    ensures Same(all, buf, sector, num)
  {
    assert buf[0..0 + num] == buf[..num];
  }

  /** Where partition `p` of a raw device starts on the card. */
  function RawStart(offset: nat, p: Partition): nat { offset + Index(p) * 0x2000 }

  lemma OnlyActive(d: Device, d': Device)
    requires d.Split? && d'.Split? && d'.active == d.active && forall p :: p != d.active ==> d'.Of(p) == d.Of(p)
    ensures d' == d.Put(d'.Space())
  {
    assert Boot0 != d.active ==> d'.Of(Boot0) == d.Of(Boot0);
    assert Boot1 != d.active ==> d'.Of(Boot1) == d.Of(Boot1);
    assert Gpp != d.active ==> d'.Of(Gpp) == d.Of(Gpp);
  }

  lemma PutSpace(d: Device)
    requires d.Valid()
    ensures d.Put(d.Space()) == d
  {
  }

  /** Whatever an access inside its partition leaves behind, the others are as they were. */
  lemma OthersKept(d: Device, d': Device, sector: nat, num: nat, isWrite: bool, buf: seq<Block>, buf': seq<Block>)
    requires d.Valid() && d'.Valid() && d' == d.Put(d'.Space())
    requires Framed(isWrite, d.At(sector), 0, num, d.Space(), buf, d'.Space(), buf')
    ensures Contains(d, sector, num) ==> forall p :: p != d.active ==> d'.Of(p) == d.Of(p)
  {
    if Contains(d, sector, num) {
      hide Framed;
      forall p | p != d.active ensures d'.Of(p) == d.Of(p) {
        if d.Card? && p != NoPartition && d.active != NoPartition {
          OutsidePartition(d, sector, num, p);
          FramedElsewhere(isWrite, d.At(sector), num, d.disk, buf, d'.disk, buf', d.Lo(p), d.Hi(p));
        }
      }
    }
  }

  lemma OutsidePartition(d: Device, sector: nat, num: nat, p: Partition)
    requires d.Valid() && d.Card? && p != d.active && p != NoPartition && d.active != NoPartition
    requires Contains(d, sector, num)
    ensures d.Hi(p) <= d.At(sector) || d.At(sector) + num <= d.Lo(p)
  {
    SmallSum(d.Lo(d.active) + sector);
  }

  lemma FramedElsewhere(isWrite: bool, sector: nat, n: nat, disk: seq<Block>, buf: seq<Block>,
                        disk': seq<Block>, buf': seq<Block>, i: nat, j: nat)
    requires Framed(isWrite, sector, 0, n, disk, buf, disk', buf') && i <= j <= |disk|
    ensures |disk'| == |disk|
    ensures j <= sector || sector + n <= i ==> disk'[i..j] == disk[i..j]
  {
  }

  /** A piece of the whole that does not cross the end of its part lies inside an open part. */
  lemma PieceFits(parts: seq<seq<Block>>, size: nat, f: nat, s: nat, n: nat)
    requires parts != [] && Even(parts, size) && s + n <= size && 0 < n
    ensures f * size + s + n <= |Flatten(parts)| ==> f < |parts| && s + n <= |parts[f]|
  {
    hide Flatten;
    FlattenSize(parts);
    StartIsProduct(parts, size, |parts| - 1);
    assert |parts| * size == (|parts| - 1) * size + size;
    if f * size + s + n <= |Flatten(parts)| { MulCancel(f, |parts|, size); }
  }

  /** The part a sector falls into, and where. */
  function PartOf(sector: nat, size: nat): nat
    requires 0 < size
  {
    sector / size
  }

  function SectorIn(sector: nat, size: nat): nat
    requires 0 < size
  {
    sector % size
  }

  lemma SplitSector(sector: nat, size: nat)
    requires 0 < size
    ensures PartOf(sector, size) * size + SectorIn(sector, size) == sector
    ensures SectorIn(sector, size) < size && SectorIn(sector, size) <= sector
  {
  }

  lemma SmallSum(n: nat)
    ensures n < 0x1_0000_0000 ==> n % 0x1_0000_0000 == n
  {
  }

  lemma WrappedSum(a: nat, b: nat, c: nat)
    ensures ((a + b) % 0x1_0000_0000 + c) % 0x1_0000_0000 == (b + c + a) % 0x1_0000_0000
    ensures b + c + a < 0x1_0000_0000 ==> (b + c + a) % 0x1_0000_0000 == b + c + a
  {
    var q := (a + b) / 0x1_0000_0000;
    assert b + c + a == ((a + b) % 0x1_0000_0000 + c) + q * 0x1_0000_0000;
    ModShift((a + b) % 0x1_0000_0000 + c, 0x1_0000_0000, q);
  }

  lemma OnlyPart(parts: seq<seq<Block>>)
    ensures |parts| == 1 ==> Flatten(parts) == parts[0]
  {
    if |parts| == 1 { assert Flatten(parts[1..]) == []; }
  }

  /**
   An access that passes the check of its 32-bit sum starts in a part that is not open exactly when
   it starts behind all parts, being empty or wrapping.
   */
  lemma LeavesOpenParts(parts: seq<seq<Block>>, size: nat, sector: nat, num: nat)
    requires parts != [] && 0 < size && Even(parts, size) && sector < 0x1_0000_0000 && num < 0x1_0000_0000
    requires (sector + num) % 0x1_0000_0000 <= |Flatten(parts)|
    ensures PartOf(sector, size) >= |parts| <==>
            |parts| * size <= sector && (num == 0 || sector + num >= 0x1_0000_0000)
  {
    hide Flatten;
    FlattenSize(parts);
    StartIsProduct(parts, size, |parts| - 1);
    assert |parts| * size == (|parts| - 1) * size + size;
    SmallSum(sector + num);
    BehindParts(sector, size, |parts|);
  }

  lemma BehindParts(sector: nat, size: nat, n: nat)
    requires 0 < size
    ensures PartOf(sector, size) >= n <==> n * size <= sector
  {
    SplitSector(sector, size);
    hide PartOf, SectorIn;
    var f := PartOf(sector, size);
    if f >= n { MulMono(n, f, size); } else { MulMono(f + 1, n, size); }
    Distribute(f, 1, size);
  }

  /** The last sector of 32 bits and one sector more: the check sees 0, the index is far behind two parts. */
  lemma WrappedAccessLeaves(a: Block, b: Block)
    ensures var parts := [[a], [b]];
            Even(parts, 1) && (0xFFFF_FFFF + 1) % 0x1_0000_0000 <= |Flatten(parts)| &&
            PartOf(0xFFFF_FFFF, 1) >= |parts|
  {
  }

  lemma NextPart(f: nat, size: nat, s: nat, n: nat)
    requires s + n == size
    ensures (f + 1) * size == f * size + s + n
  {
  }
}
