/**
 The whole package3 file. The header's offsets are constants and running sums of its own; the
 file is written front to back. They agree exactly when the overlays and the KIP area are of
 the size the constants take for granted.
 */
module Package3Image {
  import opened Bytes
  import opened Flattening
  import opened Options
  import opened Package3
  import opened Words

  function Ascii(s: string): (r: seq<byte>)
    ensures |r| == |s|
  {
    seq(|s|, i requires 0 <= i < |s| => s[i] as int % 256)
  }

  datatype Version = Version(major: byte, minor: byte, micro: byte, relstep: byte) {
    function Packed(): (r: seq<byte>)
      ensures |r| == 4
    {
      [relstep, micro, minor, major]
    }
  }

  /** `KIP_NAMES`. */
  function KipName(k: nat): string
    requires k < 7
  {
    ["Loader", "NCM", "ProcessManager", "sm", "boot", "spl", "ams_mitm"][k]
  }

  datatype Input = Input(
    supported: Version,
    release: Version,
    revision: nat,
    program: seq<byte>,
    eristaHash: seq<byte>,
    marikoHash: seq<byte>,
    warmboot: seq<byte>,
    tsecKeygen: seq<byte>,
    fatal: seq<byte>,
    exosphere: seq<byte>,
    mesosphere: seq<byte>,
    emummc: Kip,
    kips: seq<Kip>,
    splash: seq<byte>,
    fusee: seq<byte>,
    rebootstub: seq<byte>)
  {
    /** The form of the input: digests, and seven KIPs under their names that each have a KIP header. */
    predicate Formed() {
      && revision < 0x1_0000_0000 && |eristaHash| == 4 && |marikoHash| == 4
      && |kips| == 7 && Package3.Formed(emummc) && AllFormed(kips)
      && forall k :: 0 <= k < 7 ==> kips[k].name == Ascii(KipName(k))
    }

    /** Every size and offset fits its field in the header. */
    predicate Packs()
      requires Formed()
    {
      && |warmboot| < 0x1_0000_0000 && |tsecKeygen| < 0x1_0000_0000 && |fatal| < 0x1_0000_0000
      && |exosphere| < 0x1_0000_0000 && |mesosphere| < 0x1_0000_0000 && |fusee| < 0x1_0000_0000
      && |rebootstub| < 0x1_0000_0000 && |emummc.data| < 0x1_0000_0000 && Packable(0x10_0000, emummc.data, kips, 7)
    }

    /** Every component fits its place, and every KIP its fields. */
    predicate Accepted() {
      && Formed() && |warmboot| <= 0x1800 && |tsecKeygen| <= 0x2000 && |fatal| <= 0x1_C000 && |exosphere| <= 0xE000
      && |mesosphere| <= 0xA_A000 && |splash| == 0x3C_0000 && |fusee| <= 0x2_0000 && |rebootstub| <= 0x1000
      && |emummc.data| < 0x1_0000_0000 && Packable(0x10_0000, emummc.data, kips, 7)
    }

    /** Size of the KIP area before it is filled up. */
    function KipTotal(): nat { KipStart(emummc.data, Datas(kips), |kips|) }

    /** The program holds both overlays whole, and the KIPs leave the splash screen its place. */
    predicate Fits() { 0x6_7000 <= |program| && KipTotal() <= 0x30_0000 }
  }

  function Min(a: nat, b: nat): nat { if a < b then a else b }

  /** `get_overlay`: a slice, cut short where the program ends. */
  function Overlay(program: seq<byte>, i: nat): (r: seq<byte>)
    ensures |r| <= 0x1_4000 && (|r| < 0x1_4000 ==> |program| < 0x2_B000 + 0x1_4000 * (i + 1))
    ensures forall k :: 0 <= k < |r| ==>
              0x2_B000 + 0x1_4000 * i + k < |program| && r[k] == program[0x2_B000 + 0x1_4000 * i + k]
  {
    var from, to := Min(|program|, 0x2_B000 + 0x1_4000 * i), Min(|program|, 0x2_B000 + 0x1_4000 * (i + 1));
    program[from..to]
  }

  /** The overlay with its last four bytes replaced by its hash. */
  function Signed(overlay: seq<byte>, hash: seq<byte>): (r: seq<byte>)
    requires |hash| == 4
    ensures |r| == if |overlay| < 4 then 4 else |overlay|
  {
    (if |overlay| < 4 then [] else overlay[..|overlay| - 4]) + hash
  }

  /** The sixteen words the header begins with. */
  function Preamble(x: Input): (r: seq<seq<byte>>)
    requires x.Formed()
    ensures |r| == 16 && forall k :: 0 <= k < 16 ==> |r[k]| == 4
  {
    var cc := Fill(0xCC, 4);
    [Ascii("PK31"), Bytes32(0x20), Bytes32(0), Bytes32(|x.mesosphere|), Bytes32(7), cc, cc, cc,
     Ascii("FSS0"), Bytes32(0x80_0000), cc, Bytes32(0x40), Bytes32(15), x.supported.Packed(), x.release.Packed(),
     Bytes32(x.revision)]
  }

  /** The content headers of everything but the seven KIPs. */
  function FixedHeaders(x: Input): (r: seq<seq<byte>>)
    requires x.Formed()
    ensures |r| == 8 && forall k :: 0 <= k < 8 ==> |r[k]| == 32
  {
    [ContentHeader(0x800, |x.warmboot|, 2, Ascii("warmboot")),
     ContentHeader(0x2000, |x.tsecKeygen|, 12, Ascii("tsec_keygen")),
     ContentHeader(0x4000, |x.fatal|, 11, Ascii("exosphere_fatal")),
     ContentHeader(0x4_8000, |x.exosphere|, 1, Ascii("exosphere")),
     ContentHeader(0x5_6000, |x.mesosphere|, 10, Ascii("mesosphere")),
     ContentHeader(0x7C_0000, |x.fusee|, 0, Ascii("fusee")),
     ContentHeader(0x7E_0000, |x.rebootstub|, 3, Ascii("rebootstub")),
     ContentHeader(0x10_0000, |x.emummc.data|, 8, Ascii("emummc"))]
  }

  /** What the header is made of, in the order it is written. */
  function HeaderParts(x: Input): (r: seq<seq<byte>>)
    requires x.Formed()
    ensures |r| == 7
  {
    [Flatten(Preamble(x)), Flatten(FixedHeaders(x)), Flatten(KipHeaders(x.emummc.data, x.kips, 7)),
     Fill(0xCC, 0x400 - 0x40 - 0x20 * 15), KipMeta(x.emummc.data, 0, x.emummc.hash),
     Flatten(KipMetas(x.emummc.data, x.kips, 7)), Fill(0xCC, 0x800 - (0x400 + 8 * 0x30))]
  }

  /** The parts of the file in the order they are written. */
  function Parts(x: Input): (r: seq<seq<byte>>)
    requires x.Formed()
    ensures |r| == 13
  {
    [Flatten(HeaderParts(x)), Pad(x.warmboot, 0x1800), Pad(x.tsecKeygen, 0x2000), Pad(x.fatal, 0x1_C000),
     Signed(Overlay(x.program, 1), x.eristaHash), Signed(Overlay(x.program, 2), x.marikoHash),
     Pad(x.exosphere, 0xE000), Pad(x.mesosphere, 0xA_A000),
     Area(x.emummc.data, Datas(x.kips), 7) + Fill(0xCC, 0x30_0000 - x.KipTotal()),
     x.splash, Pad(x.fusee, 0x2_0000), Pad(x.rebootstub, 0x1000), Fill(0xCC, 0x80_0000 - 0x7E_1000)]
  }

  // ----- where the parts come to lie

  /** Writing one more part. */
  lemma WriteNext(parts: seq<seq<byte>>, k: nat)
    requires k < |parts|
    ensures Flatten(parts[..k + 1]) == Flatten(parts[..k]) + parts[k]
  {
    FlattenSnoc(parts[..k], parts[k]);
    assert parts[..k + 1] == parts[..k] + [parts[k]];
  }

  lemma EqualLength(parts: seq<seq<byte>>, size: nat)
    requires forall k :: 0 <= k < |parts| ==> |parts[k]| == size
    ensures |Flatten(parts)| == |parts| * size
  {
    FlattenLength(parts);
    EqualStart(parts, size, |parts|);
  }

  lemma HeaderLayout(x: Input)
    requires x.Formed()
    ensures var h := HeaderParts(x);
            Start(h, 1) == 0x40 && Start(h, 2) == 0x140 && Start(h, 4) == 0x400 && Start(h, 5) == 0x430 &&
            |Flatten(h)| == 0x800
  {
    hide Flatten, Start, Preamble, FixedHeaders, KipHeaders, KipMetas, KipMeta, Fill;
    EqualLength(Preamble(x), 4);
    EqualLength(FixedHeaders(x), 32);
    EqualLength(KipHeaders(x.emummc.data, x.kips, 7), 32);
    EqualLength(KipMetas(x.emummc.data, x.kips, 7), 48);
    var h := HeaderParts(x);
    StartFirst(h);
    StartNext(h, 0); StartNext(h, 1); StartNext(h, 2); StartNext(h, 3); StartNext(h, 4); StartNext(h, 5);
    StartNext(h, 6);
    FlattenLength(h);
  }

  /** Start of every part, given the sizes of the three that vary. */
  lemma PartStarts(x: Input)
    requires x.Accepted()
    ensures var p := Parts(x); var here := 0x2_0000 + |p[4]| + |p[5]|; var there := here + 0xB_8000 + |p[8]|;
            Start(p, 0) == 0 && Start(p, 1) == 0x800 && Start(p, 2) == 0x2000 && Start(p, 3) == 0x4000 &&
            Start(p, 6) == here && Start(p, 7) == here + 0xE000 && Start(p, 8) == here + 0xB_8000 &&
            Start(p, 10) == there + 0x3C_0000 && Start(p, 11) == there + 0x3E_0000 &&
            |Flatten(p)| == there + 0x40_0000
  {
    hide Flatten, Start, HeaderParts, Fill, Pad, Signed, Overlay, Area;
    HeaderLayout(x);
    var p := Parts(x);
    StartFirst(p);
    StartNext(p, 0); StartNext(p, 1); StartNext(p, 2); StartNext(p, 3); StartNext(p, 4); StartNext(p, 5);
    StartNext(p, 6); StartNext(p, 7); StartNext(p, 8); StartNext(p, 9); StartNext(p, 10); StartNext(p, 11);
    StartNext(p, 12);
    FlattenLength(p);
  }

  lemma OverlaySizes(x: Input)
    requires x.Accepted()
    ensures |Overlay(x.program, 1)| == 0x1_4000 && |Overlay(x.program, 2)| == 0x1_4000 <==> 0x6_7000 <= |x.program|
  {
  }

  /** Every part lies where the header's constants say, in a file of 8 MiB, exactly when the input fits. */
  lemma PlannedExactlyWhenFits(x: Input)
    requires x.Accepted()
    ensures x.Fits() <==>
            var p := Parts(x);
            Start(p, 1) == 0x800 && Start(p, 2) == 0x2000 && Start(p, 3) == 0x4000 &&
            Start(p, 6) == 0x4_8000 && Start(p, 7) == 0x5_6000 && Start(p, 8) == 0x10_0000 &&
            Start(p, 10) == 0x7C_0000 && Start(p, 11) == 0x7E_0000 && |Flatten(p)| == 0x80_0000
  {
    hide Flatten, Start, HeaderParts, Fill, Pad, Overlay, Area, KipStart;
    PartStarts(x);
    OverlaySizes(x);
  }

  // ----- what the header announces

  /** The component behind content header `i`. */
  function Component(x: Input, i: nat): seq<byte>
    requires x.Accepted() && i < 15
  {
    if i < 8 then
      [x.warmboot, x.tsecKeygen, x.fatal, x.exosphere, x.mesosphere, x.fusee, x.rebootstub, x.emummc.data][i]
    else x.kips[i - 8].data
  }

  function Offset(x: Input, i: nat): nat
    requires x.Accepted() && i < 15
  {
    if i < 8 then [0x800, 0x2000, 0x4000, 0x4_8000, 0x5_6000, 0x7C_0000, 0x7E_0000, 0x10_0000][i]
    else 0x10_0000 + KipStart(x.emummc.data, Datas(x.kips), i - 8)
  }

  lemma SliceOfSlice(s: seq<byte>, a: nat, b: nat, i: nat, j: nat)
    requires i <= j && a + j <= b <= |s|
    ensures s[a..b][i..j] == s[a + i..a + j]
  {
    var inner := s[a..b];
    assert forall k :: i <= k < j ==> inner[k] == s[a + k];
  }

  /** A component at the front of part `k`. */
  lemma InPart(parts: seq<seq<byte>>, k: nat, i: nat, j: nat)
    requires k < |parts| && i <= j <= |parts[k]|
    ensures Start(parts, k) + j <= |Flatten(parts)|
    ensures Flatten(parts)[Start(parts, k) + i..Start(parts, k) + j] == parts[k][i..j]
  {
    hide Flatten, Start;
    PartAt(parts, k);
    SliceOfSlice(Flatten(parts), Start(parts, k), Start(parts, k) + |parts[k]|, i, j);
  }

  lemma PaddedAt(parts: seq<seq<byte>>, k: nat, data: seq<byte>, size: nat)
    requires k < |parts| && |data| <= size && parts[k] == Pad(data, size)
    ensures Start(parts, k) + |data| <= |Flatten(parts)|
    ensures Flatten(parts)[Start(parts, k)..Start(parts, k) + |data|] == data
  {
    hide Flatten, Start, Pad;
    InPart(parts, k, 0, |data|);
  }

  /** The KIP area holds the KIPs. */
  lemma KipAt(x: Input, k: nat)
    requires x.Accepted() && k < 7
    ensures var p := Parts(x); var from := Start(p, 8) + KipStart(x.emummc.data, Datas(x.kips), k);
            from + |x.kips[k].data| <= |Flatten(p)| && Flatten(p)[from..from + |x.kips[k].data|] == x.kips[k].data
  {
    hide Flatten, Start, Area, KipStart, HeaderParts, Pad, Overlay, Fill, Signed;
    var data, start := Datas(x.kips), KipStart(x.emummc.data, Datas(x.kips), k);
    KipInArea(x.emummc.data, data, 7, k);
    SliceOfFront(Area(x.emummc.data, data, 7), Fill(0xCC, 0x30_0000 - x.KipTotal()), start, start + |data[k]|);
    InPart(Parts(x), 8, start, start + |data[k]|);
  }

  lemma EmummcAt(x: Input)
    requires x.Accepted()
    ensures var p := Parts(x); var from := Start(p, 8);
            from + |x.emummc.data| <= |Flatten(p)| && Flatten(p)[from..from + |x.emummc.data|] == x.emummc.data
  {
    hide Flatten, Start, Area, KipStart, HeaderParts, Pad, Overlay, Fill, Signed;
    EmummcInArea(x.emummc.data, Datas(x.kips), 7);
    SliceOfFront(Area(x.emummc.data, Datas(x.kips), 7), Fill(0xCC, 0x30_0000 - x.KipTotal()), 0, |x.emummc.data|);
    InPart(Parts(x), 8, 0, |x.emummc.data|);
  }

  lemma ComponentAt(x: Input, i: nat)
    requires x.Accepted() && x.Fits() && i < 15
    ensures var file, from := Flatten(Parts(x)), Offset(x, i);
            from + |Component(x, i)| <= |file| && file[from..from + |Component(x, i)|] == Component(x, i)
  {
    hide Flatten, Start, Area, KipStart, HeaderParts, Pad, Overlay, Fill, Signed;
    PlannedExactlyWhenFits(x);
    var p := Parts(x);
    if i == 7 { EmummcAt(x); }
    else if i > 7 { KipAt(x, i - 8); }
    else if i == 0 { PaddedAt(p, 1, x.warmboot, 0x1800); }
    else if i == 1 { PaddedAt(p, 2, x.tsecKeygen, 0x2000); }
    else if i == 2 { PaddedAt(p, 3, x.fatal, 0x1_C000); }
    else if i == 3 { PaddedAt(p, 6, x.exosphere, 0xE000); }
    else if i == 4 { PaddedAt(p, 7, x.mesosphere, 0xA_A000); }
    else if i == 5 { PaddedAt(p, 10, x.fusee, 0x2_0000); }
    else { PaddedAt(p, 11, x.rebootstub, 0x1000); }
  }

  // ----- the header seen in the file

  lemma WordInSlice(s: seq<byte>, from: nat, to: nat, i: nat)
    requires from + i + 4 <= to <= |s|
    ensures Word(s[from..to], i) == Word(s, from + i)
  {
  }

  lemma InEqual(parts: seq<seq<byte>>, size: nat, i: nat)
    requires i < |parts| && forall k :: 0 <= k < |parts| ==> |parts[k]| == size
    ensures i * size + size <= |Flatten(parts)| && Flatten(parts)[i * size..i * size + size] == parts[i]
  {
    hide Flatten, Start;
    EqualStart(parts, size, i);
    PartAt(parts, i);
  }

  /** A stretch of a part of the header, found in the file. */
  lemma InHeader(x: Input, part: nat, i: nat, j: nat)
    requires x.Accepted() && part < 7 && i <= j <= |HeaderParts(x)[part]|
    ensures var at, file := Start(HeaderParts(x), part), Flatten(Parts(x));
            at + j <= |file| && file[at + i..at + j] == HeaderParts(x)[part][i..j]
  {
    hide Flatten, Start, HeaderParts, Fill, Pad, Signed, Overlay, Area, KipStart;
    var h, p := HeaderParts(x), Parts(x);
    var at := Start(h, part);
    InPart(h, part, i, j);
    StartFirst(p);
    InPart(p, 0, at + i, at + j);
  }

  lemma {:induction false} KipHeaderIs(emummc: seq<byte>, kips: seq<Kip>, n: nat, k: nat)
    requires k < n <= |kips|
    ensures KipHeaders(emummc, kips, n)[k] ==
            ContentHeader(0x10_0000 + KipStart(emummc, Datas(kips), k), |kips[k].data|, 6, kips[k].name)
    decreases n
  {
    hide ContentHeader, KipStart;
    if k == n - 1 {
    } else {
      KipHeaderIs(emummc, kips, n - 1, k);
    }
  }

  lemma {:induction false} KipMetaIs(emummc: seq<byte>, kips: seq<Kip>, n: nat, k: nat)
    requires k < n <= |kips| && AllFormed(kips)
    ensures KipMetas(emummc, kips, n)[k] == KipMeta(kips[k].data, KipStart(emummc, Datas(kips), k), kips[k].hash)
    decreases n
  {
    hide KipMeta, KipStart;
    if k == n - 1 {
    } else {
      KipMetaIs(emummc, kips, n - 1, k);
    }
  }

  /** Content header `i`. */
  function HeaderOf(x: Input, i: nat): (r: seq<byte>)
    requires x.Accepted() && i < 15
    ensures |r| == 32
  {
    if i < 8 then FixedHeaders(x)[i] else KipHeaders(x.emummc.data, x.kips, 7)[i - 8]
  }

  /** What content header `i` is called, and of which kind. */
  function Kind(i: nat): byte
    requires i < 15
  {
    if i < 8 then [2, 12, 11, 1, 10, 0, 3, 8][i] else 6
  }

  function Name(i: nat): string
    requires i < 15
  {
    if i < 8 then
      ["warmboot", "tsec_keygen", "exosphere_fatal", "exosphere", "mesosphere", "fusee", "rebootstub", "emummc"][i]
    else KipName(i - 8)
  }

  lemma HeaderOfIs(x: Input, i: nat)
    requires x.Accepted() && i < 15
    ensures HeaderOf(x, i) == ContentHeader(Offset(x, i), |Component(x, i)|, Kind(i), Ascii(Name(i)))
  {
    hide ContentHeader, KipStart, KipHeaders, Ascii;
    if i >= 8 { KipHeaderIs(x.emummc.data, x.kips, 7, i - 8); }
  }

  lemma HeaderOfFields(x: Input, i: nat)
    requires x.Accepted() && i < 15
    ensures Word(HeaderOf(x, i), 0) == Offset(x, i) && Word(HeaderOf(x, i), 4) == |Component(x, i)|
  {
    hide ContentHeader, KipStart, KipHeaders, Ascii, Word, HeaderOf, Kind, Name;
    HeaderOfIs(x, i);
    if i >= 8 { assert PacksAt(0x10_0000, x.emummc.data, x.kips, i - 8); }
    ContentHeaderFields(Offset(x, i), |Component(x, i)|, Kind(i), Ascii(Name(i)));
  }

  lemma HeaderAt(x: Input, i: nat)
    requires x.Accepted() && i < 15
    ensures var at, file := 0x40 + 0x20 * i, Flatten(Parts(x));
            at + 0x20 <= |file| && file[at..at + 0x20] == HeaderOf(x, i)
  {
    hide Flatten, Start, Parts, FixedHeaders, KipHeaders, KipStart;
    HeaderLayout(x);
    if i < 8 {
      InEqual(FixedHeaders(x), 32, i);
      InHeader(x, 1, i * 32, i * 32 + 32);
    } else {
      InEqual(KipHeaders(x.emummc.data, x.kips, 7), 32, i - 8);
      InHeader(x, 2, (i - 8) * 32, (i - 8) * 32 + 32);
    }
  }

  /** A piece of the preamble. */
  lemma PreambleAt(x: Input, i: nat)
    requires x.Accepted() && i < 16
    ensures 4 * i + 4 <= |Flatten(Parts(x))| && Flatten(Parts(x))[4 * i..4 * i + 4] == Preamble(x)[i]
  {
    hide Flatten, Start, Parts, Preamble;
    StartFirst(HeaderParts(x));
    InEqual(Preamble(x), 4, i);
    InHeader(x, 0, i * 4, i * 4 + 4);
  }

  lemma PreambleWord(x: Input, i: nat, value: nat)
    requires x.Accepted() && i < 16 && value < 0x1_0000_0000 && Preamble(x)[i] == Bytes32(value)
    ensures 4 * i + 4 <= |Flatten(Parts(x))| && Word(Flatten(Parts(x)), 4 * i) == value
  {
    hide Flatten, Start, Parts, Preamble, Bytes32, Word;
    PreambleAt(x, i);
    WordRoundTrip(Flatten(Parts(x)), 4 * i, value);
  }

  /** The header describes the file: its size, its content headers and, through them, every component. */
  lemma HeaderSelectsComponent(x: Input, i: nat)
    requires x.Accepted() && x.Fits() && i < 15
    ensures var file := Flatten(Parts(x)); var at := 0x40 + 0x20 * i;
            |file| == 0x80_0000 && Word(file, 0x24) == |file| && Word(file, 0x2C) == 0x40 && Word(file, 0x30) == 15 &&
            var from, size := Word(file, at), Word(file, at + 4);
            from + size <= |file| && file[from..from + size] == Component(x, i)
  {
    hide Flatten, Start, Parts, HeaderOf, Word, Component, Offset;
    PlannedExactlyWhenFits(x);
    PreambleWord(x, 9, 0x80_0000);
    PreambleWord(x, 11, 0x40);
    PreambleWord(x, 12, 15);
    HeaderAt(x, i);
    HeaderOfFields(x, i);
    ComponentAt(x, i);
    var file := Flatten(Parts(x));
    WordInSlice(file, 0x40 + 0x20 * i, 0x60 + 0x20 * i, 0);
    WordInSlice(file, 0x40 + 0x20 * i, 0x60 + 0x20 * i, 4);
  }

  /** The words the file begins with. */
  lemma PreambleWords(x: Input)
    requires x.Accepted()
    ensures var file := Flatten(Parts(x));
            0x40 <= |file| && Word(file, 0x4) == 0x20 && Word(file, 0x8) == 0 && Word(file, 0xC) == |x.mesosphere| &&
            Word(file, 0x10) == 7 && Word(file, 0x24) == 0x80_0000 && Word(file, 0x2C) == 0x40 &&
            Word(file, 0x30) == 15 && Word(file, 0x3C) == x.revision
  {
    hide Flatten, Parts, Bytes32, Word, Ascii, Fill;
    PreambleWord(x, 1, 0x20);
    PreambleWord(x, 2, 0);
    PreambleWord(x, 3, |x.mesosphere|);
    PreambleWord(x, 4, 7);
    PreambleWord(x, 9, 0x80_0000);
    PreambleWord(x, 11, 0x40);
    PreambleWord(x, 12, 15);
    PreambleWord(x, 15, x.revision);
  }

  /** Its magic numbers and versions. */
  lemma PreambleBytes(x: Input)
    requires x.Accepted()
    ensures var file := Flatten(Parts(x));
            0x40 <= |file| && file[0..4] == [0x50, 0x4B, 0x33, 0x31] && file[0x20..0x24] == [0x46, 0x53, 0x53, 0x30] &&
            file[0x34..0x38] == [x.supported.relstep, x.supported.micro, x.supported.minor, x.supported.major] &&
            file[0x38..0x3C] == [x.release.relstep, x.release.micro, x.release.minor, x.release.major]
  {
    assert Ascii("PK31") == [0x50, 0x4B, 0x33, 0x31] && Ascii("FSS0") == [0x46, 0x53, 0x53, 0x30];
    hide Flatten, Parts, Bytes32, Ascii, Fill;
    PreambleAt(x, 0);
    PreambleAt(x, 8);
    PreambleAt(x, 13);
    PreambleAt(x, 14);
    PreambleAt(x, 15);
  }

  /** What is reserved in it. */
  lemma ReservedBytes(x: Input)
    requires x.Accepted()
    ensures var file, cc := Flatten(Parts(x)), [0xCC, 0xCC, 0xCC, 0xCC];
            0x2C <= |file| && file[0x14..0x18] == cc && file[0x18..0x1C] == cc && file[0x1C..0x20] == cc &&
            file[0x28..0x2C] == cc
  {
    var p, cc := Preamble(x), Fill(0xCC, 4);
    assert p[5] == cc && p[6] == cc && p[7] == cc && p[10] == cc;
    assert cc == [0xCC, 0xCC, 0xCC, 0xCC];
    hide Flatten, Parts, Preamble, Fill;
    PreambleAt(x, 5);
    PreambleAt(x, 6);
    PreambleAt(x, 7);
    PreambleAt(x, 10);
  }

  lemma ContentHeaderTag(offset: nat, size: nat, kind: byte, name: seq<byte>)
    ensures var r := ContentHeader(offset, size, kind, name);
            r[8..16] == [kind, 0, 0, 0, 0xCC, 0xCC, 0xCC, 0xCC] && r[16..] == Pad(name, 16)
  {
    hide Pad;
    assert Bytes32(0xCCCC_CCCC) == [0xCC, 0xCC, 0xCC, 0xCC];
  }

  /** Every content header has its kind and its name, padded with zeros to 16 bytes. */
  lemma HeaderNamesComponent(x: Input, i: nat)
    requires x.Accepted() && i < 15
    ensures var at, file, name := 0x40 + 0x20 * i, Flatten(Parts(x)), Name(i);
            at + 0x20 <= |file| && |name| <= 16 &&
            file[at + 8..at + 16] == [Kind(i), 0, 0, 0, 0xCC, 0xCC, 0xCC, 0xCC] &&
            file[at + 16..at + 16 + |name|] == Ascii(name) &&
            forall k :: at + 16 + |name| <= k < at + 0x20 ==> file[k] == 0
  {
    hide Flatten, Start, Parts, HeaderOf, ContentHeader, Component, Offset, Ascii, Pad, Kind;
    HeaderAt(x, i);
    HeaderOfIs(x, i);
    ContentHeaderTag(Offset(x, i), |Component(x, i)|, Kind(i), Ascii(Name(i)));
    var file, at := Flatten(Parts(x)), 0x40 + 0x20 * i;
    SliceOfSlice(file, at, at + 0x20, 8, 16);
    SliceOfSlice(file, at, at + 0x20, 16, 0x20);
    NamePadded(file, at + 16, Ascii(Name(i)));
  }

  lemma NamePadded(s: seq<byte>, i: nat, name: seq<byte>)
    requires |name| <= 16 && i + 16 <= |s| && s[i..i + 16] == Pad(name, 16)
    ensures s[i..i + |name|] == name && forall k :: i + |name| <= k < i + 16 ==> s[k] == 0
  {
    var r := Pad(name, 16);
    hide Pad;
    SliceOfSlice(s, i, i + 16, 0, |name|);
    assert forall k :: i <= k < i + 16 ==> s[k] == s[i..i + 16][k - i];
  }

  // ----- what no content header announces

  lemma SignedSlices(overlay: seq<byte>, hash: seq<byte>)
    requires |hash| == 4 && 4 <= |overlay|
    ensures var r := Signed(overlay, hash);
            r[..|overlay| - 4] == overlay[..|overlay| - 4] && r[|overlay| - 4..] == hash
  {
  }

  lemma OverlayIsSlice(program: seq<byte>, i: nat)
    requires 0x2_B000 + 0x1_4000 * (i + 1) <= |program|
    ensures Overlay(program, i) == program[0x2_B000 + 0x1_4000 * i..0x2_B000 + 0x1_4000 * (i + 1)]
  {
  }

  /** An overlay as part `k` of a file. */
  lemma OverlayAt(parts: seq<seq<byte>>, k: nat, program: seq<byte>, i: nat, hash: seq<byte>)
    requires |hash| == 4 && k < |parts| && parts[k] == Signed(Overlay(program, i), hash)
    requires 0x2_B000 + 0x1_4000 * (i + 1) <= |program|
    ensures var file, from, at := Flatten(parts), Start(parts, k), 0x2_B000 + 0x1_4000 * i;
            from + 0x1_4000 <= |file| &&
            file[from..from + 0x1_3FFC] == program[at..at + 0x1_3FFC] &&
            file[from + 0x1_3FFC..from + 0x1_4000] == hash
  {
    hide Flatten, Start, Signed, Overlay;
    var overlay, at := Overlay(program, i), 0x2_B000 + 0x1_4000 * i;
    OverlayIsSlice(program, i);
    SignedSlices(overlay, hash);
    InPart(parts, k, 0, 0x1_3FFC);
    InPart(parts, k, 0x1_3FFC, 0x1_4000);
    SliceOfSlice(program, at, at + 0x1_4000, 0, 0x1_3FFC);
  }

  /** The two memory training overlays with their hashes, and the splash screen. */
  lemma OverlaysInPlace(x: Input)
    requires x.Accepted() && x.Fits()
    ensures var file := Flatten(Parts(x));
            |file| == 0x80_0000 &&
            file[0x2_0000..0x3_3FFC] == x.program[0x3_F000..0x5_2FFC] && file[0x3_3FFC..0x3_4000] == x.eristaHash &&
            file[0x3_4000..0x4_7FFC] == x.program[0x5_3000..0x6_6FFC] && file[0x4_7FFC..0x4_8000] == x.marikoHash &&
            file[0x40_0000..0x7C_0000] == x.splash
  {
    hide Flatten, Start, HeaderParts, Fill, Pad, Signed, Overlay, Area, KipStart;
    PlannedExactlyWhenFits(x);
    var p := Parts(x);
    OverlayIsSlice(x.program, 1);
    StartNext(p, 3);
    StartNext(p, 4);
    StartNext(p, 8);
    OverlayAt(p, 4, x.program, 1, x.eristaHash);
    OverlayAt(p, 5, x.program, 2, x.marikoHash);
    PartAt(p, 9);
  }

  // ----- what is filled up

  lemma PadTail(data: seq<byte>, size: nat)
    requires |data| <= size
    ensures Pad(data, size)[|data|..size] == Fill(0, size - |data|)
  {
  }

  /** How much of the file a padded component takes up. */
  function Room(i: nat): nat
    requires i < 7
  {
    [0x1800, 0x2000, 0x1_C000, 0xE000, 0xA_A000, 0x2_0000, 0x1000][i]
  }

  lemma ZeroBehind(parts: seq<seq<byte>>, k: nat, data: seq<byte>, size: nat)
    requires k < |parts| && |data| <= size && parts[k] == Pad(data, size)
    ensures var from, file := Start(parts, k), Flatten(parts);
            from + size <= |file| && file[from + |data|..from + size] == Fill(0, size - |data|)
  {
    hide Flatten, Start, Pad, Fill;
    PadTail(data, size);
    InPart(parts, k, |data|, size);
  }

  /** Behind a component its room is filled up with zeros. */
  lemma ZerosBehindComponent(x: Input, i: nat)
    requires x.Accepted() && x.Fits() && i < 7
    ensures |Component(x, i)| <= Room(i)
    ensures var file, from, end := Flatten(Parts(x)), Offset(x, i) + |Component(x, i)|, Offset(x, i) + Room(i);
            end <= |file| && file[from..end] == Fill(0, end - from)
  {
    hide Flatten, Start, Area, KipStart, HeaderParts, Pad, Overlay, Fill, Signed;
    PlannedExactlyWhenFits(x);
    var p := Parts(x);
    if i == 0 { ZeroBehind(p, 1, x.warmboot, 0x1800); }
    else if i == 1 { ZeroBehind(p, 2, x.tsecKeygen, 0x2000); }
    else if i == 2 { ZeroBehind(p, 3, x.fatal, 0x1_C000); }
    else if i == 3 { ZeroBehind(p, 6, x.exosphere, 0xE000); }
    else if i == 4 { ZeroBehind(p, 7, x.mesosphere, 0xA_A000); }
    else if i == 5 { ZeroBehind(p, 10, x.fusee, 0x2_0000); }
    else { ZeroBehind(p, 11, x.rebootstub, 0x1000); }
  }

  /** The filler between KIPs. */
  lemma KipGap(x: Input, k: nat)
    requires x.Accepted() && x.Fits() && k <= 7
    ensures var file, data := Flatten(Parts(x)), Datas(x.kips);
            var end := 0x10_0000 + EndBefore(x.emummc.data, data, k);
            var next := 0x10_0000 + KipStart(x.emummc.data, data, k);
            end <= next <= |file| && file[end..next] == Fill(0xCC, next - end)
  {
    hide Flatten, Start, Area, KipStart, HeaderParts, Pad, Overlay, Fill, Signed, EndBefore;
    PlannedExactlyWhenFits(x);
    var data, area := Datas(x.kips), Area(x.emummc.data, Datas(x.kips), 7);
    var end, next := EndBefore(x.emummc.data, data, k), KipStart(x.emummc.data, data, k);
    GapInArea(x.emummc.data, data, 7, k);
    SliceOfFront(area, Fill(0xCC, 0x30_0000 - x.KipTotal()), end, next);
    InPart(Parts(x), 8, end, next);
  }

  /** The rest of the header, of the KIP area and of the file is filler. */
  lemma FillersInPlace(x: Input)
    requires x.Accepted() && x.Fits()
    ensures var file := Flatten(Parts(x));
            |file| == 0x80_0000 && file[0x220..0x400] == Fill(0xCC, 0x1E0) && file[0x580..0x800] == Fill(0xCC, 0x280) &&
            file[0x10_0000 + x.KipTotal()..0x40_0000] == Fill(0xCC, 0x30_0000 - x.KipTotal()) &&
            file[0x7E_1000..] == Fill(0xCC, 0x1_F000)
  {
    hide Flatten, Start, Area, KipStart, Pad, Overlay, Fill, Signed, HeaderParts;
    PlannedExactlyWhenFits(x);
    HeaderFillers(x);
    var p, total := Parts(x), x.KipTotal();
    var filler := Fill(0xCC, 0x30_0000 - total);
    assert p[8][total..0x30_0000] == filler;
    InPart(p, 8, total, 0x30_0000);
    StartNext(p, 11);
    PartAt(p, 12);
  }

  lemma HeaderFillers(x: Input)
    requires x.Accepted()
    ensures var file := Flatten(Parts(x));
            0x800 <= |file| && file[0x220..0x400] == Fill(0xCC, 0x1E0) && file[0x580..0x800] == Fill(0xCC, 0x280)
  {
    hide Flatten, Start, Parts, Fill, Preamble, FixedHeaders, KipHeaders, KipMetas, KipMeta;
    HeaderLayout(x);
    var h := HeaderParts(x);
    EqualLength(KipHeaders(x.emummc.data, x.kips, 7), 32);
    EqualLength(KipMetas(x.emummc.data, x.kips, 7), 48);
    StartNext(h, 2);
    StartNext(h, 5);
    InHeader(x, 3, 0, 0x1E0);
    InHeader(x, 6, 0, 0x280);
  }

  // ----- the KIP metas

  function KipOf(x: Input, k: nat): Kip
    requires x.Accepted() && k < 8
  {
    if k == 0 then x.emummc else x.kips[k - 1]
  }

  lemma KipOfComponent(x: Input, k: nat)
    requires x.Accepted() && k < 8
    ensures KipOf(x, k).data == Component(x, 7 + k) && Formed(KipOf(x, k)) && |KipOf(x, k).data| < 0x1_0000_0000
    ensures 0x10_0000 <= Offset(x, 7 + k) < 0x1_0000_0000
  {
    hide KipStart;
    if k > 0 { assert PacksAt(0x10_0000, x.emummc.data, x.kips, k - 1); }
  }

  lemma MetaAt(x: Input, k: nat)
    requires x.Accepted() && k < 8
    ensures 0x10_0000 <= Offset(x, 7 + k) < 0x1_0000_0000 && Formed(KipOf(x, k))
    ensures var at, file := 0x400 + 0x30 * k, Flatten(Parts(x));
            at + 0x30 <= |file| &&
            file[at..at + 0x30] == KipMeta(KipOf(x, k).data, Offset(x, 7 + k) - 0x10_0000, KipOf(x, k).hash)
  {
    hide Flatten, Start, Parts, KipMetas, KipStart, KipMeta;
    HeaderLayout(x);
    KipOfComponent(x, k);
    if k == 0 {
      InHeader(x, 4, 0, 48);
    } else {
      KipMetaIs(x.emummc.data, x.kips, 7, k - 1);
      InEqual(KipMetas(x.emummc.data, x.kips, 7), 48, k - 1);
      InHeader(x, 5, (k - 1) * 48, (k - 1) * 48 + 48);
    }
  }

  lemma KipMetaFields(kip: seq<byte>, offset: nat, hash: seq<byte>)
    requires 0x18 <= |kip| < 0x1_0000_0000 && offset < 0x1_0000_0000 && |hash| == 32
    ensures var r := KipMeta(kip, offset, hash);
            r[..8] == kip[0x10..0x18] && Word(r, 8) == offset && Word(r, 12) == |kip| && r[16..] == hash
  {
    hide Bytes32, Word;
    var r := KipMeta(kip, offset, hash);
    assert r[8..12] == Bytes32(offset) && r[12..16] == Bytes32(|kip|);
    WordRoundTrip(r, 8, offset);
    WordRoundTrip(r, 12, |kip|);
  }

  /** The three running offsets agree: a KIP meta, the content header and the KIP's place are one. */
  lemma MetaAgreesWithHeader(x: Input, k: nat)
    requires x.Accepted() && x.Fits() && k < 8
    ensures |Flatten(Parts(x))| == 0x80_0000
    ensures var file := Flatten(Parts(x)); var meta, at := 0x400 + 0x30 * k, 0x40 + 0x20 * (7 + k);
            Word(file, meta + 8) + 0x10_0000 == Word(file, at) && Word(file, meta + 12) == Word(file, at + 4) &&
            Word(file, at) % 16 == 0 && file[meta..meta + 8] == KipOf(x, k).data[0x10..0x18] &&
            file[meta + 16..meta + 0x30] == KipOf(x, k).hash
  {
    hide Flatten, Start, Parts, HeaderOf, Word, Component, KipMeta, KipStart;
    PlannedExactlyWhenFits(x);
    HeaderAt(x, 7 + k);
    HeaderOfFields(x, 7 + k);
    MetaAt(x, k);
    KipOfComponent(x, k);
    KipMetaFields(KipOf(x, k).data, Offset(x, 7 + k) - 0x10_0000, KipOf(x, k).hash);
    var file, meta, at := Flatten(Parts(x)), 0x400 + 0x30 * k, 0x40 + 0x20 * (7 + k);
    WordInSlice(file, at, at + 0x20, 0);
    WordInSlice(file, at, at + 0x20, 4);
    WordInSlice(file, meta, meta + 0x30, 8);
    WordInSlice(file, meta, meta + 0x30, 12);
    SliceOfSlice(file, meta, meta + 0x30, 0, 8);
    SliceOfSlice(file, meta, meta + 0x30, 16, 0x30);
  }

  /** What lies behind two content headers does not overlap. */
  lemma ComponentsApart(x: Input, i: nat, j: nat)
    requires x.Accepted() && x.Fits() && i < 15 && j < 15 && i != j
    ensures Offset(x, i) + |Component(x, i)| <= Offset(x, j) || Offset(x, j) + |Component(x, j)| <= Offset(x, i)
  {
    hide KipStart;
    KipSpan(x, 0);
    if i > 7 { KipSpan(x, i - 8); }
    if j > 7 { KipSpan(x, j - 8); }
    if i > 7 && j > 7 { if i < j { KipsApart(x, i - 8, j - 8); } else { KipsApart(x, j - 8, i - 8); } }
  }

  lemma KipSpan(x: Input, k: nat)
    requires x.Accepted() && k < 7
    ensures |x.emummc.data| <= KipStart(x.emummc.data, Datas(x.kips), k)
    ensures KipStart(x.emummc.data, Datas(x.kips), k) + |x.kips[k].data| <= x.KipTotal()
  {
    EmummcInArea(x.emummc.data, Datas(x.kips), k);
    KipInArea(x.emummc.data, Datas(x.kips), 7, k);
  }

  lemma KipsApart(x: Input, i: nat, j: nat)
    requires x.Accepted() && i < j < 7
    ensures KipStart(x.emummc.data, Datas(x.kips), i) + |x.kips[i].data| <= KipStart(x.emummc.data, Datas(x.kips), j)
  {
    KipInArea(x.emummc.data, Datas(x.kips), j, i);
  }

  // ----- the script

  datatype Outcome = Written(file: seq<byte>) | Raised

  lemma NothingWritten(parts: seq<seq<byte>>)
    ensures Flatten(parts[..0]) == []
  {
  }

  /** `f.write`, for the next part. */
  method Write(file: seq<byte>, part: seq<byte>, ghost parts: seq<seq<byte>>, ghost k: nat) returns (file': seq<byte>)
    requires k < |parts| && part == parts[k] && file == Flatten(parts[..k])
    ensures file' == Flatten(parts[..k + 1])
  {
    WriteNext(parts, k);
    file' := file + part;
  }

  /** `f.write` of padded data; `pad` may raise. */
  method WritePadded(file: seq<byte>, data: seq<byte>, size: nat, ghost parts: seq<seq<byte>>, ghost k: nat)
    returns (r: Option<seq<byte>>)
    requires k < |parts| && Pad(data, size) == parts[k] && file == Flatten(parts[..k])
    ensures r.Some? <==> |data| <= size
    ensures r.Some? ==> r.value == Flatten(parts[..k + 1])
  {
    hide Flatten, Pad;
    var padded := PadTo(data, size);
    if padded.None? { return None; }
    var file' := Write(file, padded.value, parts, k);
    r := Some(file');
  }

  /** The next content header. */
  method WriteNextHeader(file: seq<byte>, offset: nat, size: nat, kind: byte, name: seq<byte>,
                         ghost parts: seq<seq<byte>>, ghost k: nat)
    returns (r: Option<seq<byte>>)
    requires k < |parts| && ContentHeader(offset, size, kind, name) == parts[k] && file == Flatten(parts[..k])
    requires offset < 0x1_0000_0000
    ensures r.Some? <==> size < 0x1_0000_0000
    ensures r.Some? ==> r.value == Flatten(parts[..k + 1])
  {
    WriteNext(parts, k);
    hide Flatten, ContentHeader;
    r := WriteContentHeader(file, offset, size, kind, name);
  }

  /** The first half of the preamble. */
  method WriteMetadata(x: Input) returns (r: Option<seq<byte>>)
    requires x.Formed()
    ensures r.Some? <==> |x.mesosphere| < 0x1_0000_0000
    ensures r.Some? ==> r.value == Flatten(Preamble(x)[..8])
  {
    hide Flatten, Bytes32, Ascii, Fill;
    ghost var p := Preamble(x);
    NothingWritten(p);
    var file := Write([], Ascii("PK31"), p, 0);
    file := Write(file, Bytes32(0x20), p, 1);
    file := Write(file, Bytes32(0), p, 2);
    var size := Pack32(|x.mesosphere|);
    if size.None? { return None; }
    file := Write(file, size.value, p, 3);
    file := Write(file, Bytes32(7), p, 4);
    file := Write(file, Fill(0xCC, 4), p, 5);
    file := Write(file, Fill(0xCC, 4), p, 6);
    file := Write(file, Fill(0xCC, 4), p, 7);
    r := Some(file);
  }

  /** The preamble. */
  method WritePreamble(x: Input) returns (r: Option<seq<byte>>)
    requires x.Formed()
    ensures r.Some? <==> |x.mesosphere| < 0x1_0000_0000
    ensures r.Some? ==> r.value == Flatten(Preamble(x))
  {
    hide Flatten, Bytes32, Ascii, Fill;
    ghost var p := Preamble(x);
    var front := WriteMetadata(x);
    if front.None? { return None; }
    var file := Write(front.value, Ascii("FSS0"), p, 8);
    file := Write(file, Bytes32(0x80_0000), p, 9);
    file := Write(file, Fill(0xCC, 4), p, 10);
    file := Write(file, Bytes32(0x40), p, 11);
    file := Write(file, Bytes32(15), p, 12);
    file := Write(file, x.supported.Packed(), p, 13);
    file := Write(file, x.release.Packed(), p, 14);
    file := Write(file, Bytes32(x.revision), p, 15);
    assert p[..16] == p;
    r := Some(file);
  }

  /** The content headers of everything but the seven KIPs. */
  method WriteFixedHeaders(x: Input) returns (r: Option<seq<byte>>)
    requires x.Formed()
    ensures r.Some? <==>
              |x.warmboot| < 0x1_0000_0000 && |x.tsecKeygen| < 0x1_0000_0000 && |x.fatal| < 0x1_0000_0000 &&
              |x.exosphere| < 0x1_0000_0000 && |x.mesosphere| < 0x1_0000_0000 && |x.fusee| < 0x1_0000_0000 &&
              |x.rebootstub| < 0x1_0000_0000 && |x.emummc.data| < 0x1_0000_0000
    ensures r.Some? ==> r.value == Flatten(FixedHeaders(x))
  {
    hide Flatten, ContentHeader, Ascii;
    ghost var h := FixedHeaders(x);
    NothingWritten(h);
    r := WriteNextHeader([], 0x800, |x.warmboot|, 2, Ascii("warmboot"), h, 0);
    if r.None? { return; }
    r := WriteNextHeader(r.value, 0x2000, |x.tsecKeygen|, 12, Ascii("tsec_keygen"), h, 1);
    if r.None? { return; }
    r := WriteNextHeader(r.value, 0x4000, |x.fatal|, 11, Ascii("exosphere_fatal"), h, 2);
    if r.None? { return; }
    r := WriteNextHeader(r.value, 0x4_8000, |x.exosphere|, 1, Ascii("exosphere"), h, 3);
    if r.None? { return; }
    r := WriteNextHeader(r.value, 0x5_6000, |x.mesosphere|, 10, Ascii("mesosphere"), h, 4);
    if r.None? { return; }
    r := WriteNextHeader(r.value, 0x7C_0000, |x.fusee|, 0, Ascii("fusee"), h, 5);
    if r.None? { return; }
    r := WriteNextHeader(r.value, 0x7E_0000, |x.rebootstub|, 3, Ascii("rebootstub"), h, 6);
    if r.None? { return; }
    r := WriteNextHeader(r.value, 0x10_0000, |x.emummc.data|, 8, Ascii("emummc"), h, 7);
    assert h[..8] == h;
  }

  /** `write_header`: it raises exactly when some size or offset does not fit its field. */
  method WriteHeader(x: Input) returns (r: Option<seq<byte>>)
    requires x.Formed()
    ensures r.Some? <==> x.Packs()
    ensures r.Some? ==> r.value == Flatten(HeaderParts(x)) && |r.value| == 0x800
  {
    hide Flatten, Preamble, FixedHeaders, KipHeaders, KipMetas, KipMeta, Fill, Packable;
    ghost var h := HeaderParts(x);
    NothingWritten(h);
    r := WritePreamble(x);
    if r.None? { return; }
    var file := Write([], r.value, h, 0);
    r := WriteFixedHeaders(x);
    if r.None? { return; }
    file := Write(file, r.value, h, 1);
    r := WriteKipHeaders(file, x.emummc.data, x.kips);
    if r.None? { return; }
    WriteNext(h, 2);
    MetasPack(x.emummc.data, x.kips);
    file := Write(r.value, Fill(0xCC, 0x400 - 0x40 - 0x20 * 15), h, 3);
    r := WriteKipMeta(file, x.emummc, 0x10_0000);
    WriteNext(h, 4);
    r := WriteKipMetas(r.value, x.emummc.data, x.kips);
    WriteNext(h, 5);
    file := Write(r.value, Fill(0xCC, 0x800 - (0x400 + 8 * 0x30)), h, 6);
    assert h[..7] == h;
    HeaderLayout(x);
    r := Some(file);
  }

  /** Everything in front of the KIPs. */
  method WriteFront(x: Input) returns (r: Option<seq<byte>>)
    requires x.Formed()
    ensures r.Some? <==>
              x.Packs() && |x.warmboot| <= 0x1800 && |x.tsecKeygen| <= 0x2000 && |x.fatal| <= 0x1_C000 &&
              |x.exosphere| <= 0xE000 && |x.mesosphere| <= 0xA_A000
    ensures r.Some? ==> r.value == Flatten(Parts(x)[..8])
  {
    hide Flatten, HeaderParts, Pad, Signed, Overlay, Area, Fill, KipStart, Packable, Input.Packs;
    ghost var p := Parts(x);
    NothingWritten(p);
    r := WriteHeader(x);
    if r.None? { return; }
    var file := Write([], r.value, p, 0);
    r := WritePadded(file, x.warmboot, 0x1800, p, 1);
    if r.None? { return; }
    r := WritePadded(r.value, x.tsecKeygen, 0x2000, p, 2);
    if r.None? { return; }
    r := WritePadded(r.value, x.fatal, 0x1_C000, p, 3);
    if r.None? { return; }
    file := Write(r.value, Signed(Overlay(x.program, 1), x.eristaHash), p, 4);
    file := Write(file, Signed(Overlay(x.program, 2), x.marikoHash), p, 5);
    r := WritePadded(file, x.exosphere, 0xE000, p, 6);
    if r.None? { return; }
    r := WritePadded(r.value, x.mesosphere, 0xA_A000, p, 7);
  }

  /** The KIPs and everything behind them. */
  method WriteBack(file: seq<byte>, x: Input) returns (r: Option<seq<byte>>)
    requires x.Formed() && file == Flatten(Parts(x)[..8])
    ensures r.Some? <==> |x.fusee| <= 0x2_0000 && |x.rebootstub| <= 0x1000
    ensures r.Some? ==> r.value == Flatten(Parts(x))
  {
    hide Flatten, HeaderParts, Pad, Signed, Overlay, Area, Fill, KipStart;
    ghost var p := Parts(x);
    WriteNext(p, 8);
    var file' := WriteKips(file, x.emummc.data, Datas(x.kips));
    file' := Write(file', x.splash, p, 9);
    r := WritePadded(file', x.fusee, 0x2_0000, p, 10);
    if r.None? { return; }
    r := WritePadded(r.value, x.rebootstub, 0x1000, p, 11);
    if r.None? { return; }
    file' := Write(r.value, Fill(0xCC, 0x80_0000 - 0x7E_1000), p, 12);
    assert p[..13] == p;
    r := Some(file');
  }

  /** `main`, once the inputs are read: it raises exactly when the input is not accepted. */
  method Build(x: Input) returns (r: Outcome)
    requires x.Formed()
    ensures r.Written? <==> x.Accepted()
    ensures r.Written? ==> r.file == Flatten(Parts(x))
  {
    hide Flatten, Parts, Packable;
    if |x.splash| != 0x3C_0000 { return Raised; }
    var front := WriteFront(x);
    if front.None? { return Raised; }
    var whole := WriteBack(front.value, x);
    if whole.None? { return Raised; }
    r := Written(whole.value);
  }
}
