/**
 The package3 image: a header that announces where every component lies, written by one
 running offset, and the components themselves, written by another.
 */
module Package3 {
  import opened Arithmetic
  import opened Bytes
  import opened Flattening
  import opened Options
  import opened Words

  function Fill(value: byte, n: int): (r: seq<byte>)
    ensures |r| == if n < 0 then 0 else n
  {
    seq(if n < 0 then 0 else n, _ => value)
  }

  /** `(n + 0xF) & ~0xF`. */
  function Align16(n: nat): (r: nat)
    ensures n <= r < n + 16 && r % 16 == 0
  {
    (n + 15) / 16 * 16
  }

  /** What `pad` returns, if its assertion holds. */
  function Pad(data: seq<byte>, size: nat): (r: seq<byte>)
    ensures |r| == size && (|data| <= size ==> r[..|data|] == data)
    ensures forall k :: |data| <= k < size ==> r[k] == 0
  {
    (data + Fill(0, size))[..size]
  }

  /** `pad`: it raises exactly for data that is too long. */
  method PadTo(data: seq<byte>, size: nat) returns (r: Option<seq<byte>>)
    ensures r.Some? <==> |data| <= size
    ensures r.Some? ==> r.value == Pad(data, size)
  {
    if |data| > size { return None; }
    r := Some((data + Fill(0, size))[..size]);
  }

  // ----- the KIP area

  /** Offset of KIP `k` from the start of the area; `k == |kips|` is the end of the last one. */
  function KipStart(emummc: seq<byte>, kips: seq<seq<byte>>, k: nat): (r: nat)
    requires k <= |kips|
    ensures r % 16 == 0
  {
    if k == 0 then Align16(|emummc|) else Align16(KipStart(emummc, kips, k - 1) + |kips[k - 1]|)
  }

  /** The bytes that follow `n` bytes up to the next multiple of 16. */
  function Padding(n: nat): (r: seq<byte>)
    ensures n + |r| == Align16(n)
  {
    if n % 16 != 0 then Fill(0xCC, 16 - n % 16) else []
  }

  /** The area after its first `k` KIPs. */
  function Area(emummc: seq<byte>, kips: seq<seq<byte>>, k: nat): (r: seq<byte>)
    requires k <= |kips|
    ensures |r| == KipStart(emummc, kips, k)
  {
    if k == 0 then emummc + Padding(|emummc|)
    else
      var before := Area(emummc, kips, k - 1);
      before + kips[k - 1] + Padding(|before| + |kips[k - 1]|)
  }

  lemma SliceOfFront(a: seq<byte>, b: seq<byte>, i: nat, j: nat)
    requires i <= j <= |a|
    ensures (a + b)[i..j] == a[i..j]
  {
  }

  lemma SliceOfNext(a: seq<byte>, b: seq<byte>, c: seq<byte>)
    ensures (a + b + c)[|a|..|a| + |b|] == b && a + b + c == a + (b + c)
  {
  }

  lemma {:induction false} EmummcInArea(emummc: seq<byte>, kips: seq<seq<byte>>, n: nat)
    requires n <= |kips|
    ensures |emummc| <= |Area(emummc, kips, n)| && Area(emummc, kips, n)[0..|emummc|] == emummc
    decreases n
  {
    hide Padding, Align16, KipStart;
    if n == 0 {
    } else {
      EmummcInArea(emummc, kips, n - 1);
      var before := Area(emummc, kips, n - 1);
      var tail := Padding(|before| + |kips[n - 1]|);
      SliceOfNext(before, kips[n - 1], tail);
      SliceOfFront(before, kips[n - 1] + tail, 0, |emummc|);
    }
  }

  /** Every KIP lies at its 16-aligned offset, behind everything before it. */
  lemma {:induction false} KipInArea(emummc: seq<byte>, kips: seq<seq<byte>>, n: nat, k: nat)
    requires k < n <= |kips|
    ensures var start, area := KipStart(emummc, kips, k), Area(emummc, kips, n);
            start + |kips[k]| <= KipStart(emummc, kips, k + 1) <= |area| &&
            start + |kips[k]| <= |area| && area[start..start + |kips[k]|] == kips[k]
    decreases n
  {
    hide Padding, Align16;
    var before := Area(emummc, kips, n - 1);
    var tail := Padding(|before| + |kips[n - 1]|);
    SliceOfNext(before, kips[n - 1], tail);
    if k < n - 1 {
      KipInArea(emummc, kips, n - 1, k);
      var start := KipStart(emummc, kips, k);
      SliceOfFront(before, kips[n - 1] + tail, start, start + |kips[k]|);
    }
  }

  /** Where emuMMC, or KIP `k - 1`, ends. */
  function EndBefore(emummc: seq<byte>, kips: seq<seq<byte>>, k: nat): nat
    requires k <= |kips|
  {
    if k == 0 then |emummc| else KipStart(emummc, kips, k - 1) + |kips[k - 1]|
  }

  /** From there to the next KIP there is only filler. */
  lemma {:induction false} GapInArea(emummc: seq<byte>, kips: seq<seq<byte>>, n: nat, k: nat)
    requires k <= n <= |kips|
    ensures var end, next, area := EndBefore(emummc, kips, k), KipStart(emummc, kips, k), Area(emummc, kips, n);
            end <= next <= |area| && area[end..next] == Fill(0xCC, next - end)
    decreases n
  {
    hide Fill, EndBefore, KipStart, Padding, Align16;
    if k == n {
      GapAtEnd(emummc, kips, n);
    } else {
      GapInArea(emummc, kips, n - 1, k);
      AreaNext(emummc, kips, n);
      hide Area;
      var before := Area(emummc, kips, n - 1);
      SliceOfFront(before, Area(emummc, kips, n)[|before|..], EndBefore(emummc, kips, k), KipStart(emummc, kips, k));
    }
  }

  lemma AreaNext(emummc: seq<byte>, kips: seq<seq<byte>>, n: nat)
    requires 0 < n <= |kips|
    ensures var before, area := Area(emummc, kips, n - 1), Area(emummc, kips, n);
            |before| <= |area| && area == before + area[|before|..]
  {
    hide Padding, KipStart;
  }

  lemma GapAtEnd(emummc: seq<byte>, kips: seq<seq<byte>>, n: nat)
    requires n <= |kips|
    ensures var end, area := EndBefore(emummc, kips, n), Area(emummc, kips, n);
            end <= |area| && area[end..|area|] == Fill(0xCC, |area| - end)
  {
    hide Align16;
    var front := if n == 0 then emummc else Area(emummc, kips, n - 1) + kips[n - 1];
    var area := Area(emummc, kips, n);
    assert area == front + Padding(|front|);
    assert area[|front|..] == Padding(|front|);
  }

  /** Write filler up to the next multiple of 16. */
  method AppendPadding(file: seq<byte>, tot: nat) returns (file': seq<byte>, tot': nat)
    ensures file' == file + Padding(tot) && tot' == tot + |Padding(tot)|
  {
    file', tot' := file, tot;
    if tot % 16 != 0 {
      file' := file' + Fill(0xCC, 16 - tot % 16);
      tot' := Align16(tot);
    }
  }

  /** `write_kips`: the area is appended to the file, `tot` counting what has been written. */
  method WriteKips(file: seq<byte>, emummc: seq<byte>, kips: seq<seq<byte>>) returns (file': seq<byte>)
    ensures file' == file + (Area(emummc, kips, |kips|) + Fill(0xCC, 0x30_0000 - KipStart(emummc, kips, |kips|)))
  {
    hide Padding, Fill, KipStart;
    var tot := |emummc|;
    file', tot := AppendPadding(file + emummc, tot);
    assert file' == file + Area(emummc, kips, 0);
    var k := 0;
    while k < |kips|
      invariant 0 <= k <= |kips| && tot == |Area(emummc, kips, k)| && file' == file + Area(emummc, kips, k)
    {
      ghost var area := Area(emummc, kips, k);
      file', tot := AppendPadding(file' + kips[k], tot + |kips[k]|);
      assert file' == file + (area + kips[k] + Padding(|area| + |kips[k]|));
      k := k + 1;
    }
    file' := file' + Fill(0xCC, 0x30_0000 - tot);
  }

  // ----- the header

  /** One content header: 32 bytes, offset and size first. */
  function ContentHeader(offset: nat, size: nat, kind: byte, name: seq<byte>): (r: seq<byte>)
    ensures |r| == 32
  {
    Bytes32(offset) + Bytes32(size) + [kind, 0, 0, 0] + Bytes32(0xCCCC_CCCC) + Pad(name, 16)
  }

  lemma ContentHeaderFields(offset: nat, size: nat, kind: byte, name: seq<byte>)
    requires offset < 0x1_0000_0000 && size < 0x1_0000_0000
    ensures var r := ContentHeader(offset, size, kind, name); Word(r, 0) == offset && Word(r, 4) == size
  {
    hide Bytes32, Pad;
    var r := ContentHeader(offset, size, kind, name);
    assert r[0..4] == Bytes32(offset) && r[4..8] == Bytes32(size);
    WordRoundTrip(r, 0, offset);
    WordRoundTrip(r, 4, size);
  }

  /** One KIP meta: 48 bytes, program id, offset and size, hash. */
  function KipMeta(kip: seq<byte>, offset: nat, hash: seq<byte>): (r: seq<byte>)
    requires 0x18 <= |kip| && |hash| == 32
    ensures |r| == 48
  {
    kip[0x10..0x18] + (Bytes32(offset) + Bytes32(|kip|)) + hash
  }

  datatype Kip = Kip(name: seq<byte>, data: seq<byte>, hash: seq<byte>)

  /** A KIP has the header its program id is read from, and a hash. */
  predicate Formed(k: Kip) { 0x18 <= |k.data| && |k.hash| == 32 }

  predicate AllFormed(kips: seq<Kip>) { forall k :: 0 <= k < |kips| ==> Formed(kips[k]) }

  function Datas(kips: seq<Kip>): (r: seq<seq<byte>>)
    ensures |r| == |kips| && forall i :: 0 <= i < |r| ==> r[i] == kips[i].data
  {
    seq(|kips|, i requires 0 <= i < |kips| => kips[i].data)
  }

  /** The sizes of the first `n` KIPs, and their offsets counted from `base`, fit 32-bit fields. */
  predicate Packable(base: nat, emummc: seq<byte>, kips: seq<Kip>, n: nat)
    requires n <= |kips|
  {
    forall k :: 0 <= k < n ==> PacksAt(base, emummc, kips, k)
  }

  predicate PacksAt(base: nat, emummc: seq<byte>, kips: seq<Kip>, k: nat)
    requires k < |kips|
  {
    |kips[k].data| < 0x1_0000_0000 && base + KipStart(emummc, Datas(kips), k) < 0x1_0000_0000
  }

  /** What the header says about every KIP: offsets all taken from `KipStart`. */
  function KipHeaders(emummc: seq<byte>, kips: seq<Kip>, n: nat): (r: seq<seq<byte>>)
    requires n <= |kips|
    ensures |r| == n && forall k :: 0 <= k < n ==> |r[k]| == 32
  {
    if n == 0 then []
    else
      KipHeaders(emummc, kips, n - 1) +
      [ContentHeader(0x10_0000 + KipStart(emummc, Datas(kips), n - 1), |kips[n - 1].data|, 6, kips[n - 1].name)]
  }

  function KipMetas(emummc: seq<byte>, kips: seq<Kip>, n: nat): (r: seq<seq<byte>>)
    requires n <= |kips| && AllFormed(kips)
    ensures |r| == n && forall k :: 0 <= k < n ==> |r[k]| == 48
  {
    if n == 0 then []
    else
      KipMetas(emummc, kips, n - 1) +
      [KipMeta(kips[n - 1].data, KipStart(emummc, Datas(kips), n - 1), kips[n - 1].hash)]
  }

  lemma NextHeader(emummc: seq<byte>, kips: seq<Kip>, k: nat)
    requires k < |kips|
    ensures Flatten(KipHeaders(emummc, kips, k + 1)) ==
            Flatten(KipHeaders(emummc, kips, k)) +
            ContentHeader(0x10_0000 + KipStart(emummc, Datas(kips), k), |kips[k].data|, 6, kips[k].name)
  {
    hide ContentHeader, Flatten, KipStart;
    FlattenSnoc(KipHeaders(emummc, kips, k),
               ContentHeader(0x10_0000 + KipStart(emummc, Datas(kips), k), |kips[k].data|, 6, kips[k].name));
  }

  lemma NextMeta(emummc: seq<byte>, kips: seq<Kip>, k: nat)
    requires AllFormed(kips) && k < |kips|
    ensures Flatten(KipMetas(emummc, kips, k + 1)) ==
            Flatten(KipMetas(emummc, kips, k)) +
            KipMeta(kips[k].data, KipStart(emummc, Datas(kips), k), kips[k].hash)
  {
    hide KipMeta, Flatten, KipStart;
    FlattenSnoc(KipMetas(emummc, kips, k), KipMeta(kips[k].data, KipStart(emummc, Datas(kips), k), kips[k].hash));
  }

  /** The running offset, rounded up behind every KIP, is the start of the next one. */
  lemma NextOffset(emummc: seq<byte>, kips: seq<seq<byte>>, k: nat)
    requires k < |kips|
    ensures Align16(0x10_0000 + KipStart(emummc, kips, k) + |kips[k]|) == 0x10_0000 + KipStart(emummc, kips, k + 1)
  {
  }

  lemma FirstOffset(emummc: seq<byte>, kips: seq<seq<byte>>)
    ensures Align16(0x10_0000 + |emummc|) == 0x10_0000 + KipStart(emummc, kips, 0)
  {
  }

  /** Packing a number into a 32-bit field raises exactly when it does not fit. */
  method Pack32(n: nat) returns (r: Option<seq<byte>>)
    ensures r.Some? <==> n < 0x1_0000_0000
    ensures r.Some? ==> r.value == Bytes32(n)
  {
    if n >= 0x1_0000_0000 { return None; }
    ModUnique(n / 0x100_0000, 256, 0, n / 0x100_0000);
    r := Some([n % 256, n / 256 % 256, n / 0x1_0000 % 256, n / 0x100_0000]);
  }

  /** One of the writes of a content header. */
  method WriteContentHeader(file: seq<byte>, offset: nat, size: nat, kind: byte, name: seq<byte>)
    returns (r: Option<seq<byte>>)
    ensures r.Some? <==> offset < 0x1_0000_0000 && size < 0x1_0000_0000
    ensures r.Some? ==> r.value == file + ContentHeader(offset, size, kind, name)
  {
    hide Bytes32, Pad;
    var first := Pack32(offset);
    if first.None? { return None; }
    var second := Pack32(size);
    if second.None? { return None; }
    r := Some(file + (first.value + second.value + [kind, 0, 0, 0] + Bytes32(0xCCCC_CCCC) + Pad(name, 16)));
  }

  /** `write_kip_meta`. */
  method WriteKipMeta(file: seq<byte>, kip: Kip, ofs: nat) returns (r: Option<seq<byte>>)
    requires Formed(kip) && 0x10_0000 <= ofs
    ensures r.Some? <==> ofs - 0x10_0000 < 0x1_0000_0000 && |kip.data| < 0x1_0000_0000
    ensures r.Some? ==> r.value == file + KipMeta(kip.data, ofs - 0x10_0000, kip.hash)
  {
    hide Bytes32;
    var first := Pack32(ofs - 0x10_0000);
    if first.None? { return None; }
    var second := Pack32(|kip.data|);
    if second.None? { return None; }
    r := Some(file + kip.data[0x10..0x18] + (first.value + second.value) + kip.hash);
  }

  /** The first loop of `write_header`, with its own running offset from 1 MiB on. */
  method WriteKipHeaders(file: seq<byte>, emummc: seq<byte>, kips: seq<Kip>) returns (r: Option<seq<byte>>)
    ensures r.Some? <==> Packable(0x10_0000, emummc, kips, |kips|)
    ensures r.Some? ==> r.value == file + Flatten(KipHeaders(emummc, kips, |kips|))
  {
    hide ContentHeader, KipStart, Align16;
    FirstOffset(emummc, Datas(kips));
    assert Flatten(KipHeaders(emummc, kips, 0)) == [];
    hide Flatten, KipHeaders;
    var file' := file;
    var ofs := Align16(0x10_0000 + |emummc|);
    var k := 0;
    while k < |kips|
      invariant 0 <= k <= |kips| && ofs == 0x10_0000 + KipStart(emummc, Datas(kips), k)
      invariant Packable(0x10_0000, emummc, kips, k)
      invariant file' == file + Flatten(KipHeaders(emummc, kips, k))
    {
      NextHeader(emummc, kips, k);
      NextOffset(emummc, Datas(kips), k);
      var written := WriteContentHeader(file', ofs, |kips[k].data|, 6, kips[k].name);
      if written.None? {
        assert !PacksAt(0x10_0000, emummc, kips, k);
        return None;
      }
      file' := written.value;
      ofs := Align16(ofs + |kips[k].data|);
      k := k + 1;
    }
    r := Some(file');
  }

  /** The second loop, with another. */
  method WriteKipMetas(file: seq<byte>, emummc: seq<byte>, kips: seq<Kip>) returns (r: Option<seq<byte>>)
    requires AllFormed(kips)
    ensures r.Some? <==> Packable(0, emummc, kips, |kips|)
    ensures r.Some? ==> r.value == file + Flatten(KipMetas(emummc, kips, |kips|))
  {
    hide KipMeta, KipStart, Align16;
    FirstOffset(emummc, Datas(kips));
    assert Flatten(KipMetas(emummc, kips, 0)) == [];
    hide Flatten, KipMetas;
    var file' := file;
    var ofs := Align16(0x10_0000 + |emummc|);
    var k := 0;
    while k < |kips|
      invariant 0 <= k <= |kips| && ofs == 0x10_0000 + KipStart(emummc, Datas(kips), k)
      invariant Packable(0, emummc, kips, k)
      invariant file' == file + Flatten(KipMetas(emummc, kips, k))
    {
      NextMeta(emummc, kips, k);
      NextOffset(emummc, Datas(kips), k);
      var written := WriteKipMeta(file', kips[k], ofs);
      if written.None? {
        assert !PacksAt(0, emummc, kips, k);
        return None;
      }
      file' := written.value;
      ofs := Align16(ofs + |kips[k].data|);
      k := k + 1;
    }
    r := Some(file');
  }

  /** Where the headers can be packed, so can the metas. */
  lemma MetasPack(emummc: seq<byte>, kips: seq<Kip>)
    requires Packable(0x10_0000, emummc, kips, |kips|)
    ensures Packable(0, emummc, kips, |kips|)
  {
    forall k | 0 <= k < |kips| ensures PacksAt(0, emummc, kips, k) { assert PacksAt(0x10_0000, emummc, kips, k); }
  }
}
