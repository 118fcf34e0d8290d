/**
 The NXO loader's segments and sections, and the flattening of both into one list of parts
 for the disassembler.
 */
module SegmentBuilder {
  import opened Options

  datatype Range = Range(start: int, size: int) {
    function End(): int { start + size }
    function InclusiveEnd(): int { start + size - 1 }

    predicate Overlaps(other: Range) { start <= other.InclusiveEnd() && other.start <= InclusiveEnd() }
    predicate Includes(other: Range) { other.start >= start && other.InclusiveEnd() <= InclusiveEnd() }
    predicate Contains(a: int) { start <= a < End() }
  }

  datatype Section = Section(range: Range, name: string)
  datatype Segment = Segment(range: Range, name: string, kind: string, sections: seq<Section>)
  datatype Part = Part(start: int, end: int, name: string, kind: string)

  function Decimal(n: nat): string {
    if n < 10 then [('0' as int + n) as char] else Decimal(n / 10) + [('0' as int + n % 10) as char]
  }

  function SuffixedName(name: string, suffix: nat): string {
    if suffix == 0 then name else name + "." + Decimal(suffix)
  }

  // ----- what the builder keeps

  ghost predicate Separate(rs: seq<Section>) {
    forall i, j :: 0 <= i < j < |rs| ==> !rs[i].range.Overlaps(rs[j].range)
  }

  /** The sections of a segment are not empty, lie inside it and do not overlap. */
  ghost predicate Filled(s: Segment) {
    && 0 <= s.range.size && Separate(s.sections)
    && forall i :: 0 <= i < |s.sections| ==> 0 < s.sections[i].range.size && s.range.Includes(s.sections[i].range)
  }

  ghost predicate WellFormed(segments: seq<Segment>) {
    && (forall i :: 0 <= i < |segments| ==> Filled(segments[i]))
    && (forall i, j :: 0 <= i < j < |segments| ==> !segments[i].range.Overlaps(segments[j].range))
  }

  // ----- `list.sort` with a key, which is stable

  function InsertBy<T>(x: T, s: seq<T>, key: T -> int): seq<T> {
    if s == [] || key(x) < key(s[0]) then [x] + s else [s[0]] + InsertBy(x, s[1..], key)
  }

  function SortBy<T>(s: seq<T>, key: T -> int): seq<T> {
    if s == [] then [] else InsertBy(s[|s| - 1], SortBy(s[..|s| - 1], key), key)
  }

  ghost predicate Sorted<T>(s: seq<T>, key: T -> int) {
    forall i, j :: 0 <= i < j < |s| ==> key(s[i]) <= key(s[j])
  }

  ghost predicate Pairwise<T>(s: seq<T>, apart: (T, T) -> bool) {
    forall i, j :: 0 <= i < j < |s| ==> apart(s[i], s[j]) && apart(s[j], s[i])
  }

  ghost predicate ApartFrom<T>(x: T, s: seq<T>, apart: (T, T) -> bool) {
    forall i :: 0 <= i < |s| ==> apart(x, s[i]) && apart(s[i], x)
  }

  ghost predicate SameElements<T>(r: seq<T>, s: seq<T>) {
    && |r| == |s|
    && (forall i :: 0 <= i < |r| ==> r[i] in s)
    && (forall i :: 0 <= i < |s| ==> s[i] in r)
  }

  lemma PermutationHasSameElements<T>(r: seq<T>, s: seq<T>)
    requires multiset(r) == multiset(s)
    ensures SameElements(r, s)
  {
    assert |r| == |multiset(r)| == |multiset(s)| == |s|;
    forall i | 0 <= i < |r| ensures r[i] in s { assert r[i] in multiset(r); }
    forall i | 0 <= i < |s| ensures s[i] in r { assert s[i] in multiset(s); }
  }

  lemma {:induction false} InsertPermutes<T>(x: T, s: seq<T>, key: T -> int)
    ensures multiset(InsertBy(x, s, key)) == multiset(s + [x])
    decreases |s|
  {
    if s == [] || key(x) < key(s[0]) {
    } else {
      InsertPermutes(x, s[1..], key);
      assert s + [x] == [s[0]] + (s[1..] + [x]);
    }
  }

  lemma {:induction false} SortPermutes<T>(s: seq<T>, key: T -> int)
    ensures multiset(SortBy(s, key)) == multiset(s)
    decreases |s|
  {
    if s == [] {
    } else {
      var init, last := s[..|s| - 1], s[|s| - 1];
      SortPermutes(init, key);
      InsertPermutes(last, SortBy(init, key), key);
      assert s == init + [last];
    }
  }

  lemma InsertElements<T>(x: T, s: seq<T>, key: T -> int)
    ensures SameElements(InsertBy(x, s, key), s + [x])
  {
    hide InsertBy, SameElements;
    InsertPermutes(x, s, key);
    PermutationHasSameElements(InsertBy(x, s, key), s + [x]);
  }

  lemma {:induction false} InsertSorted<T>(x: T, s: seq<T>, key: T -> int)
    requires Sorted(s, key)
    ensures Sorted(InsertBy(x, s, key), key)
    decreases |s|
  {
    if s == [] || key(x) < key(s[0]) {
    } else {
      InsertSorted(x, s[1..], key);
      var r := InsertBy(x, s[1..], key);
      InsertElements(x, s[1..], key);
      forall i | 0 <= i < |r| ensures key(s[0]) <= key(r[i]) {
        var k :| 0 <= k < |s[1..] + [x]| && (s[1..] + [x])[k] == r[i];
        if k < |s[1..]| { assert s[k + 1] == r[i]; }
      }
    }
  }

  lemma {:induction false} SortSorts<T>(s: seq<T>, key: T -> int)
    ensures Sorted(SortBy(s, key), key)
    decreases |s|
  {
    if s == [] {
    } else {
      hide Sorted, InsertBy;
      SortSorts(s[..|s| - 1], key);
      InsertSorted(s[|s| - 1], SortBy(s[..|s| - 1], key), key);
    }
  }

  lemma ApartTransfers<T>(x: T, s: seq<T>, r: seq<T>, apart: (T, T) -> bool)
    requires ApartFrom(x, s, apart) && SameElements(r, s)
    ensures ApartFrom(x, r, apart)
  {
    forall i | 0 <= i < |r| ensures apart(x, r[i]) && apart(r[i], x) {
      var k :| 0 <= k < |s| && s[k] == r[i];
    }
  }

  lemma {:induction false} InsertPairwise<T>(x: T, s: seq<T>, key: T -> int, apart: (T, T) -> bool)
    requires Pairwise(s, apart) && ApartFrom(x, s, apart)
    ensures Pairwise(InsertBy(x, s, key), apart)
    decreases |s|
  {
    if s == [] || key(x) < key(s[0]) {
    } else {
      InsertPairwise(x, s[1..], key, apart);
      InsertElements(x, s[1..], key);
      assert ApartFrom(s[0], s[1..] + [x], apart);
      ApartTransfers(s[0], s[1..] + [x], InsertBy(x, s[1..], key), apart);
    }
  }

  lemma PairwiseSplit<T>(s: seq<T>, apart: (T, T) -> bool)
    requires s != [] && Pairwise(s, apart)
    ensures Pairwise(s[..|s| - 1], apart) && ApartFrom(s[|s| - 1], s[..|s| - 1], apart)
  {
  }

  lemma {:induction false} SortPairwise<T>(s: seq<T>, key: T -> int, apart: (T, T) -> bool)
    requires Pairwise(s, apart)
    ensures Pairwise(SortBy(s, key), apart)
    decreases |s|
  {
    if s == [] {
    } else {
      var init, last := s[..|s| - 1], s[|s| - 1];
      var r := SortBy(init, key);
      assert SortBy(s, key) == InsertBy(last, r, key);
      hide Pairwise, ApartFrom, SameElements, InsertBy, SortBy;
      PairwiseSplit(s, apart);
      SortPairwise(init, key, apart);
      SortPermutes(init, key);
      PermutationHasSameElements(r, init);
      ApartTransfers(last, init, r, apart);
      InsertPairwise(last, r, key, apart);
    }
  }

  /** Sorting orders by the key and keeps the elements and what holds between any two of them. */
  lemma SortKeeps<T>(s: seq<T>, key: T -> int, apart: (T, T) -> bool)
    requires Pairwise(s, apart)
    ensures var r := SortBy(s, key);
            Sorted(r, key) && Pairwise(r, apart) && SameElements(r, s) && multiset(r) == multiset(s)
  {
    hide Pairwise, SameElements, Sorted, SortBy;
    SortSorts(s, key);
    SortPairwise(s, key, apart);
    SortPermutes(s, key);
    PermutationHasSameElements(SortBy(s, key), s);
  }

  // ----- flattening, as functions

  /** The parts of a segment from `pos` on, given its remaining sections in order. */
  function SegmentParts(s: Segment, sections: seq<Section>, pos: int, suffix: nat): seq<Part> {
    if sections == [] then
      if pos < s.range.End() then [Part(pos, s.range.End(), SuffixedName(s.name, suffix), s.kind)] else []
    else
      var r := sections[0].range;
      var part := Part(r.start, r.End(), sections[0].name, s.kind);
      if pos < r.start then
        [Part(pos, r.start, SuffixedName(s.name, suffix), s.kind), part] +
        SegmentParts(s, sections[1..], r.End(), suffix + 1)
      else
        [part] + SegmentParts(s, sections[1..], r.End(), suffix)
  }

  function AllParts(segments: seq<Segment>): seq<Part> {
    if segments == [] then []
    else SegmentParts(segments[0], segments[0].sections, segments[0].range.start, 0) + AllParts(segments[1..])
  }

  // ----- the parts of one segment tile it

  /** Non-empty parts that follow each other without a gap from `lo` to `hi`. */
  ghost predicate Tiles(parts: seq<Part>, lo: int, hi: int) {
    if parts == [] then lo == hi
    else parts[0].start == lo && lo < parts[0].end && Tiles(parts[1..], parts[0].end, hi)
  }

  ghost predicate Ordered(sections: seq<Section>) {
    forall i, j :: 0 <= i < j < |sections| ==> sections[i].range.End() <= sections[j].range.start
  }

  ghost predicate Within(sections: seq<Section>, lo: int, hi: int) {
    forall i :: 0 <= i < |sections| ==>
      lo <= sections[i].range.start && 0 < sections[i].range.size && sections[i].range.End() <= hi
  }

  lemma {:induction false} SegmentTiles(s: Segment, sections: seq<Section>, pos: int, suffix: nat)
    requires Ordered(sections) && Within(sections, pos, s.range.End()) && pos <= s.range.End()
    ensures Tiles(SegmentParts(s, sections, pos, suffix), pos, s.range.End())
    decreases |sections|
  {
    if sections == [] {
    } else {
      var r := sections[0].range;
      var suffix' := if pos < r.start then suffix + 1 else suffix;
      var rest := SegmentParts(s, sections[1..], r.End(), suffix');
      SegmentTiles(s, sections[1..], r.End(), suffix');
      var part := Part(r.start, r.End(), sections[0].name, s.kind);
      assert ([part] + rest)[1..] == rest;
      if pos < r.start {
        var gap := Part(pos, r.start, SuffixedName(s.name, suffix), s.kind);
        assert ([gap, part] + rest)[1..] == [part] + rest;
      }
    }
  }

  /** Every part has the segment's kind, and every section is one of the parts. */
  lemma {:induction false} SegmentPartsContent(s: Segment, sections: seq<Section>, pos: int, suffix: nat)
    ensures var parts := SegmentParts(s, sections, pos, suffix);
            (forall i :: 0 <= i < |parts| ==> parts[i].kind == s.kind) &&
            forall k :: 0 <= k < |sections| ==>
              Part(sections[k].range.start, sections[k].range.End(), sections[k].name, s.kind) in parts
    decreases |sections|
  {
    if sections == [] {
    } else {
      var r := sections[0].range;
      var suffix' := if pos < r.start then suffix + 1 else suffix;
      SegmentPartsContent(s, sections[1..], r.End(), suffix');
      forall k | 0 <= k < |sections|
        ensures Part(sections[k].range.start, sections[k].range.End(), sections[k].name, s.kind)
             in SegmentParts(s, sections, pos, suffix)
      {
        if k > 0 { assert sections[k] == sections[1..][k - 1]; }
      }
    }
  }

  ghost predicate OrderedParts(parts: seq<Part>) {
    && (forall i :: 0 <= i < |parts| ==> parts[i].start < parts[i].end)
    && (forall i, j :: 0 <= i < j < |parts| ==> parts[i].end <= parts[j].start)
  }

  ghost predicate Covers(parts: seq<Part>, a: int) {
    exists i :: 0 <= i < |parts| && parts[i].start <= a < parts[i].end
  }

  lemma {:induction false} TilesOrdered(parts: seq<Part>, lo: int, hi: int)
    requires Tiles(parts, lo, hi)
    ensures lo <= hi && OrderedParts(parts)
    ensures forall i :: 0 <= i < |parts| ==> lo <= parts[i].start && parts[i].end <= hi
    decreases |parts|
  {
    if parts == [] {
    } else {
      TilesOrdered(parts[1..], parts[0].end, hi);
      forall i | 0 < i < |parts| ensures parts[i] == parts[1..][i - 1] {}
    }
  }

  lemma {:induction false} TilesCover(parts: seq<Part>, lo: int, hi: int, a: int)
    requires Tiles(parts, lo, hi)
    ensures Covers(parts, a) <==> lo <= a < hi
    decreases |parts|
  {
    if parts == [] {
    } else {
      TilesCover(parts[1..], parts[0].end, hi, a);
      TilesOrdered(parts[1..], parts[0].end, hi);
      CoversConcat(parts[..1], parts[1..], a);
      assert parts == parts[..1] + parts[1..];
    }
  }

  lemma CoversConcat(p: seq<Part>, q: seq<Part>, a: int)
    ensures Covers(p + q, a) <==> Covers(p, a) || Covers(q, a)
  {
    if Covers(p + q, a) {
      var i :| 0 <= i < |p + q| && (p + q)[i].start <= a < (p + q)[i].end;
      if i < |p| { assert p[i] == (p + q)[i]; } else { assert q[i - |p|] == (p + q)[i]; }
    }
    if Covers(p, a) {
      var i :| 0 <= i < |p| && p[i].start <= a < p[i].end;
      assert (p + q)[i] == p[i];
    }
    if Covers(q, a) {
      var i :| 0 <= i < |q| && q[i].start <= a < q[i].end;
      assert (p + q)[|p| + i] == q[i];
    }
  }

  // ----- the parts of all segments, in order

  /** Segments whose sections are in order, and of which the non-empty ones are in order too. */
  ghost predicate InOrder(segments: seq<Segment>) {
    && (forall i :: 0 <= i < |segments| ==>
          0 <= segments[i].range.size && Ordered(segments[i].sections) &&
          Within(segments[i].sections, segments[i].range.start, segments[i].range.End()))
    && (forall i, j :: 0 <= i < j < |segments| && 0 < segments[i].range.size && 0 < segments[j].range.size ==>
          segments[i].range.End() <= segments[j].range.start)
  }

  ghost predicate CoveredBy(segments: seq<Segment>, a: int) {
    exists i :: 0 <= i < |segments| && segments[i].range.Contains(a)
  }

  function PartsOf(s: Segment): seq<Part> {
    SegmentParts(s, s.sections, s.range.start, 0)
  }

  ghost predicate Belongs(p: Part, s: Segment) {
    s.range.start <= p.start < p.end <= s.range.End() && p.kind == s.kind
  }

  lemma PartBelongs(s: Segment, i: nat)
    requires 0 <= s.range.size && Ordered(s.sections) && Within(s.sections, s.range.start, s.range.End())
    requires i < |PartsOf(s)|
    ensures Belongs(PartsOf(s)[i], s)
  {
    var parts := PartsOf(s);
    SegmentTiles(s, s.sections, s.range.start, 0);
    SegmentPartsContent(s, s.sections, s.range.start, 0);
    hide SegmentParts, Tiles, Ordered, Within, PartsOf;
    TilesOrdered(parts, s.range.start, s.range.End());
    assert parts[i].kind == s.kind;
  }

  lemma {:induction false} AllPartsBelong(segments: seq<Segment>, i: nat)
    requires InOrder(segments) && i < |AllParts(segments)|
    ensures exists k :: 0 <= k < |segments| && Belongs(AllParts(segments)[i], segments[k])
    decreases |segments|
  {
    hide SegmentParts, Ordered, Within, Belongs;
    var s := segments[0];
    if i < |PartsOf(s)| {
      PartBelongs(s, i);
      assert AllParts(segments)[i] == PartsOf(s)[i];
    } else {
      AllPartsBelong(segments[1..], i - |PartsOf(s)|);
      var k :| 0 <= k < |segments[1..]| && Belongs(AllParts(segments[1..])[i - |PartsOf(s)|], segments[1..][k]);
      assert Belongs(AllParts(segments)[i], segments[k + 1]);
    }
  }

  lemma {:induction false} AllPartsOrdered(segments: seq<Segment>)
    requires InOrder(segments)
    ensures OrderedParts(AllParts(segments))
    decreases |segments|
  {
    if segments == [] {
    } else {
      var s, rest := segments[0], AllParts(segments[1..]);
      AllPartsOrdered(segments[1..]);
      SegmentTiles(s, s.sections, s.range.start, 0);
      TilesOrdered(PartsOf(s), s.range.start, s.range.End());
      forall i, j | 0 <= i < |PartsOf(s)| && 0 <= j < |rest| ensures PartsOf(s)[i].end <= rest[j].start {
        AllPartsBelong(segments[1..], j);
        var k :| 0 <= k < |segments[1..]| && Belongs(rest[j], segments[1..][k]);
        assert segments[k + 1] == segments[1..][k];
      }
      OrderedConcat(PartsOf(s), rest);
    }
  }

  lemma OrderedConcat(p: seq<Part>, q: seq<Part>)
    requires OrderedParts(p) && OrderedParts(q)
    requires forall i, j :: 0 <= i < |p| && 0 <= j < |q| ==> p[i].end <= q[j].start
    ensures OrderedParts(p + q)
  {
  }

  lemma {:induction false} AllPartsCover(segments: seq<Segment>, a: int)
    requires InOrder(segments)
    ensures Covers(AllParts(segments), a) <==> CoveredBy(segments, a)
    decreases |segments|
  {
    if segments == [] {
    } else {
      var s := segments[0];
      AllPartsCover(segments[1..], a);
      SegmentTiles(s, s.sections, s.range.start, 0);
      TilesCover(PartsOf(s), s.range.start, s.range.End(), a);
      CoversConcat(PartsOf(s), AllParts(segments[1..]), a);
      if CoveredBy(segments[1..], a) {
        var k :| 0 <= k < |segments[1..]| && segments[1..][k].range.Contains(a);
        assert segments[k + 1].range.Contains(a);
      }
      if CoveredBy(segments, a) && !s.range.Contains(a) {
        var k :| 0 <= k < |segments| && segments[k].range.Contains(a);
        assert segments[1..][k - 1].range.Contains(a);
      }
    }
  }

  function SectionPart(s: Segment, x: Section): Part {
    Part(x.range.start, x.range.End(), x.name, s.kind)
  }

  lemma {:induction false} AllPartsHaveSections(segments: seq<Segment>, k: nat, x: Section)
    requires k < |segments| && x in segments[k].sections
    ensures SectionPart(segments[k], x) in AllParts(segments)
    decreases |segments|
  {
    var s := segments[0];
    if k == 0 {
      SegmentPartsContent(s, s.sections, s.range.start, 0);
    } else {
      AllPartsHaveSections(segments[1..], k - 1, x);
    }
  }

  // ----- arranging what the builder holds

  function SectionStart(x: Section): int { x.range.start }
  function SegmentStart(s: Segment): int { s.range.start }
  predicate SectionsApart(x: Section, y: Section) { !x.range.Overlaps(y.range) }
  predicate SegmentsApart(s: Segment, t: Segment) { !s.range.Overlaps(t.range) }

  function Arrange(s: Segment): Segment {
    s.(sections := SortBy(s.sections, SectionStart))
  }

  function ArrangeAll(segments: seq<Segment>): (r: seq<Segment>)
    ensures |r| == |segments|
    ensures forall i :: 0 <= i < |r| ==> r[i] == Arrange(segments[i])
  {
    if segments == [] then [] else [Arrange(segments[0])] + ArrangeAll(segments[1..])
  }

  /** What `flatten` turns the list of segments into before it walks it. */
  function Arranged(segments: seq<Segment>): seq<Segment> {
    ArrangeAll(SortBy(segments, SegmentStart))
  }

  lemma ArrangeSegment(s: Segment)
    requires Filled(s)
    ensures var t := Arrange(s);
            Ordered(t.sections) && Within(t.sections, t.range.start, t.range.End()) &&
            SameElements(t.sections, s.sections)
  {
    hide SortBy, SameElements, Sorted, Ordered;
    SortKeeps(s.sections, SectionStart, SectionsApart);
    var r := SortBy(s.sections, SectionStart);
    StaysWithin(s, r);
    SortedIsOrdered(r);
  }

  lemma StaysWithin(s: Segment, r: seq<Section>)
    requires Filled(s) && SameElements(r, s.sections)
    ensures Within(r, s.range.start, s.range.End())
  {
    forall i | 0 <= i < |r| ensures 0 < r[i].range.size && s.range.Includes(r[i].range) {
      var k :| 0 <= k < |s.sections| && s.sections[k] == r[i];
    }
  }

  lemma SortedIsOrdered(r: seq<Section>)
    requires Sorted(r, SectionStart) && Pairwise(r, SectionsApart)
    requires forall i :: 0 <= i < |r| ==> 0 < r[i].range.size
    ensures Ordered(r)
  {
    forall i, j | 0 <= i < j < |r| ensures r[i].range.End() <= r[j].range.start {
      assert SectionsApart(r[i], r[j]) && SectionStart(r[i]) <= SectionStart(r[j]);
    }
  }

  /** Every segment is found, with its sections sorted, in the arranged list. */
  lemma ArrangedHas(segments: seq<Segment>, k: nat) returns (m: nat)
    requires WellFormed(segments) && k < |segments|
    ensures m < |Arranged(segments)| && Arranged(segments)[m] == Arrange(segments[k])
  {
    hide SortBy, Arrange, Filled;
    SortKeeps(segments, SegmentStart, SegmentsApart);
    var r := SortBy(segments, SegmentStart);
    assert segments[k] in r;
    m :| 0 <= m < |r| && r[m] == segments[k];
  }

  lemma ArrangedFrom(segments: seq<Segment>, m: nat) returns (k: nat)
    requires WellFormed(segments) && m < |Arranged(segments)|
    ensures k < |segments| && Arranged(segments)[m] == Arrange(segments[k])
  {
    hide SortBy, Arrange, Filled;
    SortKeeps(segments, SegmentStart, SegmentsApart);
    var r := SortBy(segments, SegmentStart);
    assert r[m] in segments;
    k :| 0 <= k < |segments| && segments[k] == r[m];
  }

  lemma ArrangedApart(segments: seq<Segment>, i: nat, j: nat)
    requires WellFormed(segments) && i < j < |Arranged(segments)|
    requires var t := Arranged(segments); 0 < t[i].range.size && 0 < t[j].range.size
    ensures var t := Arranged(segments); t[i].range.End() <= t[j].range.start
  {
    hide SortBy, Filled;
    SortKeeps(segments, SegmentStart, SegmentsApart);
    var r := SortBy(segments, SegmentStart);
    assert SegmentsApart(r[i], r[j]) && SegmentStart(r[i]) <= SegmentStart(r[j]);
  }

  lemma ArrangedInOrder(segments: seq<Segment>)
    requires WellFormed(segments)
    ensures InOrder(Arranged(segments))
  {
    hide Arranged, Filled, Ordered, Within;
    var t := Arranged(segments);
    forall i | 0 <= i < |t|
      ensures 0 <= t[i].range.size && Ordered(t[i].sections)
      ensures Within(t[i].sections, t[i].range.start, t[i].range.End())
    {
      var k := ArrangedFrom(segments, i);
      FilledSize(segments[k]);
      ArrangeSegment(segments[k]);
    }
    forall i, j | 0 <= i < j < |t| && 0 < t[i].range.size && 0 < t[j].range.size
      ensures t[i].range.End() <= t[j].range.start
    {
      ArrangedApart(segments, i, j);
    }
  }

  lemma FilledSize(s: Segment)
    requires Filled(s)
    ensures 0 <= s.range.size
  {
  }

  /** Arranging neither moves nor loses anything. */
  lemma ArrangedCovers(segments: seq<Segment>, a: int)
    requires WellFormed(segments)
    ensures CoveredBy(Arranged(segments), a) <==> CoveredBy(segments, a)
  {
    hide Arranged, Filled, WellFormed, SortBy;
    var t := Arranged(segments);
    if CoveredBy(t, a) {
      var i :| 0 <= i < |t| && t[i].range.Contains(a);
      var k := ArrangedFrom(segments, i);
      assert segments[k].range.Contains(a);
    }
    if CoveredBy(segments, a) {
      var k :| 0 <= k < |segments| && segments[k].range.Contains(a);
      var i := ArrangedHas(segments, k);
      assert t[i].range.Contains(a);
    }
  }

  /** The arranged list is again one the builder could hold. */
  lemma ArrangedWellFormed(segments: seq<Segment>)
    requires WellFormed(segments)
    ensures WellFormed(Arranged(segments))
  {
    hide SortBy, Filled;
    SortKeeps(segments, SegmentStart, SegmentsApart);
    var r, t := SortBy(segments, SegmentStart), Arranged(segments);
    forall i | 0 <= i < |t| ensures Filled(t[i]) {
      var k := ArrangedFrom(segments, i);
      ArrangedFilled(segments[k]);
    }
    forall i, j | 0 <= i < j < |t| ensures !t[i].range.Overlaps(t[j].range) {
      assert SegmentsApart(r[i], r[j]);
    }
  }

  lemma ArrangedFilled(s: Segment)
    requires Filled(s)
    ensures Filled(Arrange(s))
  {
    hide SortBy;
    SortKeeps(s.sections, SectionStart, SectionsApart);
    var r := SortBy(s.sections, SectionStart);
    forall i | 0 <= i < |r| ensures 0 < r[i].range.size && s.range.Includes(r[i].range) {
      var k :| 0 <= k < |s.sections| && s.sections[k] == r[i];
    }
    forall i, j | 0 <= i < j < |r| ensures !r[i].range.Overlaps(r[j].range) {
      assert SectionsApart(r[i], r[j]);
    }
  }

  // ----- what flattening promises

  function Flattened(segments: seq<Segment>): seq<Part> {
    AllParts(Arranged(segments))
  }

  /** Ordered, non-empty, disjoint parts that cover exactly the segments. */
  lemma FlattenTiles(segments: seq<Segment>)
    requires WellFormed(segments)
    ensures OrderedParts(Flattened(segments))
    ensures forall a :: Covers(Flattened(segments), a) <==> CoveredBy(segments, a)
  {
    ArrangedInOrder(segments);
    AllPartsOrdered(Arranged(segments));
    forall a ensures Covers(Flattened(segments), a) <==> CoveredBy(segments, a) {
      AllPartsCover(Arranged(segments), a);
      ArrangedCovers(segments, a);
    }
  }

  /** Every part lies inside one segment and carries its kind. */
  lemma FlattenBelongs(segments: seq<Segment>, i: nat)
    requires WellFormed(segments) && i < |Flattened(segments)|
    ensures exists s :: s in segments && Belongs(Flattened(segments)[i], s)
  {
    hide Arranged, AllParts, WellFormed, InOrder, SortBy;
    ArrangedInOrder(segments);
    var t := Arranged(segments);
    AllPartsBelong(t, i);
    var m :| 0 <= m < |t| && Belongs(Flattened(segments)[i], t[m]);
    var k := ArrangedFrom(segments, m);
    assert segments[k] in segments && Belongs(Flattened(segments)[i], segments[k]);
  }

  /** Every section is a part under its segment's kind, at exactly one place. */
  lemma FlattenKeepsSections(segments: seq<Segment>, s: Segment, x: Section)
    requires WellFormed(segments) && s in segments && x in s.sections
    ensures SectionPart(s, x) in Flattened(segments) && NoRepetition(Flattened(segments))
  {
    var k :| 0 <= k < |segments| && segments[k] == s;
    assert Filled(s);
    hide Arranged, AllParts, WellFormed, InOrder, SortBy, Ordered, Within, Filled;
    ArrangedInOrder(segments);
    var m := ArrangedHas(segments, k);
    ArrangeSegment(s);
    SameElementsIn(Arrange(s).sections, s.sections, x);
    AllPartsHaveSections(Arranged(segments), m, x);
    AllPartsOrdered(Arranged(segments));
    OrderedHasNoRepetition(Flattened(segments));
  }

  ghost predicate NoRepetition(parts: seq<Part>) {
    forall i, j :: 0 <= i < j < |parts| ==> parts[i] != parts[j]
  }

  lemma OrderedHasNoRepetition(parts: seq<Part>)
    requires OrderedParts(parts)
    ensures NoRepetition(parts)
  {
  }

  lemma SameElementsIn<T>(r: seq<T>, s: seq<T>, x: T)
    requires SameElements(r, s) && x in s
    ensures x in r
  {
    var i :| 0 <= i < |s| && s[i] == x;
  }

  /** One round of the walk: a gap if there is one, then the section. */
  lemma NextParts(s: Segment, k: nat, pos: int, suffix: nat, parts: seq<Part>)
    requires k < |s.sections|
    ensures var x := s.sections[k];
            parts + SegmentParts(s, s.sections[k..], pos, suffix) ==
            if pos < x.range.start then
              parts + [Part(pos, x.range.start, SuffixedName(s.name, suffix), s.kind)] + [SectionPart(s, x)] +
              SegmentParts(s, s.sections[k + 1..], x.range.End(), suffix + 1)
            else parts + [SectionPart(s, x)] + SegmentParts(s, s.sections[k + 1..], x.range.End(), suffix)
  {
    var x := s.sections[k];
    assert s.sections[k..][0] == x && s.sections[k..][1..] == s.sections[k + 1..];
    var gap, part := Part(pos, x.range.start, SuffixedName(s.name, suffix), s.kind), SectionPart(s, x);
    hide SuffixedName;
    if pos < x.range.start {
      var rest := SegmentParts(s, s.sections[k + 1..], x.range.End(), suffix + 1);
      assert SegmentParts(s, s.sections[k..], pos, suffix) == [gap, part] + rest;
      assert parts + ([gap, part] + rest) == parts + [gap] + [part] + rest;
    } else {
      var rest := SegmentParts(s, s.sections[k + 1..], x.range.End(), suffix);
      assert parts + ([part] + rest) == parts + [part] + rest;
    }
  }

  lemma LastPart(s: Segment, sections: seq<Section>, pos: int, suffix: nat)
    requires sections == []
    ensures SegmentParts(s, sections, pos, suffix) ==
            if pos < s.range.End() then [Part(pos, s.range.End(), SuffixedName(s.name, suffix), s.kind)] else []
  {
  }

  lemma AllPartsNext(segments: seq<Segment>, i: nat)
    requires i < |segments|
    ensures AllParts(segments[i..]) == PartsOf(segments[i]) + AllParts(segments[i + 1..])
  {
    assert segments[i..][1..] == segments[i + 1..];
  }

  lemma AllPartsEnd(segments: seq<Segment>)
    requires segments == []
    ensures AllParts(segments) == []
  {
  }

  // ----- the builder

  /** The segment contains the range, and none of its sections overlaps it. */
  predicate Takes(s: Segment, r: Range) {
    0 < r.size && s.range.Includes(r) && forall k :: 0 <= k < |s.sections| ==> !s.sections[k].range.Overlaps(r)
  }

  function WithSection(s: Segment, x: Section): Segment {
    s.(sections := s.sections + [x])
  }

  lemma OnlyTaker(segments: seq<Segment>, i: nat, r: Range)
    requires WellFormed(segments) && i < |segments| && 0 < r.size && segments[i].range.Includes(r)
    ensures forall k :: 0 <= k < |segments| && Takes(segments[k], r) ==> k == i
  {
    forall k | 0 <= k < |segments| && Takes(segments[k], r) ensures k == i {
      assert segments[i].range.Overlaps(segments[k].range) && segments[k].range.Overlaps(segments[i].range);
    }
  }

  class Builder {
    var segments: seq<Segment>

    ghost predicate Valid()
      reads this
    {
      WellFormed(segments)
    }

    constructor ()
      ensures Valid() && segments == []
    {
      segments := [];
    }

    /** `add_segment`; `ok` is false where the Python assertion fails. */
    method AddSegment(start: int, size: int, name: string, kind: string) returns (ok: bool)
      requires Valid() && 0 <= size
      modifies this
      ensures Valid()
      ensures ok <==> forall i :: 0 <= i < |old(segments)| ==> !Range(start, size).Overlaps(old(segments)[i].range)
      ensures segments == if ok then old(segments) + [Segment(Range(start, size), name, kind, [])] else old(segments)
    {
      var r := Range(start, size);
      var i := 0;
      while i < |segments|
        invariant 0 <= i <= |segments|
        invariant forall k :: 0 <= k < i ==> !r.Overlaps(segments[k].range)
      {
        if r.Overlaps(segments[i].range) { return false; }
        i := i + 1;
      }
      segments := segments + [Segment(r, name, kind, [])];
      ok := true;
    }

    /** `Segment.add_section` on segment `i`. */
    method AddTo(i: nat, x: Section) returns (ok: bool)
      requires Valid() && i < |segments| && 0 < x.range.size && segments[i].range.Includes(x.range)
      modifies this
      ensures Valid()
      ensures ok <==> Takes(old(segments)[i], x.range)
      ensures segments == if ok then old(segments)[i := WithSection(old(segments)[i], x)] else old(segments)
    {
      var s := segments[i];
      var k := 0;
      while k < |s.sections|
        invariant 0 <= k <= |s.sections|
        invariant forall m :: 0 <= m < k ==> !s.sections[m].range.Overlaps(x.range)
      {
        if s.sections[k].range.Overlaps(x.range) { return false; }
        k := k + 1;
      }
      segments := segments[i := WithSection(s, x)];
      ok := true;
    }

    /**
     `add_section`: an empty one is ignored; otherwise it goes to the segment that contains it.
     `where` is that segment, or -1 if the section was ignored or refused.
     */
    method AddSection(name: string, start: int, end: Option<int>, size: Option<int>) returns (ok: bool, where: int)
      requires Valid()
      modifies this
      ensures Valid() && -1 <= where < |segments| == |old(segments)|
      ensures where < 0 ==> segments == old(segments)
      ensures where >= 0 ==>
                var length := if size.Some? then size.value else if end.Some? then end.value - start else 0;
                var x := Section(Range(start, length), name);
                ok && 0 < length && old(segments)[where].range.Includes(x.range) &&
                segments == old(segments)[where := WithSection(old(segments)[where], x)]
      ensures ok && where < 0 <==> end.None? && size == Some(0)
      ensures where >= 0 <==>
                (end.Some? != size.Some? &&
                 var r := Range(start, if size.Some? then size.value else end.value - start);
                 exists i :: 0 <= i < |old(segments)| && Takes(old(segments)[i], r))
    {
      where := -1;
      if end.Some? && size.Some? { return false, -1; }
      if size == Some(0) { return true, -1; }
      if end.None? && size.None? { return false, -1; }
      var length := if size.Some? then size.value else end.value - start;
      if length <= 0 { return false, -1; }
      var r := Range(start, length);
      var i := 0;
      while i < |segments|
        invariant 0 <= i <= |segments| && segments == old(segments)
        invariant forall k :: 0 <= k < i ==> !Takes(segments[k], r)
      {
        if segments[i].range.Includes(r) {
          OnlyTaker(segments, i, r);
          ok := AddTo(i, Section(r, name));
          where := if ok then i else -1;
          return;
        }
        i := i + 1;
      }
      ok := false;
    }

    /** `flatten`: sort the segments and their sections in place, then walk them. */
    method Flatten() returns (parts: seq<Part>)
      requires Valid()
      modifies this
      ensures Valid() && segments == Arranged(old(segments)) && parts == Flattened(old(segments))
    {
      hide SortBy, PartsOf, Arrange, ArrangeAll, AllParts, WellFormed;
      segments := SortBy(segments, SegmentStart);
      ghost var sorted, goal := segments, ArrangeAll(segments);
      parts := [];
      assert goal[0..] == goal;
      var i := 0;
      while i < |segments|
        invariant 0 <= i <= |segments| == |goal|
        invariant forall k :: 0 <= k < |goal| ==> segments[k] == if k < i then goal[k] else sorted[k]
        invariant parts + AllParts(goal[i..]) == AllParts(goal)
      {
        var s := Arrange(segments[i]);
        segments := segments[i := s];
        AllPartsNext(goal, i);
        var more := Walk(s);
        parts := parts + more;
        i := i + 1;
      }
      AllPartsEnd(goal[i..]);
      assert segments == goal;
      ArrangedWellFormed(old(segments));
    }

    /** The inner loop of `flatten`, over the sorted sections of one segment. */
    method Walk(s: Segment) returns (parts: seq<Part>)
      ensures parts == PartsOf(s)
    {
      hide SegmentParts;
      parts := [];
      var suffix: nat, pos := 0, s.range.start;
      var k := 0;
      assert s.sections[0..] == s.sections;
      while k < |s.sections|
        invariant 0 <= k <= |s.sections|
        invariant parts + SegmentParts(s, s.sections[k..], pos, suffix) == PartsOf(s)
      {
        var x := s.sections[k];
        NextParts(s, k, pos, suffix, parts);
        if pos < x.range.start {
          parts := parts + [Part(pos, x.range.start, SuffixedName(s.name, suffix), s.kind)];
          suffix := suffix + 1;
          pos := x.range.start;
        }
        parts := parts + [SectionPart(s, x)];
        pos := x.range.End();
        k := k + 1;
      }
      LastPart(s, s.sections[k..], pos, suffix);
      if pos < s.range.End() {
        parts := parts + [Part(pos, s.range.End(), SuffixedName(s.name, suffix), s.kind)];
      }
    }
  }
}
