/**
 The names of the parts that flattening puts between the sections of a segment: the segment's own
 name for the first, and its name with a number behind it for the others.
 */
module SegmentNames {
  import opened SegmentBuilder

  // ----- numerals

  predicate IsDigit(c: char) { '0' <= c <= '9' }

  /** The number a string of digits stands for. */
  function Value(digits: string): nat
    requires forall i :: 0 <= i < |digits| ==> IsDigit(digits[i])
  {
    if digits == [] then 0
    else
      var last := digits[|digits| - 1];
      assert IsDigit(last);
      10 * Value(digits[..|digits| - 1]) + (last as int - '0' as int)
  }

  ghost predicate IsNumeral(digits: string, n: nat) {
    && digits != [] && (forall i :: 0 <= i < |digits| ==> IsDigit(digits[i]))
    && Value(digits) == n && (n > 0 ==> digits[0] != '0')
  }

  lemma {:induction false} DecimalIsNumeral(n: nat)
    ensures IsNumeral(Decimal(n), n)
  {
    var last := [('0' as int + n % 10) as char];
    if n < 10 {
      assert Decimal(n) == last && last[..0] == [];
    } else {
      DecimalIsNumeral(n / 10);
      var front := Decimal(n / 10);
      assert Decimal(n) == front + last && (front + last)[..|front|] == front;
    }
  }

  /** The name of gap `k` of a segment. */
  ghost predicate IsGapName(name: string, segment: string, k: nat) {
    if k == 0 then name == segment
    else |segment| < |name| && name[..|segment|] == segment && name[|segment|] == '.' &&
         IsNumeral(name[|segment| + 1..], k)
  }

  lemma SuffixedIsGapName(segment: string, k: nat)
    ensures IsGapName(SuffixedName(segment, k), segment, k)
  {
    hide IsNumeral;
    if k > 0 {
      DecimalIsNumeral(k);
      var name := SuffixedName(segment, k);
      assert name[..|segment|] == segment && name[|segment| + 1..] == Decimal(k);
    }
  }

  /** Gaps of different numbers have different names. */
  lemma GapNamesDiffer(a: string, b: string, segment: string, i: nat, j: nat)
    requires IsGapName(a, segment, i) && IsGapName(b, segment, j) && i != j
    ensures a != b
  {
  }

  // ----- the gaps of a segment

  /** The part starts in the segment, and not where one of its sections does. */
  ghost predicate IsGap(p: Part, s: Segment) {
    s.range.Contains(p.start) && forall x :: x in s.sections ==> x.range.start != p.start
  }

  ghost function Gaps(parts: seq<Part>, s: Segment): seq<Part> {
    if parts == [] then [] else (if IsGap(parts[0], s) then [parts[0]] else []) + Gaps(parts[1..], s)
  }

  lemma {:induction false} GapsConcat(p: seq<Part>, q: seq<Part>, s: Segment)
    ensures Gaps(p + q, s) == Gaps(p, s) + Gaps(q, s)
    decreases |p|
  {
    hide IsGap;
    if p == [] {
      assert p + q == q;
    } else {
      assert (p + q)[1..] == p[1..] + q;
      GapsConcat(p[1..], q, s);
    }
  }

  lemma {:induction false} NoGaps(p: seq<Part>, s: Segment)
    requires forall i :: 0 <= i < |p| ==> !IsGap(p[i], s)
    ensures Gaps(p, s) == []
    decreases |p|
  {
    hide IsGap;
    if p == [] {
    } else {
      NoGaps(p[1..], s);
    }
  }

  lemma {:induction false} SameGaps(p: seq<Part>, s: Segment, t: Segment)
    requires s.range == t.range && SameElements(s.sections, t.sections)
    ensures Gaps(p, s) == Gaps(p, t)
    decreases |p|
  {
    if p == [] {
    } else {
      GapOfEither(p[0], s, t);
      hide IsGap, SameElements;
      SameGaps(p[1..], s, t);
    }
  }

  lemma GapOfEither(p: Part, s: Segment, t: Segment)
    requires s.range == t.range && SameElements(s.sections, t.sections)
    ensures IsGap(p, s) <==> IsGap(p, t)
  {
    forall x | x in s.sections ensures x in t.sections { var i :| 0 <= i < |s.sections| && s.sections[i] == x; }
    forall x | x in t.sections ensures x in s.sections { var i :| 0 <= i < |t.sections| && t.sections[i] == x; }
  }

  /** Where the walk stands in front of section `j`. */
  function Position(s: Segment, j: nat): int
    requires j <= |s.sections|
  {
    if j == 0 then s.range.start else s.sections[j - 1].range.End()
  }

  ghost predicate Tidy(s: Segment) {
    0 <= s.range.size && Ordered(s.sections) && Within(s.sections, s.range.start, s.range.End())
  }

  lemma GapHere(s: Segment, j: nat, p: Part)
    requires Tidy(s) && j <= |s.sections| && p.start == Position(s, j) < s.range.End()
    requires j < |s.sections| ==> p.start < s.sections[j].range.start
    ensures IsGap(p, s)
  {
    forall x | x in s.sections ensures x.range.start != p.start {
      var i :| 0 <= i < |s.sections| && s.sections[i] == x;
      if i + 1 < j { assert s.sections[i].range.End() <= s.sections[j - 1].range.start; }
      if j < i { assert s.sections[j].range.End() <= s.sections[i].range.start; }
    }
  }

  ghost function GapsFrom(s: Segment, j: nat, suffix: nat): seq<Part>
    requires j <= |s.sections|
  {
    Gaps(SegmentParts(s, s.sections[j..], Position(s, j), suffix), s)
  }

  lemma GapsAtEnd(s: Segment, suffix: nat)
    requires Tidy(s)
    ensures var j, end := |s.sections|, s.range.End();
            var last := Part(Position(s, j), end, SuffixedName(s.name, suffix), s.kind);
            GapsFrom(s, j, suffix) == if Position(s, j) < end then [last] else []
  {
    var j := |s.sections|;
    var last := Part(Position(s, j), s.range.End(), SuffixedName(s.name, suffix), s.kind);
    hide SuffixedName;
    if Position(s, j) < s.range.End() { GapHere(s, j, last); }
    hide IsGap, Tidy;
    LastPart(s, s.sections[j..], Position(s, j), suffix);
    assert [last][1..] == [] && Gaps([], s) == [];
    if Position(s, j) < s.range.End() { assert Gaps([last], s) == [last] + Gaps([last][1..], s); }
  }

  lemma GapsAtSection(s: Segment, j: nat, suffix: nat)
    requires Tidy(s) && j < |s.sections|
    ensures var pos, next := Position(s, j), s.sections[j].range.start;
            GapsFrom(s, j, suffix) ==
            if pos < next then
              [Part(pos, next, SuffixedName(s.name, suffix), s.kind)] + GapsFrom(s, j + 1, suffix + 1)
            else GapsFrom(s, j + 1, suffix)
  {
    hide SuffixedName, SegmentParts, Gaps;
    var pos, x := Position(s, j), s.sections[j];
    var part, gap := SectionPart(s, x), Part(pos, x.range.start, SuffixedName(s.name, suffix), s.kind);
    assert x in s.sections && !IsGap(part, s);
    if pos < x.range.start { GapHere(s, j, gap); }
    hide IsGap, Tidy;
    NextParts(s, j, pos, suffix, []);
    var parts := SegmentParts(s, s.sections[j..], pos, suffix);
    assert [] + parts == parts;
    if pos < x.range.start {
      GapThenSection(s, gap, part, SegmentParts(s, s.sections[j + 1..], x.range.End(), suffix + 1));
    } else {
      OnlySection(s, part, SegmentParts(s, s.sections[j + 1..], x.range.End(), suffix));
    }
  }

  /** The gaps from section `j` on are numbered on from `suffix`. */
  lemma {:induction false} GapsNumbered(s: Segment, j: nat, suffix: nat, k: nat)
    requires Tidy(s) && j <= |s.sections|
    ensures var g := GapsFrom(s, j, suffix); k < |g| ==> g[k].name == SuffixedName(s.name, suffix + k)
    decreases |s.sections| - j
  {
    hide GapsFrom, Tidy, SuffixedName, Position;
    if j == |s.sections| {
      GapsAtEnd(s, suffix);
    } else {
      GapsAtSection(s, j, suffix);
      if Position(s, j) < s.sections[j].range.start {
        if k > 0 { GapsNumbered(s, j + 1, suffix + 1, k - 1); }
      } else {
        GapsNumbered(s, j + 1, suffix, k);
      }
    }
  }

  lemma GapThenSection(s: Segment, gap: Part, part: Part, rest: seq<Part>)
    requires IsGap(gap, s) && !IsGap(part, s)
    ensures Gaps([] + [gap] + [part] + rest, s) == [gap] + Gaps(rest, s)
  {
    var parts := [] + [gap] + [part] + rest;
    assert parts[1..][1..] == rest && parts[0] == gap && parts[1..][0] == part;
  }

  lemma OnlySection(s: Segment, part: Part, rest: seq<Part>)
    requires !IsGap(part, s)
    ensures Gaps([] + [part] + rest, s) == Gaps(rest, s)
  {
    assert ([] + [part] + rest)[1..] == rest;
  }

  // ----- the gaps in the whole list

  /** Parts of other segments are not gaps of this one. */
  lemma OtherSegment(segments: seq<Segment>, m: nat, n: nat)
    requires InOrder(segments) && m < |segments| && n < |segments| && m != n
    ensures Gaps(PartsOf(segments[n]), segments[m]) == []
  {
    var s, t := segments[m], segments[n];
    hide PartsOf, Ordered, Within;
    forall i | 0 <= i < |PartsOf(t)| ensures !IsGap(PartsOf(t)[i], s) {
      PartBelongs(t, i);
    }
    NoGaps(PartsOf(t), s);
  }

  /** From segment `i` on there are the gaps of segment `m`, or none if it has been passed. */
  lemma {:induction false} GapsOfAll(segments: seq<Segment>, m: nat, i: nat)
    requires InOrder(segments) && m < |segments| && i <= |segments|
    ensures Gaps(AllParts(segments[i..]), segments[m]) ==
            if i <= m then Gaps(PartsOf(segments[m]), segments[m]) else []
    decreases |segments| - i
  {
    hide AllParts, PartsOf, Gaps, InOrder;
    if i == |segments| {
      AllPartsEnd(segments[i..]);
      NoGaps([], segments[m]);
    } else {
      AllPartsNext(segments, i);
      GapsOfAll(segments, m, i + 1);
      GapsConcat(PartsOf(segments[i]), AllParts(segments[i + 1..]), segments[m]);
      if i != m { OtherSegment(segments, m, i); }
    }
  }

  /** The gaps of a segment in the flattened list are those of its own walk. */
  lemma GapsOfSegment(segments: seq<Segment>, s: Segment)
    requires WellFormed(segments) && s in segments
    ensures Gaps(Flattened(segments), s) == Gaps(PartsOf(Arrange(s)), Arrange(s)) && Tidy(Arrange(s))
  {
    var k :| 0 <= k < |segments| && segments[k] == s;
    assert Filled(s);
    hide Arranged, AllParts, WellFormed, PartsOf, Gaps, SortBy, Filled, SameElements;
    ArrangedInOrder(segments);
    var t := Arranged(segments);
    var m := ArrangedHas(segments, k);
    ArrangeSegment(s);
    assert t[0..] == t;
    GapsOfAll(t, m, 0);
    SameGaps(Flattened(segments), Arrange(s), s);
  }

  /** In the flattened list the gaps of every segment carry its name and are numbered in order. */
  lemma FlattenNamesGaps(segments: seq<Segment>, s: Segment, k: nat)
    requires WellFormed(segments) && s in segments && k < |Gaps(Flattened(segments), s)|
    ensures IsGapName(Gaps(Flattened(segments), s)[k].name, s.name, k)
  {
    GapsOfSegment(segments, s);
    var t := Arrange(s);
    hide Gaps, Flattened, WellFormed, IsGapName;
    assert t.sections[0..] == t.sections;
    GapsNumbered(t, 0, 0, k);
    SuffixedIsGapName(s.name, k);
  }

  /** So no two of them have the same name. */
  lemma FlattenNamesDiffer(segments: seq<Segment>, s: Segment, i: nat, j: nat)
    requires WellFormed(segments) && s in segments && i < j < |Gaps(Flattened(segments), s)|
    ensures Gaps(Flattened(segments), s)[i].name != Gaps(Flattened(segments), s)[j].name
  {
    hide Gaps, Flattened, WellFormed, IsGapName;
    FlattenNamesGaps(segments, s, i);
    FlattenNamesGaps(segments, s, j);
    var g := Gaps(Flattened(segments), s);
    GapNamesDiffer(g[i].name, g[j].name, s.name, i, j);
  }

  /** Every part is a gap of a segment or one of its sections. */
  lemma FlattenSectionOrGap(segments: seq<Segment>, i: nat) returns (s: Segment)
    requires WellFormed(segments) && i < |Flattened(segments)|
    ensures var p := Flattened(segments)[i];
            s in segments && Belongs(p, s) && (IsGap(p, s) || exists x :: x in s.sections && p == SectionPart(s, x))
  {
    FlattenBelongs(segments, i);
    var parts := Flattened(segments);
    s :| s in segments && Belongs(parts[i], s);
    if !IsGap(parts[i], s) {
      var x :| x in s.sections && x.range.start == parts[i].start;
      hide Flattened, WellFormed;
      FlattenKeepsSections(segments, s, x);
      FlattenTiles(segments);
      SameStart(parts, i, SectionPart(s, x));
    }
  }

  lemma SameStart(parts: seq<Part>, i: nat, p: Part)
    requires OrderedParts(parts) && i < |parts| && p in parts && p.start == parts[i].start
    ensures p == parts[i]
  {
    var j :| 0 <= j < |parts| && parts[j] == p;
    assert parts[i].start < parts[i].end && parts[j].start < parts[j].end;
  }
}
