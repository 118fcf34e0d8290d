/** The concatenation of split part files, and accesses to it that cross from file to file. */
module PartFiles {
  import opened Flattening
  import opened SdStorage

  /** Every part but the last has exactly `size` sectors, the last at most that. */
  ghost predicate Even(parts: seq<seq<Block>>, size: nat) {
    && (forall i :: 0 <= i < |parts| - 1 ==> |parts[i]| == size)
    && (parts != [] ==> |parts[|parts| - 1]| <= size)
  }

  lemma StartIsProduct(parts: seq<seq<Block>>, size: nat, i: nat)
    requires Even(parts, size) && i < |parts|
    ensures Start(parts, i) == i * size
  {
    EqualStart(parts, size, i);
  }

  lemma FlattenSize(parts: seq<seq<Block>>)
    requires parts != []
    ensures |Flatten(parts)| == Start(parts, |parts| - 1) + |parts[|parts| - 1]|
  {
    FlattenLength(parts);
    StartNext(parts, |parts| - 1);
  }

  lemma ReplaceBehind(front: seq<Block>, rest: seq<Block>, o: nat, part: seq<Block>)
    requires o + |part| <= |rest|
    ensures var all, at := front + rest, |front| + o;
            all[at..at + |part|] == rest[o..o + |part|] &&
            all[..at] + part + all[at + |part|..] == front + (rest[..o] + part + rest[o + |part|..])
  {
    var all, at := front + rest, |front| + o;
    assert all[..at] == front + rest[..o];
    assert all[at + |part|..] == rest[o + |part|..];
  }

  /** Replacing the contents of one part replaces that stretch of the whole. */
  lemma {:induction false} FlattenUpdate(parts: seq<seq<Block>>, i: nat, part: seq<Block>)
    requires i < |parts| && |part| == |parts[i]|
    ensures var all, at := Flatten(parts), Start(parts, i);
            at + |part| <= |all| && all[at..at + |part|] == parts[i] &&
            Flatten(parts[i := part]) == all[..at] + part + all[at + |part|..]
    decreases |parts|
  {
    var parts' := parts[i := part];
    if i == 0 {
      assert parts'[1..] == parts[1..];
    } else {
      FlattenUpdate(parts[1..], i - 1, part);
      assert parts'[1..] == parts[1..][i - 1 := part];
      assert Flatten(parts') == parts[0] + Flatten(parts'[1..]) && Flatten(parts) == parts[0] + Flatten(parts[1..]);
      assert Start(parts, i) == |parts[0]| + Start(parts[1..], i - 1);
      hide Flatten, Start;
      ReplaceBehind(parts[0], Flatten(parts[1..]), Start(parts[1..], i - 1), part);
    }
  }

  /** The same for any stretch `part` of a whole `all`, at `start`. */
  lemma WindowAccess(all: seq<Block>, all': seq<Block>, start: nat, part: seq<Block>, part': seq<Block>,
                     sector: nat, at: nat, n: nat, isWrite: bool, buf: seq<Block>, buf': seq<Block>)
    requires Framed(isWrite, sector, at, n, part, buf, part', buf')
    requires start + |part| <= |all| && all[start..start + |part|] == part
    requires all' == all[..start] + part' + all[start + |part|..]
    ensures var pos := start + sector;
            Framed(isWrite, pos, at, n, all, buf, all', buf') &&
            (sector + n <= |part'| && at + n <= |buf'| && part'[sector..sector + n] == buf'[at..at + n] ==>
               pos + n <= |all'| && all'[pos..pos + n] == buf'[at..at + n])
  {
    forall k | 0 <= k < |part| ensures all[start + k] == part[k] && all'[start + k] == part'[k] {
      assert all[start..start + |part|][k] == part[k];
    }
    forall k | 0 <= k < |all| && !(start + sector <= k < start + sector + n) ensures all'[k] == all[k] {
      if start <= k < start + |part| { assert all[start + (k - start)] == part[k - start]; }
    }
    if !isWrite { assert all' == all; }
    if sector + n <= |part'| {
      assert all'[start + sector..start + sector + n] == part'[sector..sector + n];
    }
  }

  /** An access to one part is the access to the same sectors of the whole. */
  lemma PartAccess(parts: seq<seq<Block>>, i: nat, part: seq<Block>, sector: nat, at: nat, n: nat,
                   isWrite: bool, buf: seq<Block>, buf': seq<Block>)
    requires i < |parts| && Framed(isWrite, sector, at, n, parts[i], buf, part, buf')
    ensures var all, all', pos := Flatten(parts), Flatten(parts[i := part]), Start(parts, i) + sector;
            Framed(isWrite, pos, at, n, all, buf, all', buf') &&
            (sector + n <= |part| && at + n <= |buf'| && part[sector..sector + n] == buf'[at..at + n] ==>
               pos + n <= |all'| && all'[pos..pos + n] == buf'[at..at + n])
  {
    hide Flatten, Start;
    FlattenUpdate(parts, i, part);
    WindowAccess(Flatten(parts), Flatten(parts[i := part]), Start(parts, i), parts[i], part,
                 sector, at, n, isWrite, buf, buf');
  }
}
