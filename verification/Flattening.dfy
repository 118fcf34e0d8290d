/** Sequences one after the other, and where each of them starts. */
module Flattening {
  import opened Arithmetic

  function Flatten<T>(parts: seq<seq<T>>): seq<T> {
    if parts == [] then [] else parts[0] + Flatten(parts[1..])
  }

  /** Where part `i` starts in the whole. */
  function Start<T>(parts: seq<seq<T>>, i: nat): nat
    requires i <= |parts|
  {
    if i == 0 then 0 else |parts[0]| + Start(parts[1..], i - 1)
  }

  lemma StartFirst<T>(parts: seq<seq<T>>)
    ensures Start(parts, 0) == 0
  {
  }

  lemma {:induction false} StartNext<T>(parts: seq<seq<T>>, i: nat)
    requires i < |parts|
    ensures Start(parts, i + 1) == Start(parts, i) + |parts[i]|
    decreases i
  {
    if i == 0 {
    } else {
      StartNext(parts[1..], i - 1);
    }
  }

  lemma {:induction false} FlattenLength<T>(parts: seq<seq<T>>)
    ensures |Flatten(parts)| == Start(parts, |parts|)
    decreases |parts|
  {
    if parts == [] {
    } else {
      FlattenLength(parts[1..]);
    }
  }

  lemma {:induction false} FlattenSnoc<T>(parts: seq<seq<T>>, last: seq<T>)
    ensures Flatten(parts + [last]) == Flatten(parts) + last
    decreases |parts|
  {
    if parts == [] {
      assert [last][1..] == [];
    } else {
      FlattenSnoc(parts[1..], last);
      assert (parts + [last])[1..] == parts[1..] + [last];
    }
  }

  /** Every part lies at its start. */
  lemma {:induction false} PartAt<T>(parts: seq<seq<T>>, i: nat)
    requires i < |parts|
    ensures var start := Start(parts, i);
            start + |parts[i]| <= |Flatten(parts)| && Flatten(parts)[start..start + |parts[i]|] == parts[i]
    decreases |parts|
  {
    if i == 0 {
    } else {
      PartAt(parts[1..], i - 1);
      var start := Start(parts[1..], i - 1);
      assert Flatten(parts)[|parts[0]| + start..|parts[0]| + start + |parts[i]|]
          == Flatten(parts[1..])[start..start + |parts[i]|];
    }
  }

  /** Equal parts start at multiples of their size. */
  lemma {:induction false} EqualStart<T>(parts: seq<seq<T>>, size: nat, i: nat)
    requires i <= |parts| && forall k :: 0 <= k < i ==> |parts[k]| == size
    ensures Start(parts, i) == i * size
    decreases i
  {
    if i == 0 {
    } else {
      EqualStart(parts[1..], size, i - 1);
      Distribute(i - 1, 1, size);
    }
  }
}
