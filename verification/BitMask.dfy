/** Bit masks as natural numbers. */
module BitMask {
  import opened Arithmetic

  predicate Bit(m: nat, i: nat) {
    if i == 0 then m % 2 == 1 else Bit(m / 2, i - 1)
  }

  /** `m | (1 << i)`. */
  function SetBit(m: nat, i: nat): nat {
    if i == 0 then m / 2 * 2 + 1 else 2 * SetBit(m / 2, i - 1) + m % 2
  }

  /** `a | b`. */
  function Or(a: nat, b: nat): nat {
    if a == 0 && b == 0 then 0 else 2 * Or(a / 2, b / 2) + if a % 2 == 1 || b % 2 == 1 then 1 else 0
  }

  /** `(1 << n) - 1`. */
  function AllOnes(n: nat): nat { Pow2(n) - 1 }

  /** `ctz(~m)`: the lowest bit of `m` that is clear. */
  function LowestClear(m: nat): nat {
    if m % 2 == 0 then 0 else 1 + LowestClear(m / 2)
  }

  lemma {:induction false} BitOfSetBit(m: nat, i: nat, j: nat)
    ensures Bit(SetBit(m, i), j) <==> i == j || Bit(m, j)
    decreases i
  {
    var r := SetBit(m, i);
    if i > 0 {
      assert r / 2 == SetBit(m / 2, i - 1) && r % 2 == m % 2;
      if j > 0 { BitOfSetBit(m / 2, i - 1, j - 1); }
    } else {
      assert r / 2 == m / 2 && r % 2 == 1;
    }
  }

  lemma {:induction false} BitOfOr(a: nat, b: nat, i: nat)
    ensures Bit(Or(a, b), i) <==> Bit(a, i) || Bit(b, i)
    decreases i
  {
    var r := Or(a, b);
    assert r / 2 == Or(a / 2, b / 2) && r % 2 == if a % 2 == 1 || b % 2 == 1 then 1 else 0;
    if i > 0 { BitOfOr(a / 2, b / 2, i - 1); }
  }

  lemma {:induction false} OrZero(b: nat)
    ensures Or(0, b) == b == Or(b, 0)
  {
    if b == 0 {
    } else {
      OrZero(b / 2);
    }
  }

  /** Without a common bit the two are added. */
  lemma {:induction false} OrIsSum(low: nat, high: nat, k: nat)
    requires low < Pow2(k) && high % Pow2(k) == 0
    ensures Or(low, high) == low + high == Or(high, low)
    decreases k
  {
    if k == 0 {
      OrZero(high);
    } else {
      var p, q := Pow2(k - 1), high / Pow2(k);
      assert Pow2(k) == 2 * p;
      assert high == q * (2 * p) == 2 * (q * p);
      hide Pow2;
      ModUnique(high / 2, p, q, 0);
      OrIsSum(low / 2, high / 2, k - 1);
    }
  }

  lemma Half(m: nat, p: nat)
    requires m < 2 * p
    ensures m / 2 < p && m / 2 * 2 + 1 < 2 * p
  {
  }

  lemma {:induction false} SetBitBound(m: nat, i: nat, n: nat)
    requires m < Pow2(n) && i < n
    ensures SetBit(m, i) < Pow2(n)
    decreases i
  {
    var p := Pow2(n - 1);
    assert Pow2(n) == 2 * p;
    Half(m, p);
    if i == 0 {
    } else {
      assert SetBit(m, i) == 2 * SetBit(m / 2, i - 1) + m % 2;
      hide Pow2, SetBit;
      SetBitBound(m / 2, i - 1, n - 1);
    }
  }

  ghost predicate AllSet(m: nat, n: nat) {
    forall i :: 0 <= i < n ==> Bit(m, i)
  }

  lemma AllSetStep(m: nat, n: nat)
    requires 0 < n
    ensures AllSet(m, n) <==> m % 2 == 1 && AllSet(m / 2, n - 1)
  {
    assert Bit(m, 0) <==> m % 2 == 1;
    forall i: nat ensures Bit(m, i + 1) <==> Bit(m / 2, i) {}
    if m % 2 == 1 && AllSet(m / 2, n - 1) {
      forall i | 0 <= i < n ensures Bit(m, i) {
        if i > 0 { var k: nat := i - 1; assert Bit(m / 2, k) && Bit(m, k + 1); }
      }
    }
    if AllSet(m, n) {
      forall i | 0 <= i < n - 1 ensures Bit(m / 2, i) { assert Bit(m, i + 1); }
    }
  }

  /** A mask of `n` bits is all ones exactly when every bit is set. */
  lemma {:induction false} FullMask(m: nat, n: nat)
    requires m < Pow2(n)
    ensures m == AllOnes(n) <==> AllSet(m, n)
    decreases n
  {
    if n == 0 {
    } else {
      FullMask(m / 2, n - 1);
      AllSetStep(m, n);
    }
  }

  lemma {:induction false} LowestClearIsClear(m: nat, n: nat)
    requires m < Pow2(n) && m != AllOnes(n)
    ensures LowestClear(m) < n && !Bit(m, LowestClear(m))
    decreases n
  {
    if m % 2 == 0 {
    } else {
      LowestClearIsClear(m / 2, n - 1);
    }
  }

  lemma {:induction false} LowestClearIsLowest(m: nat, j: nat)
    requires j < LowestClear(m)
    ensures Bit(m, j)
    decreases j
  {
    if j == 0 {
    } else {
      LowestClearIsLowest(m / 2, j - 1);
    }
  }
}
