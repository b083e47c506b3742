/** Bitwise operators on unsigned machine words, as functions on natural numbers. */
module Bits {
  import opened Arith

  function Pow2(k: nat): (p: nat)
    ensures p > 0
  {
    if k == 0 then 1 else 2 * Pow2(k - 1)
  }

  /** `a & b` */
  function And(a: nat, b: nat): nat {
    if a == 0 || b == 0 then 0 else 2 * And(a / 2, b / 2) + (a % 2) * (b % 2)
  }

  /** `a | b` */
  function Or(a: nat, b: nat): nat {
    if a == 0 then b else if b == 0 then a
    else 2 * Or(a / 2, b / 2) + if a % 2 == 1 || b % 2 == 1 then 1 else 0
  }

  /** `a >> k` */
  function Shr(a: nat, k: nat): nat {
    if k == 0 then a else Shr(a / 2, k - 1)
  }

  lemma {:induction false} Doubled(x: nat, y: nat)
    ensures (2 * x) * y == 2 * (x * y)
  {
  }

  lemma {:induction false} Pow2Add(j: nat, k: nat)
    ensures Pow2(j + k) == Pow2(j) * Pow2(k)
  {
    if j > 0 {
      Pow2Add(j - 1, k);
      Doubled(Pow2(j - 1), Pow2(k));
    }
  }

  lemma {:induction false} Pow2Mono(j: nat, k: nat)
    requires j <= k
    ensures Pow2(j) <= Pow2(k)
    ensures j < k ==> 2 * Pow2(j) <= Pow2(k)
  {
    if j < k { Pow2Mono(j, k - 1); }
  }

  /** Masking with a power of two less one takes the remainder. */
  lemma {:induction false} MaskIsMod(a: nat, k: nat)
    ensures And(a, Pow2(k) - 1) == a % Pow2(k)
  {
    if k > 0 {
      MaskIsMod(a / 2, k - 1);
      MaskStep(a, Pow2(k - 1));
    }
  }

  lemma {:induction false} MaskStep(a: nat, p: nat)
    requires p > 0 && And(a / 2, p - 1) == a / 2 % p
    ensures And(a, 2 * p - 1) == a % (2 * p)
  {
    hide And;
    HalvedMod(a, p);
    AndOdd(a, p - 1);
    assert 2 * p - 1 == 2 * (p - 1) + 1;
  }

  lemma {:induction false} AndOdd(a: nat, m: nat)
    ensures And(a, 2 * m + 1) == 2 * And(a / 2, m) + a % 2
  {
    assert (2 * m + 1) / 2 == m;
  }

  lemma {:induction false} HalvedMod(a: nat, p: nat)
    requires p > 0
    ensures a % (2 * p) == 2 * (a / 2 % p) + a % 2
  {
    var h := a / 2;
    assert h == p * (h / p) + h % p;
    assert a == (2 * p) * (h / p) + (2 * (h % p) + a % 2) by {
      assert (2 * p) * (h / p) == 2 * (p * (h / p));
    }
    RemainderIs(a, 2 * p, h / p, 2 * (h % p) + a % 2);
  }

  lemma {:induction false} HalvedDiv(a: nat, p: nat)
    requires p > 0
    ensures a / (2 * p) == a / 2 / p
  {
    var h := a / 2;
    assert h == p * (h / p) + h % p;
    assert (2 * p) * (h / p) == 2 * (p * (h / p));
    RemainderIs(a, 2 * p, h / p, 2 * (h % p) + a % 2);
  }

  ghost predicate IsPow2(n: nat) {
    exists k: nat :: n == Pow2(k)
  }

  lemma {:induction false} ShrIsDiv(a: nat, k: nat)
    ensures Shr(a, k) == a / Pow2(k)
  {
    if k > 0 {
      ShrIsDiv(a / 2, k - 1);
      HalvedDiv(a, Pow2(k - 1));
    }
  }

  lemma {:induction false} AndSelf(a: nat)
    ensures And(a, a) == a
  {
    if a > 0 {
      AndSelf(a / 2);
      BitSquare(a % 2);
      assert And(a, a) == 2 * And(a / 2, a / 2) + (a % 2) * (a % 2);
    }
  }

  lemma {:induction false} BitSquare(b: nat)
    requires b <= 1
    ensures b * b == b
  {
  }

  /** The usual test: a positive number shares no bit with its predecessor just when it is a power of two. */
  lemma {:induction false} PowerOfTwoTest(n: nat)
    requires n > 0
    ensures And(n, n - 1) == 0 <==> IsPow2(n)
  {
    if n == 1 {
      assert n == Pow2(0);
    } else if n % 2 == 0 {
      var m := n / 2;
      PowerOfTwoTest(m);
      assert (n - 1) / 2 == m - 1;
      if k: nat :| m == Pow2(k) { assert n == Pow2(k + 1); }
      if k: nat :| n == Pow2(k) { assert m == Pow2(k - 1); }
    } else {
      var m := n / 2;
      AndSelf(m);
      assert (n - 1) / 2 == m;
    }
  }

  lemma {:induction false} OrBound(a: nat, b: nat, k: nat)
    requires a < Pow2(k) && b < Pow2(k)
    ensures Or(a, b) < Pow2(k)
  {
    if k > 0 { OrBound(a / 2, b / 2, k - 1); }
  }

  /** Or-ing in a number below `2^k` keeps the bits from `k` up, and yields at least that number below. */
  lemma {:induction false} OrLower(a: nat, b: nat, k: nat)
    requires b < Pow2(k)
    ensures Or(a, b) >= a - a % Pow2(k) + b
  {
    if k > 0 && b > 0 && a > 0 {
      OrLower(a / 2, b / 2, k - 1);
      HalvedMod(a, Pow2(k - 1));
    }
  }
}
