/** Indices into rings: `ticket % n`, and the few facts about it that the queue proofs need. */
module RingIndex {
  import opened Arith

  /**
   The slot of a ticket in a ring of `n` slots, `ticket % n` (see `IdxIsMod`), by repeated subtraction so that
   proofs about it stay linear.
   */
  function Idx(ticket: nat, n: nat): (i: nat)
    requires n > 0
    ensures i < n
  {
    if ticket < n then ticket else Idx(ticket - n, n)
  }

  lemma {:induction false} IdxIsMod(t: nat, n: nat)
    requires n > 0
    ensures Idx(t, n) == t % n
  {
    if t >= n {
      IdxIsMod(t - n, n);
      var q := (t - n) / n;
      assert t - n == n * q + (t - n) % n;
      assert n * (q + 1) == n * q + n;
      QuotientUnique(q + 1, (t - n) % n, t / n, t % n, n);
    }
  }

  lemma {:induction false} SameIdx(a: nat, b: nat, n: nat)
    requires n > 0 && a < b && Idx(a, n) == Idx(b, n)
    ensures a + n <= b
  {
    if a >= n {
      SameIdx(a - n, b - n, n);
    }
  }

  lemma {:induction false} IdxSucc(t: nat, n: nat)
    requires n >= 2
    ensures Idx(t + 1, n) != Idx(t, n)
  {
    if Idx(t + 1, n) == Idx(t, n) {
      SameIdx(t, t + 1, n);
    }
  }

  /** Stepping an index round the ring steps the ticket behind it. */
  lemma {:induction false} IdxNext(t: nat, n: nat)
    requires n > 0
    ensures Idx(Idx(t, n) + 1, n) == Idx(t + 1, n)
  {
    if t >= n {
      IdxNext(t - n, n);
    }
  }
}
