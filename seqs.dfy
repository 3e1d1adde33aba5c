/** Facts about sequence concatenation, stated once so that proofs can cite them instead
    of asking the solver to rediscover them among many other terms. */
module SeqFacts {
  lemma AppendAssoc<T>(x: seq<T>, y: seq<T>, z: seq<T>)
    ensures x + (y + z) == (x + y) + z
  {
  }

  lemma AppendEmpty<T>(x: seq<T>)
    ensures [] + x == x && x + [] == x
  {
  }

  /** f(lo) + f(lo + 1) + ... + f(hi); empty when hi < lo. */
  function ConcatRange<T>(f: nat -> seq<T>, lo: nat, hi: int): seq<T>
    decreases hi - lo + 1
  {
    if hi < lo then [] else f(lo) + ConcatRange(f, lo + 1, hi)
  }

  /** The range can also be peeled from its top end. */
  lemma {:induction false} ConcatRangeSnoc<T>(f: nat -> seq<T>, lo: nat, hi: nat)
    requires lo <= hi
    ensures ConcatRange(f, lo, hi) == ConcatRange(f, lo, hi - 1) + f(hi)
    decreases hi - lo
  {
    if lo < hi {
      ConcatRangeSnoc(f, lo + 1, hi);
      AppendAssoc(f(lo), ConcatRange(f, lo + 1, hi - 1), f(hi));
    } else {
      AppendEmpty(f(lo));
    }
  }

  /** Splitting the range at any point splits the concatenation there. */
  lemma {:induction false} ConcatRangeSplit<T>(f: nat -> seq<T>, lo: nat, mid: nat, hi: int)
    requires lo <= mid <= hi + 1
    ensures ConcatRange(f, lo, hi) == ConcatRange(f, lo, mid - 1) + ConcatRange(f, mid, hi)
    decreases mid - lo
  {
    if lo < mid {
      ConcatRangeSplit(f, lo + 1, mid, hi);
      AppendAssoc(f(lo), ConcatRange(f, lo + 1, mid - 1), ConcatRange(f, mid, hi));
    } else {
      AppendEmpty(ConcatRange(f, mid, hi));
    }
  }
}
