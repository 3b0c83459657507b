/** Sums over the threads of a protocol, one weight for each thread. */
module Sums {
  ghost function Sum<T>(s: seq<T>, weight: T -> int): int {
    if s == [] then 0 else Sum(s[..|s| - 1], weight) + weight(s[|s| - 1])
  }

  /** When one thread moves, only its own weight changes. */
  lemma {:induction false} SumUpdate<T>(s: seq<T>, i: nat, t: T, weight: T -> int)
    requires i < |s|
    ensures Sum(s[i := t], weight) == Sum(s, weight) - weight(s[i]) + weight(t)
  {
    var n := |s| - 1;
    if i == n {
      assert s[i := t][..n] == s[..n];
    } else {
      assert s[i := t][..n] == s[..n][i := t];
      SumUpdate(s[..n], i, t, weight);
    }
  }

  lemma {:induction false} SumBounds<T>(s: seq<T>, weight: T -> int, lo: int, hi: int)
    requires forall i :: 0 <= i < |s| ==> lo <= weight(s[i]) <= hi
    ensures lo * |s| <= Sum(s, weight) <= hi * |s|
  {
    if s != [] {
      SumBounds(s[..|s| - 1], weight, lo, hi);
    }
  }

  /** A thread with a positive weight exists whenever the sum is positive. */
  lemma {:induction false} SumWitness<T>(s: seq<T>, weight: T -> int) returns (i: nat)
    requires Sum(s, weight) > 0
    ensures i < |s| && weight(s[i]) > 0
  {
    if weight(s[|s| - 1]) > 0 {
      i := |s| - 1;
    } else {
      i := SumWitness(s[..|s| - 1], weight);
    }
  }

  /** Weights that are not negative add up to at least any one of them. */
  lemma {:induction false} SumAtLeast<T>(s: seq<T>, weight: T -> int, i: nat)
    requires i < |s| && forall k :: 0 <= k < |s| ==> weight(s[k]) >= 0
    ensures Sum(s, weight) >= weight(s[i])
  {
    var n := |s| - 1;
    SumBounds(s[..n], weight, 0, MaxWeight(s[..n], weight));
    if i < n {
      SumAtLeast(s[..n], weight, i);
    }
  }

  ghost function MaxWeight<T>(s: seq<T>, weight: T -> int): (m: int)
    ensures forall i :: 0 <= i < |s| ==> weight(s[i]) <= m
  {
    if s == [] then 0 else
    var m := MaxWeight(s[..|s| - 1], weight);
    if weight(s[|s| - 1]) > m then weight(s[|s| - 1]) else m
  }

  // ---------- what the threads carry ----------

  type Bag<M> = multiset<M>

  /** All that the threads carry, one bag for each thread. */
  ghost function Collected<T, M>(s: seq<T>, of: T -> Bag<M>): Bag<M> {
    if s == [] then multiset{} else Collected(s[..|s| - 1], of) + of(s[|s| - 1])
  }

  lemma {:induction false} CollectedUpdate<T, M>(s: seq<T>, i: nat, t: T, of: T -> Bag<M>)
    requires i < |s|
    ensures Collected(s[i := t], of) + of(s[i]) == Collected(s, of) + of(t)
  {
    var n, now := |s| - 1, s[i := t];
    if i == n {
      assert now[..n] == s[..n] && now[n] == t;
      Exchange(Collected(s[..n], of), of(t), of(s[n]));
    } else {
      assert now[..n] == s[..n][i := t] && now[n] == s[n];
      CollectedUpdate(s[..n], i, t, of);
      BothMore(Collected(now[..n], of), of(s[i]), Collected(s[..n], of), of(t), of(s[n]));
    }
  }

  lemma {:induction false} CollectedNone<T, M>(s: seq<T>, of: T -> Bag<M>)
    requires forall i :: 0 <= i < |s| ==> of(s[i]) == multiset{}
    ensures Collected(s, of) == multiset{}
  {
    if s != [] {
      CollectedNone(s[..|s| - 1], of);
    }
  }

  lemma Exchange<M>(a: Bag<M>, b: Bag<M>, c: Bag<M>)
    ensures a + b + c == a + c + b
  {
  }

  lemma MoreAtEnd<M>(a: Bag<M>, b: Bag<M>, c: Bag<M>, d: Bag<M>)
    requires d == b + c
    ensures a + d == a + b + c
  {
  }

  lemma Regroup<M>(a: Bag<M>, b: Bag<M>, c: Bag<M>)
    ensures a + b + c == a + (c + b)
  {
  }

  lemma BothMore<M>(a: Bag<M>, b: Bag<M>, c: Bag<M>, d: Bag<M>, more: Bag<M>)
    requires a + b == c + d
    ensures a + more + b == c + more + d
  {
    forall m
      ensures (a + more + b)[m] == (c + more + d)[m]
    {
      assert (a + b)[m] == (c + d)[m];
    }
  }

  /** What a thread lays down from what it carries stays in the whole. */
  lemma Rebalance<M>(laid: Bag<M>, carried: Bag<M>, own: Bag<M>, laid': Bag<M>, carried': Bag<M>, own': Bag<M>)
    requires carried' + own == carried + own' && laid' + own' == laid + own
    ensures laid' + carried' == laid + carried
  {
    forall m
      ensures (laid' + carried')[m] == (laid + carried)[m]
    {
      assert (carried' + own)[m] == (carried + own')[m];
      assert (laid' + own')[m] == (laid + own)[m];
    }
  }
}
