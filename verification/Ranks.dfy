/** Ranks of APIC ids among the processors present, and sums over the processors. */
module Ranks {

  /** How many members of `ids` lie in 1..i. */
  function Rank(ids: set<nat>, i: nat): (r: nat)
    ensures r <= i
  {
    if i == 0 then 0 else Rank(ids, i - 1) + (if i in ids then 1 else 0)
  }

  lemma {:induction false} RankMonotone(ids: set<nat>, i: nat, j: nat)
    requires i <= j
    ensures Rank(ids, i) <= Rank(ids, j)
    ensures i < j && j in ids ==> Rank(ids, i) < Rank(ids, j)
    decreases j
  {
    if i < j {
      RankMonotone(ids, i, j - 1);
    }
  }

  /** Ranks are bounded by the greatest id, however far the enumeration goes. */
  lemma {:induction false} RankCapped(ids: set<nat>, i: nat, top: nat)
    requires forall id :: id in ids ==> id <= top
    ensures Rank(ids, i) <= top
  {
    if i > top {
      RankCapped(ids, i - 1, top);
    }
  }

  /** The last rank is the number of processors. */
  lemma {:induction false} RankTotal(ids: set<nat>, top: nat)
    requires forall id :: id in ids ==> 1 <= id <= top
    ensures Rank(ids, top) == |ids|
    decreases top
  {
    if top == 0 {
      assert ids == {};
    } else {
      var rest := ids - {top};
      RankTotal(rest, top - 1);
      RankIgnores(ids, rest, top - 1);
      if top in ids {
        assert ids == rest + {top};
      } else {
        assert ids == rest;
      }
    }
  }

  lemma {:induction false} RankIgnores(a: set<nat>, b: set<nat>, i: nat)
    requires forall id :: 1 <= id <= i ==> (id in a <==> id in b)
    ensures Rank(a, i) == Rank(b, i)
  {
    if i > 0 {
      RankIgnores(a, b, i - 1);
    }
  }

  /** Every ordinal is taken by some processor. */
  lemma {:induction false} RankOnto(ids: set<nat>, top: nat, k: nat) returns (id: nat)
    requires 1 <= k <= Rank(ids, top)
    ensures 1 <= id <= top && id in ids && Rank(ids, id) == k
    decreases top
  {
    if top in ids && Rank(ids, top) == k {
      id := top;
    } else {
      id := RankOnto(ids, top - 1, k);
    }
  }

  function Sum<T>(weight: T -> nat, items: seq<T>): nat {
    if items == [] then 0
    else Sum(weight, items[..|items| - 1]) + weight(items[|items| - 1])
  }

  lemma {:induction false} SumUpdate<T>(weight: T -> nat, items: seq<T>, i: nat, item: T)
    requires i < |items|
    ensures Sum(weight, items[i := item]) + weight(items[i]) == Sum(weight, items) + weight(item)
  {
    var n := |items| - 1;
    if i == n {
      assert items[i := item][..n] == items[..n];
    } else {
      assert items[i := item][..n] == items[..n][i := item];
      SumUpdate(weight, items[..n], i, item);
    }
  }

  lemma {:induction false} SumAtMost<T>(weight: T -> nat, items: seq<T>, items': seq<T>)
    requires |items| == |items'|
    requires forall i :: 0 <= i < |items| ==> weight(items[i]) <= weight(items'[i])
    ensures Sum(weight, items) <= Sum(weight, items')
  {
    if items != [] {
      var n := |items| - 1;
      SumAtMost(weight, items[..n], items'[..n]);
    }
  }

  /** A sum of zeros and ones over APIC ids is a rank. */
  lemma {:induction false} SumIsRank<T>(weight: T -> nat, items: seq<T>, ids: set<nat>)
    requires items != [] && weight(items[0]) == 0
    requires forall i :: 0 < i < |items| ==> weight(items[i]) == if i in ids then 1 else 0
    ensures Sum(weight, items) == Rank(ids, |items| - 1)
  {
    var n := |items| - 1;
    if n > 0 {
      SumIsRank(weight, items[..n], ids);
    } else {
      assert Sum(weight, items[..0]) == 0;
    }
  }
}
