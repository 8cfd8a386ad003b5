/** bsp_enumerate_aps as one loop over the presence array. */
module ApEnumeration {
  import opened ApProtocol
  import opened Ranks

  /** The array and the count after the slots below `n` have been visited. */
  function Enumerated(presence: seq<nat>, n: nat): (r: (seq<nat>, nat))
    requires 1 <= n <= |presence|
    ensures |r.0| == |presence|
  {
    if n == 1 then (presence, 0)
    else
      var (before, found) := Enumerated(presence, n - 1);
      EnumerateOne(before, n - 1, found)
  }

  ghost function PresentIds(presence: seq<nat>): set<nat> {
    set i: nat | 1 <= i < |presence| && presence[i] != 0
  }

  /** Each marked slot gets the low byte of its rank among the marked slots, and the count
      is the low byte of their number so far. */
  lemma {:induction false} EnumeratedRanks(presence: seq<nat>, n: nat)
    requires 1 <= n <= |presence|
    ensures var (after, found) := Enumerated(presence, n);
            && found == Rank(PresentIds(presence), n - 1) % 256
            && (forall i :: 0 <= i < |presence| ==>
                  after[i] == if 1 <= i < n && presence[i] != 0 then Rank(PresentIds(presence), i) % 256 else presence[i])
  {
    if n > 1 {
      EnumeratedRanks(presence, n - 1);
      var (before, found) := Enumerated(presence, n - 1);
      assert before[n - 1] == presence[n - 1];
      assert Rank(PresentIds(presence), n - 1)
             == Rank(PresentIds(presence), n - 2) + if presence[n - 1] != 0 then 1 else 0;
      NextByte(Rank(PresentIds(presence), n - 2));
    }
  }

  lemma NextByte(r: nat)
    ensures (r % 256 + 1) % 256 == (r + 1) % 256
  {
  }

  method BspEnumerateAps(presence: array<nat>) returns (count: nat)
    requires 1 <= presence.Length
    modifies presence
    ensures (presence[..], count) == Enumerated(old(presence[..]), presence.Length)
  {
    ghost var start := presence[..];
    count := 0;
    for i := 1 to presence.Length
      invariant (presence[..], count) == Enumerated(start, i)
    {
      ghost var before := presence[..];
      if presence[i] != 0 {
        count := (count + 1) % 256;
        presence[i] := count;
        assert presence[..] == before[i := count];
      }
    }
  }

  /** The count is the number of APs that marked themselves exactly when there are at most
      255 of them. */
  lemma CountsEveryApExactlyWhen(presence: seq<nat>)
    requires 1 <= |presence|
    ensures Enumerated(presence, |presence|).1 == |PresentIds(presence)| <==> |PresentIds(presence)| <= 255
  {
    EnumeratedRanks(presence, |presence|);
    RankTotal(PresentIds(presence), |presence| - 1);
    ByteOf(|PresentIds(presence)|);
  }

  lemma ByteOf(n: nat)
    ensures n % 256 == n <==> n <= 255
  {
  }

  /** 8-bit APIC ids mark no slot past 255, so the count is right and every AP's ordinal is
      its rank, whatever the length of the array. */
  lemma ByteIdsAreEnumerated(presence: seq<nat>)
    requires 1 <= |presence| && forall i :: 256 <= i < |presence| ==> presence[i] == 0
    ensures Enumerated(presence, |presence|).1 == |PresentIds(presence)|
    ensures forall i :: 0 <= i < |presence| && i in PresentIds(presence) ==>
              Enumerated(presence, |presence|).0[i] == Rank(PresentIds(presence), i)
  {
    var ids := PresentIds(presence);
    EnumeratedRanks(presence, |presence|);
    RankTotal(ids, |presence| - 1);
    RankCapped(ids, |presence| - 1, 255);
    ByteOf(|ids|);
    forall i | 0 <= i < |presence| && i in ids
      ensures Enumerated(presence, |presence|).0[i] == Rank(ids, i)
    {
      RankCapped(ids, i, 255);
      ByteOf(Rank(ids, i));
    }
  }
}
