/** Safety of bring-up, stated for every schedule. */
module ApTheorems {
  import opened Words
  import opened ApProtocol
  import opened ApSafety
  import opened Ranks

  const STACK_SIZE: nat := 8192

  predicate HasOrdinal(pc: ApPc) { pc.LoadStack? || OwnsStack(pc) }

  predicate OwnsStack(pc: ApPc) { pc.OnStack? || pc.Counted? || pc.Running? }

  ghost predicate DistinctOrdinals(s: State) {
    forall i, j :: 0 <= i < j < |s.aps| && HasOrdinal(s.aps[i]) && HasOrdinal(s.aps[j]) ==>
      s.aps[i].ordinal != s.aps[j].ordinal
  }

  /** The first `count` stack pointers are tops of disjoint stacks inside [lo, hi). */
  ghost predicate DisjointStacks(stacks: seq<nat>, count: nat, lo: nat, hi: nat) {
    && count <= |stacks|
    && (forall k :: 0 <= k < count ==> lo + STACK_SIZE <= stacks[k] <= hi)
    && (forall k, l :: 0 <= k < l < count ==>
          stacks[k] + STACK_SIZE <= stacks[l] || stacks[l] + STACK_SIZE <= stacks[k])
  }

  /** The states that some schedule leads to. */
  ghost predicate Reachable(cfg: Config, s: State) {
    exists schedule :: Run(cfg, Init(cfg), schedule) == s
  }

  lemma ReachableInv(cfg: Config, s: State)
    requires WellFormed(cfg) && cfg.timely && Reachable(cfg, s)
    ensures Inv(cfg, s)
  {
    var schedule :| Run(cfg, Init(cfg), schedule) == s;
    InitInv(cfg);
    RunInv(cfg, Init(cfg), schedule);
  }

  lemma OrdinalFacts(cfg: Config, s: State, i: nat)
    requires Inv(cfg, s) && i < |s.aps| && HasOrdinal(s.aps[i])
    ensures i in cfg.responders && s.aps[i].ordinal == Rank(Started(cfg), i)
    ensures 1 <= s.aps[i].ordinal <= |cfg.responders|
    ensures OwnsStack(s.aps[i]) ==> s.aps[i].esp == cfg.stacks[s.aps[i].ordinal - 1]
  {
    assert ApOk(cfg, i, s.aps[i], s.g.signalled);
    RankBounds(cfg, i);
  }

  /** In every interleaving no two APs hold the same ordinal. */
  lemma OrdinalsDistinct(cfg: Config, s: State)
    requires WellFormed(cfg) && cfg.timely && Reachable(cfg, s)
    ensures DistinctOrdinals(s)
  {
    ReachableInv(cfg, s);
    forall i, j | 0 <= i < j < |s.aps| && HasOrdinal(s.aps[i]) && HasOrdinal(s.aps[j])
      ensures s.aps[i].ordinal < s.aps[j].ordinal
    {
      OrdinalFacts(cfg, s, i);
      OrdinalFacts(cfg, s, j);
      RankMonotone(Started(cfg), i, j);
    }
  }

  /** In every interleaving the APs past stage 2 run on disjoint stacks of the loader heap. */
  lemma StacksDisjoint(cfg: Config, s: State, lo: nat, hi: nat)
    requires WellFormed(cfg) && cfg.timely && Reachable(cfg, s)
    requires DisjointStacks(cfg.stacks, |cfg.responders|, lo, hi)
    ensures forall i :: 0 <= i < |s.aps| && OwnsStack(s.aps[i]) ==> lo + STACK_SIZE <= s.aps[i].esp <= hi
    ensures forall i, j :: 0 <= i < j < |s.aps| && OwnsStack(s.aps[i]) && OwnsStack(s.aps[j]) ==>
              s.aps[i].esp + STACK_SIZE <= s.aps[j].esp || s.aps[j].esp + STACK_SIZE <= s.aps[i].esp
  {
    ReachableInv(cfg, s);
    OrdinalsDistinct(cfg, s);
    forall i | 0 <= i < |s.aps| && OwnsStack(s.aps[i])
      ensures 1 <= s.aps[i].ordinal <= |cfg.responders|
      ensures s.aps[i].esp == cfg.stacks[s.aps[i].ordinal - 1]
    {
      OrdinalFacts(cfg, s, i);
    }
  }

  /** Everything a released AP is going to read has been published. */
  ghost predicate Published(cfg: Config, s: State) {
    && s.g.signalled && s.g.init32 && s.g.userFunc && s.g.userData
    && s.g.init64 == cfg.init64 && s.g.paramEntry == cfg.entryPoint && s.g.paramStartup == cfg.startup
    && s.g.apsCounter == |Started(cfg)|
    && s.g.processors == (if cfg.postOs then cfg.processorsBefore else |Started(cfg)| + 1)
    && |s.presence| == cfg.slots
    && (forall id :: 0 <= id < cfg.slots ==>
          s.presence[id] == if id in Started(cfg) then Rank(Started(cfg), id) else 0)
  }

  lemma PublishedInv(cfg: Config, s: State)
    requires WellFormed(cfg) && ApsInv(cfg, s) && PresenceInv(cfg, s) && BspInv(cfg, s)
    requires s.g.signalled && Started(cfg) != {}
    ensures Published(cfg, s)
  {
    RankIsByte(cfg, cfg.slots - 1);
    RankTotal(Started(cfg), cfg.slots - 1);
  }

  /** An AP leaves the spin loop only when enumeration is over and all it reads is
      published, and it never goes through an unset pointer. */
  lemma ReleaseSafety(cfg: Config, s: State)
    requires WellFormed(cfg) && cfg.timely && Reachable(cfg, s)
    ensures forall id :: 0 <= id < |s.aps| && PastSpin(s.aps[id]) ==> Published(cfg, s) && !s.aps[id].Faulted?
  {
    ReachableInv(cfg, s);
    forall id | 0 <= id < |s.aps| && PastSpin(s.aps[id])
      ensures Published(cfg, s) && !s.aps[id].Faulted?
    {
      assert ApOk(cfg, id, s.aps[id], s.g.signalled);
      PublishedInv(cfg, s);
    }
  }

  /** The ready counter stays within the AP count, and the BSP passes its wait only when
      every enumerated AP is in C on the stack of its own rank. */
  lemma ReadySafety(cfg: Config, s: State)
    requires WellFormed(cfg) && cfg.timely && Reachable(cfg, s)
    ensures s.g.ready <= s.g.apsCounter
    ensures s.bsp.LaunchBsp? || s.bsp.Done? ==>
              forall id :: id in Started(cfg) ==>
                && id < |s.aps| && (s.aps[id].Counted? || s.aps[id].Running?)
                && 1 <= Rank(Started(cfg), id) <= |cfg.stacks|
                && s.aps[id].esp == cfg.stacks[Rank(Started(cfg), id) - 1]
  {
    hide Reachable, Run, Rank;
    ReachableInv(cfg, s);
    ReadyWithin(cfg, s);
    if s.bsp.LaunchBsp? || s.bsp.Done? {
      forall id | id in Started(cfg)
        ensures id < |s.aps| && (s.aps[id].Counted? || s.aps[id].Running?)
        ensures 1 <= Rank(Started(cfg), id) <= |cfg.stacks|
        ensures s.aps[id].esp == cfg.stacks[Rank(Started(cfg), id) - 1]
      {
        AllReady(cfg, s, id);
        OrdinalFacts(cfg, s, id);
      }
    }
  }

  lemma ReadyWithin(cfg: Config, s: State)
    requires Inv(cfg, s)
    ensures s.g.ready <= s.g.apsCounter
  {
    hide ApsInv, PresenceInv, LaunchInv, Rank;
    ReadyBound(cfg, s);
    if !s.g.signalled {
      NoneReady(cfg, s);
    }
  }

  /** Once the BSP is past its wait, every started AP has counted itself. */
  lemma AllReady(cfg: Config, s: State, id: nat)
    requires Inv(cfg, s) && (s.bsp.LaunchBsp? || s.bsp.Done?) && id in Started(cfg)
    ensures id < |s.aps| && (s.aps[id].Counted? || s.aps[id].Running?)
  {
    hide PresenceInv, LaunchInv, OrdinalInv, Rank;
    ReadyBound(cfg, s);
    assert ReadyWeight(s.aps[id]) == 1;
  }

  lemma NoneReady(cfg: Config, s: State)
    requires OrdinalInv(cfg, s) && ReadyInv(cfg, s) && !s.g.signalled
    ensures s.g.ready == 0
  {
    forall id | 0 <= id < |s.aps| ensures ReadyWeight(s.aps[id]) == 0 {
      assert ApOk(cfg, id, s.aps[id], s.g.signalled);
    }
    SumOfZeros(s.aps);
  }

  /** Every processor has called the entry point. */
  ghost predicate Final(cfg: Config, s: State) {
    s.bsp.Done? && forall id :: id in Started(cfg) && id < |s.aps| ==> s.aps[id].Running?
  }

  function CpuIds(launches: seq<Launch>): set<nat> {
    set i | 0 <= i < |launches| :: launches[i].cpuId
  }

  function ApicIds(launches: seq<Launch>): set<nat> {
    set i | 0 <= i < |launches| :: launches[i].apicId
  }

  lemma {:induction false} DistinctCount(launches: seq<Launch>)
    requires forall i, j :: 0 <= i < j < |launches| ==> launches[i].apicId != launches[j].apicId
    ensures |ApicIds(launches)| == |launches|
  {
    if launches != [] {
      var n := |launches| - 1;
      DistinctCount(launches[..n]);
      assert ApicIds(launches) == ApicIds(launches[..n]) + {launches[n].apicId};
    }
  }

  /** A record of all the expected calls names each processor once. */
  lemma RecordComplete(cfg: Config, launches: seq<Launch>, aps: seq<ApPc>)
    requires WellFormed(cfg) && |aps| == cfg.slots && RecordInv(cfg, launches, aps, true)
    requires forall id :: 0 <= id < |aps| ==> (id in Started(cfg) <==> aps[id].Running?)
    ensures |launches| == |Started(cfg)| + 1
    ensures ApicIds(launches) == Started(cfg) + {0}
  {
    hide RecordInv;
    forall id: nat ensures id in ApicIds(launches) <==> id in Started(cfg) + {0} {
      RecordNames(cfg, launches, aps, id);
    }
    assert ApicIds(launches) == Started(cfg) + {0};
    RecordDistinct(cfg, launches, aps);
    DistinctCount(launches);
  }

  lemma RecordNames(cfg: Config, launches: seq<Launch>, aps: seq<ApPc>, id: nat)
    requires WellFormed(cfg) && |aps| == cfg.slots && RecordInv(cfg, launches, aps, true)
    requires forall id :: 0 <= id < |aps| ==> (id in Started(cfg) <==> aps[id].Running?)
    ensures id in ApicIds(launches) <==> id in Started(cfg) + {0}
  {
    if id in ApicIds(launches) {
      var i :| 0 <= i < |launches| && launches[i].apicId == id;
      assert HasLaunched(aps, true, launches[i].apicId);
    }
    if id in Started(cfg) + {0} {
      assert HasLaunched(aps, true, id);
      var i :| 0 <= i < |launches| && launches[i] == Expected(cfg, id);
    }
  }

  lemma RecordDistinct(cfg: Config, launches: seq<Launch>, aps: seq<ApPc>)
    requires RecordInv(cfg, launches, aps, true)
    ensures forall i, j :: 0 <= i < j < |launches| ==> launches[i].apicId != launches[j].apicId
    ensures forall i :: 0 <= i < |launches| ==> launches[i] == Expected(cfg, launches[i].apicId)
  {
  }

  /** In a complete run the entry point is called exactly once on each processor, with the
      published arguments; the cpu ids are exactly 0..n for n started APs, the BSP having 0
      and the APs theirs in the order of their APIC ids. */
  lemma CompleteRun(cfg: Config, s: State)
    requires WellFormed(cfg) && cfg.timely && Reachable(cfg, s) && Final(cfg, s)
    ensures |s.launches| == |Started(cfg)| + 1
    ensures ApicIds(s.launches) == Started(cfg) + {0}
    ensures forall k: nat :: k in CpuIds(s.launches) <==> k <= |Started(cfg)|
    ensures forall call :: call in s.launches ==>
              && call.init64 == cfg.init64 && call.entryPoint == cfg.entryPoint && call.startup == cfg.startup
              && (call.apicId == 0 ==> call.cpuId == 0)
    ensures forall a, b :: a in s.launches && b in s.launches && a.apicId < b.apicId ==> a.cpuId < b.cpuId
  {
    hide Reachable, Run, Rank;
    ReachableInv(cfg, s);
    FinalRunning(cfg, s);
    hide Inv, Final, RecordInv, WellFormed;
    RecordComplete(cfg, s.launches, s.aps);
    RecordDistinct(cfg, s.launches, s.aps);
    CpuIdsAreRanks(cfg, s.launches);
    forall a, b | a in s.launches && b in s.launches && a.apicId < b.apicId
      ensures a.cpuId < b.cpuId
    {
      assert b.apicId in ApicIds(s.launches);
      RankMonotone(Started(cfg), a.apicId, b.apicId);
    }
  }

  lemma FinalRunning(cfg: Config, s: State)
    requires Inv(cfg, s) && Final(cfg, s)
    ensures |s.aps| == cfg.slots && RecordInv(cfg, s.launches, s.aps, true)
    ensures forall id :: 0 <= id < |s.aps| ==> (id in Started(cfg) <==> s.aps[id].Running?)
  {
    hide BspInv, PresenceInv, RecordInv, ReadyInv, OrdinalInv;
  }

  lemma CpuIdsAreRanks(cfg: Config, launches: seq<Launch>)
    requires WellFormed(cfg)
    requires forall i :: 0 <= i < |launches| ==> launches[i] == Expected(cfg, launches[i].apicId)
    requires ApicIds(launches) == Started(cfg) + {0}
    ensures forall k: nat :: k in CpuIds(launches) <==> k <= |Started(cfg)|
  {
    var ids := Started(cfg);
    RankTotal(ids, cfg.slots - 1);
    forall k: nat | k <= |ids| ensures k in CpuIds(launches) {
      var id := 0;
      if k > 0 {
        id := RankOnto(ids, cfg.slots - 1, k);
      }
      assert id in ApicIds(launches);
      var i :| 0 <= i < |launches| && launches[i].apicId == id;
    }
    forall i | 0 <= i < |launches| ensures launches[i].cpuId <= |ids| {
      var id := launches[i].apicId;
      assert id in ApicIds(launches);
      if id != 0 {
        RankBounds(cfg, id);
      }
    }
  }

  /** After a complete pre-OS run the processor count handed to the image equals the number
      of processors that entered it, unless start-up was refused for want of a low page:
      then startap_main takes the error value -1 for a count and reports 0 processors. */
  lemma ProcessorCount(cfg: Config, s: State)
    requires WellFormed(cfg) && cfg.timely && !cfg.postOs && Reachable(cfg, s) && Final(cfg, s)
    ensures s.g.processors == |s.launches| <==> !(cfg.hasInit32 && cfg.lowPage == 0)
    ensures cfg.hasInit32 && cfg.lowPage == 0 ==> s.g.processors == 0 && |s.launches| == 1
  {
    hide Inv, Reachable, Rank, Run;
    assert |s.launches| == |Started(cfg)| + 1 by {
      CompleteRun(cfg, s);
    }
    assert s.g.processors == (Reported(cfg) + 1) % TWO_32 by {
      ReachableInv(cfg, s);
      ReportedCount(cfg, s);
    }
    RankIsByte(cfg, cfg.slots - 1);
    RankTotal(Started(cfg), cfg.slots - 1);
  }

  lemma ReportedCount(cfg: Config, s: State)
    requires Inv(cfg, s) && s.bsp.Done? && !cfg.postOs
    ensures s.g.processors == (Reported(cfg) + 1) % TWO_32
  {
  }
}
