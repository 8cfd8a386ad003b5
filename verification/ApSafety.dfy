/** What every run of the bring-up protocol keeps, and what follows from it. */
module ApSafety {
  import opened Words
  import opened ApProtocol
  import opened Ranks

  /** Position of the BSP in its program. */
  function Phase(pc: BspPc): nat {
    match pc
    case Entry => 0
    case ClearEnvironment => 1
    case PublishInit32 => 2
    case SendSipi => 3
    case AwaitTimeout => 4
    case Enumerate(_, _) => 5
    case StoreCount(_) => 6
    case PublishInit64(_) => 7
    case StoreProcessors(_) => 8
    case StoreParams(_) => 9
    case StoreFunction => 10
    case StoreData => 11
    case Signal => 12
    case AwaitReady => 13
    case LaunchBsp => 14
    case Done => 15
  }

  /** The number of APs that bsp_enumerate_aps finds. */
  function Found(cfg: Config): nat
    requires 1 <= cfg.slots
  {
    Rank(Started(cfg), cfg.slots - 1)
  }

  /** The value startap_main keeps in `application_procesors`. */
  function Reported(cfg: Config): nat
    requires 1 <= cfg.slots
  {
    if cfg.hasInit32 && cfg.lowPage == 0 then TWO_32 - 1 else Found(cfg)
  }

  predicate PastSpin(pc: ApPc) { Marked(pc) && !pc.Spinning? }

  function ReadyWeight(pc: ApPc): nat { if pc.Counted? || pc.Running? then 1 else 0 }

  function PresentWeight(pc: ApPc): nat { if pc.Halted? then 0 else 1 }

  // ----- the invariant, concern by concern

  /** Only the started APs ever move, and they are all marked before enumeration. */
  ghost predicate ApsInv(cfg: Config, s: State) {
    && |s.aps| == |s.presence| == cfg.slots
    && (forall id :: 0 <= id < cfg.slots && id !in Started(cfg) ==> s.aps[id] == Halted)
    && (forall id :: 0 <= id < cfg.slots && id in Started(cfg) ==>
          && (Phase(s.bsp) <= 3 ==> s.aps[id] == Halted)
          && (4 <= Phase(s.bsp) ==> s.aps[id] != Halted)
          && (5 <= Phase(s.bsp) ==> Marked(s.aps[id])))
    && (1 <= Phase(s.bsp) <= 6 ==> cfg.hasInit32 && cfg.lowPage != 0)
  }

  /** Slots the enumeration has passed hold ranks; the others hold plain marks. */
  ghost predicate PresenceInv(cfg: Config, s: State)
    requires |s.aps| == |s.presence|
  {
    forall id :: 0 <= id < |s.presence| ==>
      s.presence[id] ==
        if id !in Started(cfg) || !Marked(s.aps[id]) then 0
        else if Phase(s.bsp) <= 4 || (s.bsp.Enumerate? && s.bsp.next <= id) then 1
        else Rank(Started(cfg), id)
  }

  /** Local variables and globals of the BSP. */
  ghost predicate BspInv(cfg: Config, s: State)
    requires 1 <= cfg.slots
  {
    && (s.bsp.Enumerate? ==> 1 <= s.bsp.next <= cfg.slots && s.bsp.found == Rank(Started(cfg), s.bsp.next - 1))
    && (s.bsp.StoreCount? ==> s.bsp.found == Found(cfg))
    && (s.bsp.PublishInit64? ==> s.bsp.aps == Reported(cfg))
    && (s.bsp.StoreProcessors? ==> s.bsp.aps == Reported(cfg))
    && (s.bsp.StoreParams? ==> s.bsp.aps == Reported(cfg))
    && (10 <= Phase(s.bsp) <= 13 ==> Reported(cfg) > 0)
    && s.g.apsCounter == (if 7 <= Phase(s.bsp) then Found(cfg) else 0)
    && s.g.init32 == (3 <= Phase(s.bsp) && cfg.hasInit32 && cfg.lowPage != 0)
    && (8 <= Phase(s.bsp) ==> s.g.init64 == cfg.init64)
    && s.g.processors == (if 9 <= Phase(s.bsp) && !cfg.postOs then (Reported(cfg) + 1) % TWO_32
                        else cfg.processorsBefore)
    && (10 <= Phase(s.bsp) ==> s.g.paramEntry == cfg.entryPoint && s.g.paramStartup == cfg.startup)
    && s.g.userFunc == (11 <= Phase(s.bsp) && Reported(cfg) > 0)
    && s.g.userData == (12 <= Phase(s.bsp) && Reported(cfg) > 0)
    && s.g.signalled == (13 <= Phase(s.bsp) && Reported(cfg) > 0)
  }

  /** An AP past the spin loop was signalled, and has its own rank and that rank's stack. */
  ghost predicate ApOk(cfg: Config, id: nat, pc: ApPc, signalled: bool) {
    && (PastSpin(pc) ==> signalled)
    && !pc.Faulted?
    && (pc.LoadStack? || pc.OnStack? || pc.Counted? || pc.Running? ==> pc.ordinal == Rank(Started(cfg), id))
    && (pc.OnStack? || pc.Counted? || pc.Running? ==>
          1 <= pc.ordinal <= |cfg.stacks| && pc.esp == cfg.stacks[pc.ordinal - 1])
  }

  ghost predicate OrdinalInv(cfg: Config, s: State) {
    forall id :: 0 <= id < |s.aps| ==> ApOk(cfg, id, s.aps[id], s.g.signalled)
  }

  /** The ready counter counts the APs that have entered C. */
  ghost predicate ReadyInv(cfg: Config, s: State) {
    && s.g.ready == Sum(ReadyWeight, s.aps)
    && (14 <= Phase(s.bsp) ==> s.g.ready == s.g.apsCounter)
  }

  /** The call the protocol is to make on processor `id`. */
  function Expected(cfg: Config, id: nat): Launch {
    Launch(id, if id == 0 then 0 else Rank(Started(cfg), id), cfg.init64, cfg.entryPoint, cfg.startup)
  }

  predicate HasLaunched(aps: seq<ApPc>, bspDone: bool, id: nat) {
    if id == 0 then bspDone else id < |aps| && aps[id].Running?
  }

  /** The record holds the expected call of every processor that has made it, once. */
  ghost predicate RecordInv(cfg: Config, launches: seq<Launch>, aps: seq<ApPc>, bspDone: bool) {
    && (forall i :: 0 <= i < |launches| ==>
          && launches[i] == Expected(cfg, launches[i].apicId)
          && HasLaunched(aps, bspDone, launches[i].apicId))
    && (forall i, j :: 0 <= i < j < |launches| ==> launches[i].apicId != launches[j].apicId)
    && (forall id :: 0 <= id < |aps| && HasLaunched(aps, bspDone, id) ==> Expected(cfg, id) in launches)
  }

  ghost predicate LaunchInv(cfg: Config, s: State) {
    RecordInv(cfg, s.launches, s.aps, s.bsp.Done?)
  }

  ghost predicate Inv(cfg: Config, s: State) {
    && WellFormed(cfg)
    && ApsInv(cfg, s)
    && PresenceInv(cfg, s)
    && BspInv(cfg, s)
    && OrdinalInv(cfg, s)
    && ReadyInv(cfg, s)
    && LaunchInv(cfg, s)
  }

  // ----- preservation

  lemma {:induction false} SumOfZeros(items: seq<ApPc>)
    requires forall i :: 0 <= i < |items| ==> ReadyWeight(items[i]) == 0
    ensures Sum(ReadyWeight, items) == 0
  {
    if items != [] {
      SumOfZeros(items[..|items| - 1]);
    }
  }

  lemma InitInv(cfg: Config)
    requires WellFormed(cfg)
    ensures Inv(cfg, Init(cfg))
  {
    SumOfZeros(Init(cfg).aps);
  }

  /** The 8-bit count does not wrap. */
  lemma RankIsByte(cfg: Config, i: nat)
    requires WellFormed(cfg)
    ensures Rank(Started(cfg), i) < 256
  {
    RankCapped(Started(cfg), i, 255);
  }

  /** Ordinals of started APs are usable indices into i32_esp. */
  lemma RankBounds(cfg: Config, id: nat)
    requires WellFormed(cfg) && id in Started(cfg)
    ensures 1 <= Rank(Started(cfg), id) <= Found(cfg) <= |cfg.stacks|
    ensures Found(cfg) == |Started(cfg)|
  {
    RankMonotone(Started(cfg), 0, id);
    RankMonotone(Started(cfg), id, cfg.slots - 1);
    RankTotal(Started(cfg), cfg.slots - 1);
  }

  /** The counter never exceeds the number of APs; when it is equal, all have entered C. */
  lemma ReadyBound(cfg: Config, s: State)
    requires WellFormed(cfg) && ApsInv(cfg, s)
    ensures Sum(ReadyWeight, s.aps) <= Found(cfg)
    ensures Sum(ReadyWeight, s.aps) == Found(cfg) ==>
              forall id :: 0 <= id < |s.aps| && id in Started(cfg) ==> ReadyWeight(s.aps[id]) == 1
  {
    hide Rank, Sum, ReadyWeight;
    var woken := Everyone(cfg);
    EveryonePresent(cfg);
    ReadyOnlyStarted(cfg, s);
    SumPairwise(s.aps, woken);
    forall id | 0 <= id < |s.aps| && id in Started(cfg) && ReadyWeight(s.aps[id]) == 0
      ensures Sum(ReadyWeight, s.aps) < Found(cfg)
    {
      assert ReadyWeight(Running(0, 0)) == 1 by { RunningIsReady(); }
      SumUpdate(ReadyWeight, s.aps, id, Running(0, 0));
      SumPairwise(s.aps[id := Running(0, 0)], woken);
    }
    forall id | 0 <= id < |s.aps| ensures ReadyWeight(s.aps[id]) <= 1 {
    }
  }

  /** All started APs on their way, and nobody else. */
  function Everyone(cfg: Config): (r: seq<ApPc>)
    ensures |r| == cfg.slots
    ensures forall i :: 0 <= i < cfg.slots ==> PresentWeight(r[i]) == if i in Started(cfg) then 1 else 0
  {
    seq(cfg.slots, i => if i in Started(cfg) then Spinning else Halted)
  }

  lemma EveryonePresent(cfg: Config)
    requires WellFormed(cfg)
    ensures Sum(PresentWeight, Everyone(cfg)) == Found(cfg)
  {
    hide Everyone, PresentWeight, Sum, Rank;
    SumIsRank(PresentWeight, Everyone(cfg), Started(cfg));
  }

  lemma ReadyOnlyStarted(cfg: Config, s: State)
    requires ApsInv(cfg, s)
    ensures forall i :: 0 <= i < cfg.slots ==> ReadyWeight(s.aps[i]) <= if i in Started(cfg) then 1 else 0
  {
  }

  lemma RunningIsReady()
    ensures ReadyWeight(Running(0, 0)) == 1
  {
  }

  lemma {:induction false} SumPairwise(items: seq<ApPc>, present: seq<ApPc>)
    requires |items| == |present|
    requires forall i :: 0 <= i < |items| ==> ReadyWeight(items[i]) <= PresentWeight(present[i])
    ensures Sum(ReadyWeight, items) <= Sum(PresentWeight, present)
  {
    if items != [] {
      SumPairwise(items[..|items| - 1], present[..|items| - 1]);
    }
  }

  lemma EnumeratePresence(cfg: Config, s: State)
    requires WellFormed(cfg) && ApsInv(cfg, s) && PresenceInv(cfg, s) && BspInv(cfg, s)
    requires s.bsp.Enumerate? && s.bsp.next < cfg.slots
    ensures PresenceInv(cfg, BspStep(cfg, s)) && BspInv(cfg, BspStep(cfg, s))
  {
    var next := s.bsp.next;
    var s' := BspStep(cfg, s);
    RankIsByte(cfg, next);
    forall id | 0 <= id < |s'.presence|
      ensures s'.presence[id] == if id !in Started(cfg) then 0
                                 else if next + 1 <= id then 1 else Rank(Started(cfg), id)
    {
      if id != next {
        assert s'.presence[id] == s.presence[id];
      }
    }
  }

  lemma EnumerateStep(cfg: Config, s: State)
    requires Inv(cfg, s) && s.bsp.Enumerate?
    ensures Inv(cfg, BspStep(cfg, s))
  {
    hide Rank;
    var s' := BspStep(cfg, s);
    if s.bsp.next < cfg.slots {
      EnumeratePresence(cfg, s);
    } else {
      EnumerateEnds(cfg, s);
    }
    assert s'.aps == s.aps && s'.launches == s.launches && s'.g == s.g;
    QuietLaunch(cfg, s, s');
  }

  lemma EnumerateEnds(cfg: Config, s: State)
    requires WellFormed(cfg) && ApsInv(cfg, s) && PresenceInv(cfg, s) && BspInv(cfg, s)
    requires s.bsp.Enumerate? && s.bsp.next == cfg.slots
    ensures PresenceInv(cfg, BspStep(cfg, s)) && BspInv(cfg, BspStep(cfg, s))
  {
    hide Rank;
  }

  lemma SipiAps(cfg: Config, s: State)
    requires WellFormed(cfg) && ApsInv(cfg, s) && PresenceInv(cfg, s) && s.bsp.SendSipi?
    ensures ApsInv(cfg, BspStep(cfg, s)) && PresenceInv(cfg, BspStep(cfg, s))
    ensures forall id :: 0 <= id < |s.aps| ==> s.aps[id].Halted?
    ensures forall id :: 0 <= id < |s.aps| ==> BspStep(cfg, s).aps[id].Halted? || BspStep(cfg, s).aps[id].Woken?
  {
  }

  lemma SipiStep(cfg: Config, s: State)
    requires Inv(cfg, s) && s.bsp.SendSipi?
    ensures Inv(cfg, BspStep(cfg, s))
  {
    var s' := BspStep(cfg, s);
    SipiAps(cfg, s);
    SumOfZeros(s.aps);
    SumOfZeros(s'.aps);
    BspStepGlobals(cfg, s);
    assert OrdinalInv(cfg, s');
    RecordKept(cfg, s.launches, s.aps, false, s'.aps, false);
  }

  lemma LaunchStep(cfg: Config, s: State)
    requires Inv(cfg, s) && s.bsp.LaunchBsp?
    ensures Inv(cfg, BspStep(cfg, s))
  {
    hide Rank, Sum, RecordInv;
    var s' := BspStep(cfg, s);
    assert s'.aps == s.aps && s'.presence == s.presence && s'.g == s.g;
    LaunchGlobals(cfg, s);
    RecordGrows(cfg, s.launches, s.aps, false, s.aps, true, 0);
    assert LaunchInv(cfg, s') by { assert Call(s.g, 0, 0) == Expected(cfg, 0); }
  }

  lemma LaunchGlobals(cfg: Config, s: State)
    requires WellFormed(cfg) && ApsInv(cfg, s) && PresenceInv(cfg, s) && BspInv(cfg, s) && ReadyInv(cfg, s) && s.bsp.LaunchBsp?
    ensures var s' := BspStep(cfg, s); ApsInv(cfg, s') && PresenceInv(cfg, s') && BspInv(cfg, s') && ReadyInv(cfg, s')
    ensures Call(s.g, 0, 0) == Expected(cfg, 0)
  {
    hide Rank, Sum;
  }

  // The record of calls, apart from the machine

  lemma RecordKept(cfg: Config, launches: seq<Launch>, aps: seq<ApPc>, done: bool, aps': seq<ApPc>, done': bool)
    requires RecordInv(cfg, launches, aps, done) && |aps| == |aps'|
    requires forall id: nat :: HasLaunched(aps', done', id) == HasLaunched(aps, done, id)
    ensures RecordInv(cfg, launches, aps', done')
  {
  }

  lemma RecordGrows(cfg: Config, launches: seq<Launch>, aps: seq<ApPc>, done: bool, aps': seq<ApPc>, done': bool, id: nat)
    requires RecordInv(cfg, launches, aps, done) && |aps| == |aps'|
    requires !HasLaunched(aps, done, id)
    requires forall other: nat :: HasLaunched(aps', done', other) == (other == id || HasLaunched(aps, done, other))
    ensures RecordInv(cfg, launches + [Expected(cfg, id)], aps', done')
  {
    var launches' := launches + [Expected(cfg, id)];
    assert launches'[|launches|] == Expected(cfg, id);
    assert forall call :: call in launches ==> call in launches';
  }

  lemma BspStepGlobals(cfg: Config, s: State)
    requires WellFormed(cfg) && ApsInv(cfg, s) && BspInv(cfg, s) && !s.bsp.Enumerate?
    ensures BspInv(cfg, BspStep(cfg, s))
  {
    if s.bsp.Entry? {
      RankTotal(Started(cfg), cfg.slots - 1);
    }
  }

  lemma BspStepReady(cfg: Config, s: State)
    requires WellFormed(cfg) && ApsInv(cfg, s) && BspInv(cfg, s) && ReadyInv(cfg, s)
    requires !s.bsp.Enumerate? && !s.bsp.SendSipi?
    ensures ReadyInv(cfg, BspStep(cfg, s))
  {
    if s.bsp.ClearEnvironment? {
      SumOfZeros(s.aps);
    } else if s.bsp.StoreParams? {
      ReadyBound(cfg, s);
    }
  }

  /** The steps of the BSP that touch neither the APs nor their slots. */
  predicate Quiet(pc: BspPc) { !pc.Enumerate? && !pc.SendSipi? && !pc.LaunchBsp? }

  lemma QuietAps(cfg: Config, s: State)
    requires WellFormed(cfg) && ApsInv(cfg, s) && cfg.timely && Quiet(s.bsp)
    ensures ApsInv(cfg, BspStep(cfg, s))
  {
  }

  lemma QuietPresence(cfg: Config, s: State)
    requires WellFormed(cfg) && ApsInv(cfg, s) && PresenceInv(cfg, s) && cfg.timely && Quiet(s.bsp)
    ensures |s.aps| == |s.presence| && PresenceInv(cfg, BspStep(cfg, s))
  {
  }

  lemma QuietOrdinal(cfg: Config, s: State)
    requires WellFormed(cfg) && ApsInv(cfg, s) && BspInv(cfg, s) && OrdinalInv(cfg, s) && Quiet(s.bsp)
    ensures OrdinalInv(cfg, BspStep(cfg, s))
  {
    var s' := BspStep(cfg, s);
    assert s'.aps == s.aps;
    if s.bsp.ClearEnvironment? {
      assert forall id :: 0 <= id < |s.aps| ==> s.aps[id] == Halted;
    } else {
      assert s.g.signalled ==> s'.g.signalled;
    }
  }

  lemma QuietLaunch(cfg: Config, s: State, s': State)
    requires LaunchInv(cfg, s)
    requires s'.aps == s.aps && s'.launches == s.launches && s'.bsp.Done? == s.bsp.Done?
    ensures LaunchInv(cfg, s')
  {
  }

  lemma QuietStep(cfg: Config, s: State)
    requires Inv(cfg, s) && cfg.timely && Quiet(s.bsp)
    ensures Inv(cfg, BspStep(cfg, s))
  {
    QuietAps(cfg, s);
    QuietPresence(cfg, s);
    BspStepGlobals(cfg, s);
    QuietOrdinal(cfg, s);
    BspStepReady(cfg, s);
    QuietLaunch(cfg, s, BspStep(cfg, s));
  }

  lemma BspStepInv(cfg: Config, s: State)
    requires Inv(cfg, s) && cfg.timely
    ensures Inv(cfg, BspStep(cfg, s))
  {
    if s.bsp.Enumerate? {
      EnumerateStep(cfg, s);
    } else if s.bsp.SendSipi? {
      SipiStep(cfg, s);
    } else if s.bsp.LaunchBsp? {
      LaunchStep(cfg, s);
    } else {
      QuietStep(cfg, s);
    }
  }

  lemma ApStepPresence(cfg: Config, s: State, id: nat)
    requires WellFormed(cfg) && ApsInv(cfg, s) && PresenceInv(cfg, s) && BspInv(cfg, s)
    requires id < cfg.slots
    ensures ApsInv(cfg, ApStep(cfg, s, id)) && PresenceInv(cfg, ApStep(cfg, s, id))
  {
  }

  lemma ApStepGlobals(cfg: Config, s: State, id: nat)
    requires WellFormed(cfg) && |s.aps| == |s.presence| == cfg.slots && BspInv(cfg, s) && id < cfg.slots
    ensures BspInv(cfg, ApStep(cfg, s, id))
  {
  }

  lemma ApStepOrdinal(cfg: Config, s: State, id: nat)
    requires WellFormed(cfg) && ApsInv(cfg, s) && PresenceInv(cfg, s) && BspInv(cfg, s) && OrdinalInv(cfg, s)
    requires id < cfg.slots
    ensures OrdinalInv(cfg, ApStep(cfg, s, id))
  {
    var s' := ApStep(cfg, s, id);
    if id in Started(cfg) {
      RankBounds(cfg, id);
    }
    assert ApOk(cfg, id, s.aps[id], s.g.signalled);
    assert ApOk(cfg, id, s'.aps[id], s'.g.signalled);
    assert forall other :: 0 <= other < cfg.slots && other != id ==> s'.aps[other] == s.aps[other];
  }

  /** Only the step off OnStack changes whether an AP counts as ready. */
  lemma WeightKept(cfg: Config, s: State, id: nat)
    requires 1 <= cfg.slots && BspInv(cfg, s) && OrdinalInv(cfg, s) && id < |s.aps| == |s.presence|
    ensures ReadyWeight(ApNext(cfg, s, id)) == if s.aps[id].OnStack? then 1 else ReadyWeight(s.aps[id])
  {
    assert ApOk(cfg, id, s.aps[id], s.g.signalled);
  }

  lemma CounterIsFound(cfg: Config, s: State)
    requires WellFormed(cfg) && ApsInv(cfg, s) && BspInv(cfg, s)
    ensures |s.aps| == |s.presence| == cfg.slots
    ensures 7 <= Phase(s.bsp) ==> s.g.apsCounter == Found(cfg)
  {
  }

  lemma ApStepReady(cfg: Config, s: State, id: nat)
    requires WellFormed(cfg) && ApsInv(cfg, s) && BspInv(cfg, s) && OrdinalInv(cfg, s) && ReadyInv(cfg, s)
    requires id < cfg.slots && ApsInv(cfg, ApStep(cfg, s, id))
    ensures ReadyInv(cfg, ApStep(cfg, s, id))
  {
    WeightKept(cfg, s, id);
    CounterIsFound(cfg, s);
    hide ApNext, OrdinalInv, BspInv, ApsInv, Rank, Sum, ReadyWeight, Phase, WellFormed, Found;
    var s' := ApStep(cfg, s, id);
    assert s'.bsp == s.bsp && s'.g.apsCounter == s.g.apsCounter && s'.aps == s.aps[id := ApNext(cfg, s, id)];
    SumUpdate(ReadyWeight, s.aps, id, s'.aps[id]);
    if s.aps[id].OnStack? {
      ReadyBound(cfg, s);
      ReadyBound(cfg, s');
      assert s.g.ready + 1 == Sum(ReadyWeight, s'.aps) <= Found(cfg) < 256 by { FoundIsByte(cfg); }
      assert s'.g.ready == s.g.ready + 1 by { Unwrapped(s.g.ready + 1); }
    }
  }

  lemma FoundIsByte(cfg: Config)
    requires WellFormed(cfg)
    ensures Found(cfg) < 256
  {
    RankIsByte(cfg, cfg.slots - 1);
  }

  lemma ApStepLaunch(cfg: Config, s: State, id: nat)
    requires WellFormed(cfg) && ApsInv(cfg, s) && BspInv(cfg, s) && OrdinalInv(cfg, s) && LaunchInv(cfg, s)
    requires id < cfg.slots
    ensures LaunchInv(cfg, ApStep(cfg, s, id))
  {
    var s' := ApStep(cfg, s, id);
    assert ApOk(cfg, id, s.aps[id], s.g.signalled);
    assert forall other :: 0 <= other < cfg.slots && other != id ==> s'.aps[other] == s.aps[other];
    if s.aps[id].Counted? {
      assert id in Started(cfg);
      RecordGrows(cfg, s.launches, s.aps, s.bsp.Done?, s'.aps, s'.bsp.Done?, id);
    } else {
      RecordKept(cfg, s.launches, s.aps, s.bsp.Done?, s'.aps, s'.bsp.Done?);
    }
  }

  lemma ApStepInv(cfg: Config, s: State, id: nat)
    requires Inv(cfg, s) && id < cfg.slots
    ensures Inv(cfg, ApStep(cfg, s, id))
  {
    ApStepPresence(cfg, s, id);
    ApStepGlobals(cfg, s, id);
    ApStepOrdinal(cfg, s, id);
    ApStepReady(cfg, s, id);
    ApStepLaunch(cfg, s, id);
  }

  /** The invariant holds in every state of every run, whatever the interleaving. */
  lemma {:induction false} RunInv(cfg: Config, s: State, schedule: seq<Actor>)
    requires Inv(cfg, s) && cfg.timely
    ensures Inv(cfg, Run(cfg, s, schedule))
    decreases |schedule|
  {
    if schedule != [] {
      match schedule[0] {
        case Bsp => BspStepInv(cfg, s);
        case Ap(id) => if id < cfg.slots { ApStepInv(cfg, s, id); }
      }
      RunInv(cfg, Step(cfg, s, schedule[0]), schedule[1..]);
    }
  }
}
