/** Bring-up cannot get stuck: every fair schedule completes it. */
module ApLiveness {
  import opened ApProtocol
  import opened ApSafety
  import opened ApTheorems
  import opened Ranks

  function ApWeight(pc: ApPc): nat {
    match pc
    case Halted => 8
    case Woken => 7
    case Spinning => 6
    case ReadOrdinal => 5
    case LoadStack(_) => 4
    case OnStack(_, _) => 3
    case Counted(_, _) => 2
    case Running(_, _) => 1
    case Faulted => 0
  }

  function BspWeight(cfg: Config, pc: BspPc): nat {
    if pc.Enumerate? then 10 + (if pc.next <= cfg.slots then cfg.slots - pc.next else 0)
    else if Phase(pc) < 5 then 15 + cfg.slots - Phase(pc)
    else 15 - Phase(pc)
  }

  /** Steps that are still to come. */
  function Remaining(cfg: Config, s: State): nat {
    BspWeight(cfg, s.bsp) + Sum(ApWeight, s.aps)
  }

  lemma BspDescends(cfg: Config, s: State)
    requires WellFormed(cfg) && |s.presence| == cfg.slots
    requires forall id :: 0 <= id < |s.aps| && s.bsp.SendSipi? ==> s.aps[id].Halted?
    requires s.bsp.Enumerate? ==> 1 <= s.bsp.next <= cfg.slots
    requires BspNext(cfg, s) != s.bsp
    ensures Remaining(cfg, BspStep(cfg, s)) < Remaining(cfg, s)
  {
    assert BspWeight(cfg, BspNext(cfg, s)) < BspWeight(cfg, s.bsp);
    if s.bsp.SendSipi? {
      SumAtMost(ApWeight, Wake(cfg, s.aps), s.aps);
    }
  }

  lemma ApDescends(cfg: Config, s: State, id: nat)
    requires id < |s.aps| == |s.presence| && ApNext(cfg, s, id) != s.aps[id]
    ensures Remaining(cfg, ApStep(cfg, s, id)) < Remaining(cfg, s)
  {
    SumUpdate(ApWeight, s.aps, id, ApNext(cfg, s, id));
  }

  lemma WaitingChangesNothing(cfg: Config, s: State)
    requires s.bsp.Enumerate? ==> s.bsp.next <= |s.presence|
    ensures BspNext(cfg, s) == s.bsp ==> BspStep(cfg, s) == s
    ensures forall id :: 0 <= id < |s.aps| == |s.presence| && ApNext(cfg, s, id) == s.aps[id] ==> ApStep(cfg, s, id) == s
  {
    forall id | 0 <= id < |s.aps| == |s.presence| && ApNext(cfg, s, id) == s.aps[id]
      ensures ApStep(cfg, s, id) == s
    {
      assert s.aps[id := s.aps[id]] == s.aps;
    }
  }

  /** A step either waits, changing nothing, or brings the end closer. */
  lemma StepDescends(cfg: Config, s: State, actor: Actor)
    requires WellFormed(cfg) && ApsInv(cfg, s) && BspInv(cfg, s)
    ensures Step(cfg, s, actor) == s || Remaining(cfg, Step(cfg, s, actor)) < Remaining(cfg, s)
  {
    WaitingChangesNothing(cfg, s);
    match actor
    case Bsp =>
      if BspNext(cfg, s) != s.bsp {
        BspDescends(cfg, s);
      }
    case Ap(id) =>
      if id < |s.aps| && ApNext(cfg, s, id) != s.aps[id] {
        ApDescends(cfg, s, id);
      }
  }

  predicate Member(cfg: Config, actor: Actor) {
    actor.Bsp? || actor.id < cfg.slots
  }

  /** Until the run is complete some processor can do more than wait. */
  lemma SomeoneMoves(cfg: Config, s: State) returns (actor: Actor)
    requires Inv(cfg, s) && !Final(cfg, s)
    ensures Member(cfg, actor) && Step(cfg, s, actor) != s
  {
    if BspNext(cfg, s) != s.bsp {
      actor := Bsp;
    } else if s.bsp.AwaitTimeout? {
      var id :| id in cfg.responders && id < |s.aps| && !Marked(s.aps[id]);
      actor := Ap(id);
      assert ApNext(cfg, s, id) == ApStep(cfg, s, id).aps[id];
    } else if s.bsp.AwaitReady? {
      var id := Laggard(cfg, s);
      actor := Ap(id);
      assert ApNext(cfg, s, id) == ApStep(cfg, s, id).aps[id];
    } else {
      var id :| id in Started(cfg) && id < |s.aps| && !s.aps[id].Running?;
      ReadyBound(cfg, s);
      assert ReadyWeight(s.aps[id]) == 1;
      actor := Ap(id);
      assert ApOk(cfg, id, s.aps[id], s.g.signalled);
      assert ApNext(cfg, s, id) == ApStep(cfg, s, id).aps[id];
    }
  }

  lemma EveryoneCounted(cfg: Config, s: State)
    requires WellFormed(cfg) && ApsInv(cfg, s) && ReadyInv(cfg, s)
    requires forall i :: 0 <= i < |s.aps| && i in Started(cfg) ==> ReadyWeight(s.aps[i]) == 1
    ensures s.g.ready == Found(cfg)
  {
    hide Rank, Sum;
    SumIsRank(ReadyWeight, s.aps, Started(cfg));
  }

  /** While the BSP waits for the ready counter, some AP is still on its way to C. */
  lemma Laggard(cfg: Config, s: State) returns (id: nat)
    requires Inv(cfg, s) && s.bsp.AwaitReady? && s.g.ready != s.g.apsCounter
    ensures id < |s.aps| && ApNext(cfg, s, id) != s.aps[id]
  {
    CounterIsFound(cfg, s);
    if forall i :: 0 <= i < |s.aps| && i in Started(cfg) ==> ReadyWeight(s.aps[i]) == 1 {
      EveryoneCounted(cfg, s);
      assert false;
    }
    hide Rank, Sum;
    id :| 0 <= id < |s.aps| && id in Started(cfg) && ReadyWeight(s.aps[id]) != 1;
    assert ApOk(cfg, id, s.aps[id], s.g.signalled);
  }

  /** A stretch of a schedule in which every processor gets a turn. */
  ghost predicate FairRound(cfg: Config, round: seq<Actor>) {
    forall actor :: Member(cfg, actor) ==> actor in round
  }

  lemma {:induction false} RoundDescends(cfg: Config, s: State, round: seq<Actor>, actor: Actor)
    requires Inv(cfg, s) && cfg.timely
    ensures Remaining(cfg, Run(cfg, s, round)) <= Remaining(cfg, s)
    ensures actor in round && Step(cfg, s, actor) != s ==> Remaining(cfg, Run(cfg, s, round)) < Remaining(cfg, s)
    decreases |round|
  {
    if round != [] {
      var s' := Step(cfg, s, round[0]);
      StepDescends(cfg, s, round[0]);
      assert Inv(cfg, s') by {
        RunInv(cfg, s, [round[0]]);
        assert Run(cfg, s, [round[0]]) == Run(cfg, s', []);
      }
      RoundDescends(cfg, s', round[1..], actor);
    }
  }

  function Flatten(rounds: seq<seq<Actor>>): seq<Actor> {
    if rounds == [] then [] else rounds[0] + Flatten(rounds[1..])
  }

  lemma FinalStays(cfg: Config, s: State, schedule: seq<Actor>)
    requires Inv(cfg, s) && cfg.timely && Final(cfg, s)
    ensures Final(cfg, Run(cfg, s, schedule))
    decreases |schedule|
  {
    if schedule != [] {
      var actor := schedule[0];
      if actor.Ap? && actor.id < |s.aps| {
        assert s.aps[actor.id := s.aps[actor.id]] == s.aps;
      }
      assert Step(cfg, s, actor) == s;
      FinalStays(cfg, s, schedule[1..]);
    }
  }

  /** Progress: a schedule made of at least `Remaining` fair rounds completes the run. */
  lemma {:induction false} FairRunCompletes(cfg: Config, s: State, rounds: seq<seq<Actor>>)
    requires Inv(cfg, s) && cfg.timely
    requires forall i :: 0 <= i < |rounds| ==> FairRound(cfg, rounds[i])
    requires Remaining(cfg, s) <= |rounds|
    ensures Final(cfg, Run(cfg, s, Flatten(rounds)))
    decreases |rounds|
  {
    if Final(cfg, s) {
      FinalStays(cfg, s, Flatten(rounds));
    } else {
      var actor := SomeoneMoves(cfg, s);
      StepDescends(cfg, s, actor);
      var s' := Run(cfg, s, rounds[0]);
      RoundDescends(cfg, s, rounds[0], actor);
      RunInv(cfg, s, rounds[0]);
      RunSplit(cfg, s, rounds[0], Flatten(rounds[1..]));
      FairRunCompletes(cfg, s', rounds[1..]);
    }
  }

  lemma {:induction false} AllHalted(aps: seq<ApPc>)
    requires forall id :: 0 <= id < |aps| ==> aps[id] == Halted
    ensures Sum(ApWeight, aps) == 8 * |aps|
  {
    if aps != [] {
      AllHalted(aps[..|aps| - 1]);
    }
  }

  /** From power-on: with enough fair rounds every processor reaches the loaded image. */
  lemma BringUpCompletes(cfg: Config, rounds: seq<seq<Actor>>)
    requires WellFormed(cfg) && cfg.timely
    requires forall i :: 0 <= i < |rounds| ==> FairRound(cfg, rounds[i])
    requires 15 + 9 * cfg.slots <= |rounds|
    ensures Final(cfg, Run(cfg, Init(cfg), Flatten(rounds)))
  {
    InitInv(cfg);
    AllHalted(Init(cfg).aps);
    FairRunCompletes(cfg, Init(cfg), rounds);
  }
}
