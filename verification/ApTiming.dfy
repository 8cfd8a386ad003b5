/** The timeout is all that keeps ordinals apart.  Without it an AP that marks its slot
    after enumeration has passed it reads its own mark, 1, as its ordinal. */
module ApTiming {
  import opened ApProtocol
  import opened ApTheorems

  lemma StepReachable(cfg: Config, s: State, actor: Actor)
    requires Reachable(cfg, s)
    ensures Reachable(cfg, Step(cfg, s, actor))
  {
    var schedule :| Run(cfg, Init(cfg), schedule) == s;
    RunSplit(cfg, Init(cfg), schedule, [actor]);
    assert Run(cfg, s, [actor]) == Run(cfg, Step(cfg, s, actor), []);
  }

  /** Before enumeration, with one AP marked and the others on their way. */
  lemma EarlyMark(cfg: Config, early: nat) returns (s: State)
    requires WellFormed(cfg) && !cfg.timely && cfg.hasInit32 && cfg.lowPage != 0 && early in cfg.responders
    ensures Reachable(cfg, s) && s.bsp == Enumerate(1, 0) && |s.aps| == |s.presence| == cfg.slots
    ensures forall id :: 0 <= id < |s.presence| ==> s.presence[id] == if id == early then 1 else 0
    ensures forall id :: id in cfg.responders ==> s.aps[id] == if id == early then Spinning else Woken
  {
    s := Init(cfg);
    assert Run(cfg, s, []) == s;
    for i := 0 to 4
      invariant Reachable(cfg, s) && |s.aps| == |s.presence| == cfg.slots
      invariant s.bsp == [Entry, ClearEnvironment, PublishInit32, SendSipi, AwaitTimeout][i]
      invariant forall id :: 0 <= id < cfg.slots ==> s.presence[id] == 0
      invariant i == 4 ==> forall id :: id in cfg.responders ==> s.aps[id] == Woken
    {
      StepReachable(cfg, s, Bsp);
      s := BspStep(cfg, s);
    }
    StepReachable(cfg, s, Ap(early));
    s := ApStep(cfg, s, early);
    StepReachable(cfg, s, Bsp);
    s := BspStep(cfg, s);
  }

  /** Enumeration over an array in which only slot `early` is marked finds one AP. */
  lemma {:induction false} EnumerateAlone(cfg: Config, s: State, early: nat)
    requires Reachable(cfg, s)
    requires s.bsp.Enumerate? && 1 <= s.bsp.next <= |s.presence| && 1 <= early < |s.presence|
    requires s.bsp.found == if early < s.bsp.next then 1 else 0
    requires forall id :: 0 <= id < |s.presence| ==> s.presence[id] == if id == early then 1 else 0
    ensures Reachable(cfg, s.(bsp := StoreCount(1)))
    decreases |s.presence| - s.bsp.next
  {
    var s' := BspStep(cfg, s);
    StepReachable(cfg, s, Bsp);
    assert s' == s.(bsp := s'.bsp) by {
      assert s'.presence == s.presence;
    }
    if s.bsp.next < |s.presence| {
      EnumerateAlone(cfg, s', early);
    }
  }

  /** From a count of one to the signal: seven writes of the BSP. */
  lemma RunToSignal(cfg: Config, s: State) returns (s': State)
    requires Reachable(cfg, s) && s.bsp == StoreCount(1)
    ensures Reachable(cfg, s') && s'.g.signalled && s'.aps == s.aps && s'.presence == s.presence
  {
    s' := s;
    for i := 0 to 7
      invariant Reachable(cfg, s') && s'.aps == s.aps && s'.presence == s.presence
      invariant s'.bsp == [StoreCount(1), PublishInit64(1), StoreProcessors(1), StoreParams(1),
                           StoreFunction, StoreData, Signal, AwaitReady][i]
      invariant i == 7 ==> s'.g.signalled
    {
      StepReachable(cfg, s', Bsp);
      s' := BspStep(cfg, s');
    }
  }

  /** Bring one AP that is spinning or just woken to its ordinal. */
  lemma RunToOrdinal(cfg: Config, s: State, id: nat) returns (s': State)
    requires Reachable(cfg, s) && s.g.signalled && id < |s.aps| == |s.presence|
    requires s.aps[id].Woken? || (s.aps[id].Spinning? && s.presence[id] == 1)
    ensures Reachable(cfg, s') && s'.g.signalled && |s'.aps| == |s'.presence| == |s.aps|
    ensures s'.aps[id] == LoadStack(1)
    ensures forall other :: 0 <= other < |s.aps| && other != id ==>
              s'.aps[other] == s.aps[other] && s'.presence[other] == s.presence[other]
  {
    s' := s;
    if s.aps[id].Woken? {
      StepReachable(cfg, s', Ap(id));
      s' := ApStep(cfg, s', id);
    }
    StepReachable(cfg, s', Ap(id));
    s' := ApStep(cfg, s', id);
    StepReachable(cfg, s', Ap(id));
    s' := ApStep(cfg, s', id);
  }

  /** A late AP ends up with the ordinal, and so the stack, of the first enumerated one. */
  lemma LateArrivalCollides(cfg: Config, early: nat, late: nat) returns (s: State)
    requires WellFormed(cfg) && !cfg.timely && cfg.hasInit32 && cfg.lowPage != 0
    requires early in cfg.responders && late in cfg.responders && early != late
    ensures Reachable(cfg, s) && early < |s.aps| && late < |s.aps|
    ensures s.aps[early] == s.aps[late] == LoadStack(1)
  {
    s := EarlyMark(cfg, early);
    EnumerateAlone(cfg, s, early);
    s := s.(bsp := StoreCount(1));
    s := RunToSignal(cfg, s);
    s := RunToOrdinal(cfg, s, late);
    s := RunToOrdinal(cfg, s, early);
  }

  lemma {:induction false} OnlyRespondersMove(cfg: Config, s: State, schedule: seq<Actor>)
    requires |s.aps| == |s.presence|
    requires forall id :: 0 <= id < |s.aps| && id !in cfg.responders ==> s.aps[id] == Halted
    ensures var s' := Run(cfg, s, schedule);
            |s'.aps| == |s.aps| && forall id :: 0 <= id < |s'.aps| && id !in cfg.responders ==> s'.aps[id] == Halted
    decreases |schedule|
  {
    if schedule != [] {
      OnlyRespondersMove(cfg, Step(cfg, s, schedule[0]), schedule[1..]);
    }
  }

  lemma AtMostOne(ids: set<nat>, i: nat, j: nat)
    requires |ids| <= 1 && i in ids && j in ids
    ensures i == j
  {
    assert |ids - {i}| == |ids| - 1;
  }

  /** Ordinals are distinct in every run exactly when the timeout outlasts every AP's
      marking, or when there are not two APs to confuse. */
  lemma DistinctExactlyWhenTimely(cfg: Config)
    requires WellFormed(cfg) && cfg.hasInit32 && cfg.lowPage != 0
    ensures (forall s :: Reachable(cfg, s) ==> DistinctOrdinals(s)) <==> (cfg.timely || |cfg.responders| <= 1)
  {
    if cfg.timely {
      forall s | Reachable(cfg, s) ensures DistinctOrdinals(s) {
        OrdinalsDistinct(cfg, s);
      }
    } else if |cfg.responders| <= 1 {
      forall s | Reachable(cfg, s) ensures DistinctOrdinals(s) {
        var schedule :| Run(cfg, Init(cfg), schedule) == s;
        OnlyRespondersMove(cfg, Init(cfg), schedule);
        forall i, j | 0 <= i < |s.aps| && 0 <= j < |s.aps| && HasOrdinal(s.aps[i]) && HasOrdinal(s.aps[j])
          ensures i == j
        {
          AtMostOne(cfg.responders, i, j);
        }
      }
    } else {
      var early :| early in cfg.responders;
      assert |cfg.responders - {early}| > 0;
      var late :| late in cfg.responders - {early};
      var s := LateArrivalCollides(cfg, early, late);
      assert !DistinctOrdinals(s);
    }
  }
}
