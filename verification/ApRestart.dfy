/** Bring-up does not depend on what an earlier run left in the globals that
    ap_intialize_environment clears. */
module ApRestart {
  import opened ApProtocol

  /** A start whose globals hold left-over values. */
  function StaleInit(cfg: Config, signalled: bool, ready: nat, userFunc: bool, userData: bool): State {
    Init(cfg).(g := Init(cfg).g.(signalled := signalled, ready := ready, userFunc := userFunc, userData := userData))
  }

  /** Nothing has been sent, and the globals differ in left-overs only. */
  ghost predicate NotYetCleared(cfg: Config, s: State, s': State) {
    && (s.bsp.Entry? || s.bsp.ClearEnvironment?) && |s.aps| == |s.presence|
    && (forall id :: 0 <= id < |s.aps| ==> s.aps[id] == Halted)
    && s == s'.(g := s'.g.(signalled := s.g.signalled, ready := s.g.ready, userFunc := s.g.userFunc, userData := s.g.userData))
  }

  /** Two starts that differ in left-overs are the same run once the BSP has cleared them. */
  lemma {:induction false} SameRun(cfg: Config, s: State, s': State, schedule: seq<Actor>)
    requires cfg.hasInit32 && cfg.lowPage != 0 && NotYetCleared(cfg, s, s')
    ensures var t, t' := Run(cfg, s, schedule), Run(cfg, s', schedule);
            t == t' || (NotYetCleared(cfg, t, t') && t.bsp == t'.bsp)
    decreases |schedule|
  {
    if schedule != [] {
      var next, next' := Step(cfg, s, schedule[0]), Step(cfg, s', schedule[0]);
      match schedule[0] {
        case Bsp => {
          if s.bsp.ClearEnvironment? {
            assert next == next';
          } else {
            SameRun(cfg, next, next', schedule[1..]);
          }
        }
        case Ap(id) => {
          if id < |s.aps| {
            assert s.aps[id := Halted] == s.aps;
          }
          SameRun(cfg, next, next', schedule[1..]);
        }
      }
    }
  }

  /** From any left-overs every schedule leads to the state a clean start leads to, as soon as
      the BSP is past the clearing, which is before any AP is woken. */
  lemma LeftOversDoNotMatter(cfg: Config, signalled: bool, ready: nat, userFunc: bool, userData: bool, schedule: seq<Actor>)
    requires cfg.hasInit32 && cfg.lowPage != 0
    ensures var s, t := Run(cfg, StaleInit(cfg, signalled, ready, userFunc, userData), schedule), Run(cfg, Init(cfg), schedule);
            && s.bsp == t.bsp
            && (!s.bsp.Entry? && !s.bsp.ClearEnvironment? ==> s == t)
            && (s.bsp.Entry? || s.bsp.ClearEnvironment? ==> forall id :: 0 <= id < |s.aps| ==> s.aps[id] == Halted)
  {
    var s0 := StaleInit(cfg, signalled, ready, userFunc, userData);
    hide Run, Init;
    assert NotYetCleared(cfg, s0, Init(cfg)) by { Started(cfg, signalled, ready, userFunc, userData); }
    SameRun(cfg, s0, Init(cfg), schedule);
    StillHalted(cfg, s0, schedule);
  }

  lemma Started(cfg: Config, signalled: bool, ready: nat, userFunc: bool, userData: bool)
    ensures NotYetCleared(cfg, StaleInit(cfg, signalled, ready, userFunc, userData), Init(cfg))
  {
  }

  predicate BeforeClearing(pc: BspPc) { pc.Entry? || pc.ClearEnvironment? }

  ghost predicate AllHalted(s: State) {
    |s.aps| == |s.presence| && forall id :: 0 <= id < |s.aps| ==> s.aps[id] == Halted
  }

  lemma HaltedStep(cfg: Config, s: State, actor: Actor)
    requires BeforeClearing(s.bsp) && AllHalted(s)
    ensures AllHalted(Step(cfg, s, actor))
  {
    if actor.Ap? && actor.id < |s.aps| {
      assert s.aps[actor.id := Halted] == s.aps;
    }
  }

  lemma {:induction false} StillHalted(cfg: Config, s: State, schedule: seq<Actor>)
    requires BeforeClearing(s.bsp) && AllHalted(s)
    ensures BeforeClearing(Run(cfg, s, schedule).bsp) ==> AllHalted(Run(cfg, s, schedule))
    decreases |schedule|
  {
    hide Step, AllHalted;
    if schedule != [] {
      var next := Step(cfg, s, schedule[0]);
      HaltedStep(cfg, s, schedule[0]);
      if BeforeClearing(next.bsp) {
        StillHalted(cfg, next, schedule[1..]);
      } else {
        NeverBack(cfg, next, schedule[1..]);
      }
    }
  }

  lemma {:induction false} NeverBack(cfg: Config, s: State, schedule: seq<Actor>)
    requires !BeforeClearing(s.bsp)
    ensures !BeforeClearing(Run(cfg, s, schedule).bsp)
    decreases |schedule|
  {
    if schedule != [] {
      NeverBack(cfg, Step(cfg, s, schedule[0]), schedule[1..]);
    }
  }
}
