/** The application-processor bring-up protocol as a machine of interleaved steps.

    The bootstrap processor (BSP) runs `startap_main`; every application processor
    (AP) runs the wake-up code that the start-up IPI leads to.  They communicate only
    through the globals collected in `State`.  One step is one access to that shared
    state by one processor, and a run is any sequence of steps at all. */
module ApProtocol {
  import opened Words

  /** What the machine is started with.  `responders` are the APIC ids of the APs that
      react to the start-up IPI; pointers are addresses, 0 being NULL. */
  datatype Config = Config(
    slots: nat,             // length of ap_presence_array
    responders: set<nat>,
    hasInit32: bool,        // p_init32 is not NULL
    lowPage: nat,           // p_init32->i32_low_memory_page
    stacks: seq<nat>,       // p_init32->i32_esp
    init64: nat,            // p_init64
    startup: nat,           // p_startup
    postOs: bool,           // MON_STARTUP_POST_OS_LAUNCH_MODE
    processorsBefore: nat,  // p_startup->number_of_processors_at_boot_time on entry
    entryPoint: nat,
    timely: bool)           // the BSP's timeout outlasts every responder's marking

  datatype BspPc =
    | Entry
    | ClearEnvironment
    | PublishInit32
    | SendSipi
    | AwaitTimeout
    | Enumerate(next: nat, found: nat)
    | StoreCount(found: nat)
    | PublishInit64(aps: nat)
    | StoreProcessors(aps: nat)
    | StoreParams(aps: nat)
    | StoreFunction
    | StoreData
    | Signal
    | AwaitReady
    | LaunchBsp
    | Done

  datatype ApPc =
    | Halted                                  // no start-up IPI yet
    | Woken                                   // in the trampoline, slot not yet marked
    | Spinning                                // wait_lock_1
    | ReadOrdinal                             // stage_2
    | LoadStack(ordinal: nat)
    | OnStack(ordinal: nat, esp: nat)         // about to count itself ready
    | Counted(ordinal: nat, esp: nat)         // about to call g_user_func
    | Running(ordinal: nat, esp: nat)         // inside the loaded image
    | Faulted                                 // went through a NULL pointer or off i32_esp

  /** One call of the loaded image's entry point. */
  datatype Launch = Launch(apicId: nat, cpuId: nat, init64: nat, entryPoint: nat, startup: nat)

  /** The globals other than the presence array. */
  datatype Globals = Globals(
    signalled: bool,        // mp_bootstrap_state is APS_ENUMERATED
    ready: nat,             // g_ready_counter
    apsCounter: nat,        // g_aps_counter
    init32: bool,           // gp_init32_data is set
    userFunc: bool,         // g_user_func is start_application
    userData: bool,         // g_any_data_for_user_func is &application_params
    init64: nat,            // gp_init64
    paramEntry: nat,        // application_params.ep
    paramStartup: nat,      // application_params.any_data1
    processors: nat)        // p_startup->number_of_processors_at_boot_time

  datatype State = State(
    bsp: BspPc,
    aps: seq<ApPc>,         // indexed by APIC id
    presence: seq<nat>,     // ap_presence_array
    g: Globals,
    launches: seq<Launch>)  // entry-point calls so far, oldest first

  datatype Actor = Bsp | Ap(id: nat)

  /** What the protocol assumes of its environment.  APIC ids are 8 bits wide: the wake-up
      code takes them from the top byte of the local APIC's id register. */
  ghost predicate WellFormed(cfg: Config) {
    && 1 <= cfg.slots
    && (forall id :: id in cfg.responders ==> 1 <= id < cfg.slots && id < 256)
    && |cfg.responders| <= |cfg.stacks|
  }

  /** The APs that take part: none if start-up is refused. */
  function Started(cfg: Config): set<nat> {
    if cfg.hasInit32 && cfg.lowPage != 0 then cfg.responders else {}
  }

  function Init(cfg: Config): State {
    State(Entry, seq(cfg.slots, _ => Halted), seq(cfg.slots, _ => 0),
          Globals(false, 0, 0, false, false, false, 0, 0, 0, cfg.processorsBefore), [])
  }

  predicate Marked(pc: ApPc) { !pc.Halted? && !pc.Woken? }

  predicate AllMarked(cfg: Config, s: State) {
    forall id :: id in cfg.responders && id < |s.aps| ==> Marked(s.aps[id])
  }

  function Wake(cfg: Config, aps: seq<ApPc>): (r: seq<ApPc>) {
    seq(|aps|, id requires 0 <= id < |aps| => if id in cfg.responders then Woken else aps[id])
  }

  /** One iteration of bsp_enumerate_aps; `ap_num` is a uint8_t. */
  function EnumerateOne(presence: seq<nat>, next: nat, found: nat): (r: (seq<nat>, nat))
    requires next < |presence|
  {
    if presence[next] != 0
    then var ordinal := (found + 1) % 256; (presence[next := ordinal], ordinal)
    else (presence, found)
  }

  /** Where the BSP goes next; the same place when it has to wait. */
  function BspNext(cfg: Config, s: State): BspPc {
    match s.bsp
    case Entry =>
      if !cfg.hasInit32 then PublishInit64(0)
      else if cfg.lowPage == 0 then PublishInit64(TWO_32 - 1)
      else ClearEnvironment
    case ClearEnvironment => PublishInit32
    case PublishInit32 => SendSipi
    case SendSipi => AwaitTimeout
    case AwaitTimeout => if cfg.timely && !AllMarked(cfg, s) then AwaitTimeout else Enumerate(1, 0)
    case Enumerate(next, found) =>
      if next < |s.presence| then Enumerate(next + 1, EnumerateOne(s.presence, next, found).1)
      else StoreCount(found)
    case StoreCount(found) => PublishInit64(found)
    case PublishInit64(aps) => StoreProcessors(aps)
    case StoreProcessors(aps) => StoreParams(aps)
    case StoreParams(aps) => if aps > 0 then StoreFunction else LaunchBsp
    case StoreFunction => StoreData
    case StoreData => Signal
    case Signal => AwaitReady
    case AwaitReady => if s.g.ready != s.g.apsCounter then AwaitReady else LaunchBsp
    case LaunchBsp => Done
    case Done => Done
  }

  /** What the BSP writes to the globals at each place. */
  function BspWrite(cfg: Config, pc: BspPc, g: Globals): Globals {
    match pc
    case ClearEnvironment => g.(signalled := false, ready := 0, userFunc := false, userData := false)
    case PublishInit32 => g.(init32 := true)
    case StoreCount(found) => g.(apsCounter := found)
    case PublishInit64(_) => g.(init64 := cfg.init64)
    case StoreProcessors(aps) => if cfg.postOs then g else g.(processors := (aps + 1) % TWO_32)
    case StoreParams(_) => g.(paramEntry := cfg.entryPoint, paramStartup := cfg.startup)
    case StoreFunction => g.(userFunc := true)
    case StoreData => g.(userData := true)
    case Signal => g.(signalled := true)
    case _ => g
  }

  /** start_application on processor `apicId`. */
  function Call(g: Globals, apicId: nat, cpuId: nat): Launch {
    Launch(apicId, cpuId, g.init64, g.paramEntry, g.paramStartup)
  }

  function BspStep(cfg: Config, s: State): State {
    State(BspNext(cfg, s),
          if s.bsp.SendSipi? then Wake(cfg, s.aps) else s.aps,
          if s.bsp.Enumerate? && s.bsp.next < |s.presence|
          then EnumerateOne(s.presence, s.bsp.next, s.bsp.found).0 else s.presence,
          BspWrite(cfg, s.bsp, s.g),
          if s.bsp.LaunchBsp? then s.launches + [Call(s.g, 0, 0)] else s.launches)
  }

  /** Where AP `id` goes next; the same place when it has to wait. */
  function ApNext(cfg: Config, s: State, id: nat): ApPc
    requires id < |s.aps| == |s.presence|
  {
    match s.aps[id]
    case Halted => Halted
    case Woken => Spinning
    case Spinning => if s.g.signalled then ReadOrdinal else Spinning
    case ReadOrdinal => LoadStack(s.presence[id])
    case LoadStack(ordinal) =>
      if s.g.init32 && 1 <= ordinal <= |cfg.stacks|
      then OnStack(ordinal, cfg.stacks[ordinal - 1]) else Faulted
    case OnStack(ordinal, esp) => Counted(ordinal, esp)
    case Counted(ordinal, esp) => if s.g.userFunc && s.g.userData then Running(ordinal, esp) else Faulted
    case Running(_, _) => s.aps[id]
    case Faulted => Faulted
  }

  function ApStep(cfg: Config, s: State, id: nat): State
    requires id < |s.aps| == |s.presence|
  {
    var pc := s.aps[id];
    var next := ApNext(cfg, s, id);
    State(s.bsp,
          s.aps[id := next],
          if pc.Woken? then s.presence[id := 1] else s.presence,
          if pc.OnStack? then s.g.(ready := (s.g.ready + 1) % TWO_32) else s.g,
          if pc.Counted? && next.Running? then s.launches + [Call(s.g, id, pc.ordinal)] else s.launches)
  }

  function Step(cfg: Config, s: State, actor: Actor): State {
    match actor
    case Bsp => BspStep(cfg, s)
    case Ap(id) => if id < |s.aps| == |s.presence| then ApStep(cfg, s, id) else s
  }

  /** The state a schedule leads to.  A scheduled processor that has to wait leaves the
      state as it is. */
  function Run(cfg: Config, s: State, schedule: seq<Actor>): State
    decreases |schedule|
  {
    if schedule == [] then s else Run(cfg, Step(cfg, s, schedule[0]), schedule[1..])
  }

  lemma {:induction false} RunSplit(cfg: Config, s: State, a: seq<Actor>, b: seq<Actor>)
    ensures Run(cfg, s, a + b) == Run(cfg, Run(cfg, s, a), b)
    decreases |a|
  {
    if a == [] {
      assert a + b == b;
    } else {
      assert (a + b)[1..] == a[1..] + b;
      RunSplit(cfg, Step(cfg, s, a[0]), a[1..], b);
    }
  }
}
