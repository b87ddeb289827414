/** Several `nebula start` commands at once: each runs step by step, their steps interleave, API and CLI processes
    die at any moment, and no stop is under way. Taking the lock (`acquireAPILock`) counts as one step. */
module ServiceRace {
  import opened Service

  /** Where one start command is. `named` says whether the state file had been written for the child. */
  datatype Phase =
    | Looking
    | Looked
    | Holding
    | Spawned(child: int)
    | Saved(child: int)
    | Rewriting(child: int, file: nat)
    | Watching(child: int)
    | Killing(child: int, named: bool)
    | Clearing
    | Unlocking
    | Gone

  /** `files` counts the lock files made so far: a start that has one open goes on writing to it when the name
      api_lock has long passed to another. */
  datatype World = World(
      lock: LockFile, state: StateFile, alive: set<int>, apis: set<int>, used: set<int>, starts: map<int, Phase>,
      files: nat)

  const IDLE := World(NoLock, NoState, {}, {}, {}, map[], 0)

  /** How writing a file can end: done, failed with the file in order, or failed with the file cut short. */
  datatype Write = Done | Failed | Torn

  /** What a run may contain: a CLI process dying inside the window; a lock file cut short while the API's PID is
      put in; an API process that is dead while its lock file is open for that, and empty. */
  datatype Risks = Risks(windowCrash: bool, tornLock: bool, deadInRewrite: bool)

  const SAFE := Risks(false, false, false)

  /** Every step of a start is named by the PID of its CLI process. */
  datatype Action =
    | Begin(cli: int)
    | Look(cli: int)
    | Acquire(cli: int, created: LockWrite)
    | Spawn(cli: int, child: int)
    | GiveUp(cli: int)
    | SaveState(cli: int, write: Write)
    | OpenLock(cli: int, opens: bool)
    | WriteLock(cli: int, whole: bool)
    | Ready(cli: int)
    | PortConflict(cli: int)
    | SeesExit(cli: int)
    | Kill(cli: int)
    | ClearState(cli: int)
    | RemoveLock(cli: int)
    | ApiDies(api: int)
    | CliDies(cli: int)

  // ---------- steps ----------

  predicate Alive(w: World, pid: int) {
    Runs(w.alive, pid)
  }

  /** An existing lock has a live process behind it. */
  predicate Guarded(w: World) {
    w.lock != NoLock && Alive(w, Behind(w.lock, w.state, w.alive))
  }

  predicate At(w: World, cli: int, phase: Phase) {
    cli in w.starts && w.starts[cli] == phase
  }

  function To(w: World, cli: int, phase: Phase): World {
    w.(starts := w.starts[cli := phase])
  }

  /** A CLI process ends, by itself or not. */
  function End(w: World, cli: int): World {
    w.(starts := w.starts[cli := Gone], alive := w.alive - {cli})
  }

  function AcquireStep(w: World, cli: int, write: LockWrite): World {
    var (outcome, lock, state) := Acquiring(w.lock, w.state, w.alive, cli, write);
    var after := w.(lock := lock, state := state, files := if outcome.Held? then w.files else w.files + 1);
    if outcome.Acquired? then To(after, cli, Holding) else End(after, cli)
  }

  /** A step that does not fit the phase of its command does nothing. */
  function Step(w: World, a: Action): World {
    match a
    case Begin(cli) =>
      if cli > 0 && cli !in w.used then To(w.(used := w.used + {cli}, alive := w.alive + {cli}), cli, Looking) else w
    case Look(cli) =>
      if !At(w, cli, Looking) then w
      else if w.state.State? && Alive(w, w.state.pid) then End(w, cli)
      else To(w, cli, Looked)
    case Acquire(cli, write) => if At(w, cli, Looked) then AcquireStep(w, cli, write) else w
    case Spawn(cli, child) =>
      if At(w, cli, Holding) && child > 0 && child !in w.used
      then To(w.(used := w.used + {child}, alive := w.alive + {child}, apis := w.apis + {child}), cli, Spawned(child))
      else w
    case GiveUp(cli) => if At(w, cli, Holding) then To(w, cli, Clearing) else w
    case SaveState(cli, write) =>
      if cli in w.starts && w.starts[cli].Spawned? then
        var child := w.starts[cli].child;
        match write
        case Done => To(w.(state := State(child)), cli, Saved(child))
        case Failed => To(w.(state := State(child)), cli, Killing(child, true))
        case Torn => To(w.(state := BadState), cli, Killing(child, false))
      else w
    case OpenLock(cli, opens) =>
      if cli in w.starts && w.starts[cli].Saved? then
        var child := w.starts[cli].child;
        var files := if w.lock == NoLock then w.files + 1 else w.files;
        if opens then To(w.(lock := BadLock, files := files), cli, Rewriting(child, files))
        else To(w, cli, Killing(child, true))
      else w
    case WriteLock(cli, whole) =>
      if cli in w.starts && w.starts[cli].Rewriting? then
        var child := w.starts[cli].child;
        var named := w.lock != NoLock && w.starts[cli].file == w.files;
        if whole then To(if named then w.(lock := Lock(cli, child)) else w, cli, Watching(child))
        else To(w, cli, Killing(child, true))
      else w
    case Ready(cli) => if cli in w.starts && w.starts[cli].Watching? then End(w, cli) else w
    case PortConflict(cli) =>
      if cli in w.starts && w.starts[cli].Watching? then To(w, cli, Killing(w.starts[cli].child, true)) else w
    case SeesExit(cli) =>
      if cli in w.starts && w.starts[cli].Watching? && !Alive(w, w.starts[cli].child) then To(w, cli, Clearing) else w
    case Kill(cli) =>
      if cli in w.starts && w.starts[cli].Killing?
      then To(w.(alive := w.alive - {w.starts[cli].child}), cli, Clearing) else w
    case ClearState(cli) => if At(w, cli, Clearing) then To(w.(state := NoState), cli, Unlocking) else w
    case RemoveLock(cli) => if At(w, cli, Unlocking) then End(w.(lock := NoLock), cli) else w
    case ApiDies(api) => if api in w.apis then w.(alive := w.alive - {api}) else w
    case CliDies(cli) => if cli in w.starts then End(w, cli) else w
  }

  /** The window: the child runs, and no file names it yet. */
  predicate InWindow(p: Phase) {
    p.Spawned? || (p.Killing? && !p.named)
  }

  /** The step leaves a lock file empty whose API process is dead. */
  predicate EmptiesForTheDead(w: World, a: Action) {
    || (a.OpenLock? && a.opens && a.cli in w.starts && w.starts[a.cli].Saved? && !Alive(w, w.starts[a.cli].child))
    || (a.ApiDies? && exists cli :: cli in w.starts && w.starts[cli].Rewriting? && w.starts[cli].child == a.api)
  }

  /** May this step happen? Outside the window a CLI process may die anywhere. */
  predicate Allowed(w: World, a: Action, risks: Risks) {
    && (a.CliDies? && a.cli in w.starts && InWindow(w.starts[a.cli]) ==> risks.windowCrash)
    && (a.WriteLock? && !a.whole ==> risks.tornLock)
    && (EmptiesForTheDead(w, a) ==> risks.deadInRewrite)
  }

  function Run(actions: seq<Action>, risks: Risks): World {
    if actions == [] then IDLE
    else
      var w := Run(actions[..|actions| - 1], risks);
      var a := actions[|actions| - 1];
      if Allowed(w, a, risks) then Step(w, a) else w
  }

  // ---------- the invariant ----------

  ghost predicate AtMostOneApi(w: World) {
    forall p, q :: p in w.apis && q in w.apis && p in w.alive && q in w.alive ==> p == q
  }

  /** Between taking the lock and letting go of it. */
  predicate Critical(p: Phase) {
    p.Holding? || p.Spawned? || p.Saved? || p.Rewriting? || p.Watching? || p.Killing? || p.Clearing? || p.Unlocking?
  }

  /** All live API processes are the one in hand. */
  ghost predicate OnlyApi(w: World, child: int) {
    forall q :: q in w.apis && q in w.alive ==> q == child
  }

  ghost predicate NoApi(w: World) {
    forall q :: q in w.apis ==> q !in w.alive
  }

  ghost predicate PhaseOk(w: World, cli: int, p: Phase) {
    && (p != Gone ==> cli in w.alive)
    && (Critical(p) && !p.Rewriting? ==> w.lock.Lock? && w.lock.owner == cli)
    && (p.Rewriting? ==> w.lock == BadLock && w.state == State(p.child) && p.child in w.alive && p.file == w.files)
    && (p.Holding? || p.Clearing? || p.Unlocking? ==> NoApi(w))
    && (p.Unlocking? ==> w.state == NoState)
    && (p.Spawned? || p.Saved? || p.Rewriting? || p.Watching? || p.Killing? ==>
          OnlyApi(w, p.child) && p.child in w.apis)
    && (p.Saved? || p.Watching? || (p.Killing? && p.named) ==> w.state == State(p.child))
  }

  /** A live API process is named by a file, or its start is still in the window. */
  ghost predicate Accounted(w: World, api: int) {
    || w.state == State(api)
    || (w.lock.Lock? && w.lock.api == api)
    || exists cli :: cli in w.starts && InWindow(w.starts[cli]) && w.starts[cli].child == api
  }

  ghost predicate PidsOk(w: World) {
    && w.alive <= w.used && w.apis <= w.used && w.starts.Keys <= w.used && w.apis !! w.starts.Keys
    && (forall p :: p in w.used ==> p > 0)
  }

  ghost predicate Inv(w: World) {
    && PidsOk(w)
    && (w.lock == NoLock ==> !w.state.State?)
    && (forall api :: api in w.apis && api in w.alive ==> OnlyApi(w, api) && Accounted(w, api))
    && (forall cli :: cli in w.starts ==> PhaseOk(w, cli, w.starts[cli]))
    && (forall a, b :: a in w.starts && b in w.starts && w.starts[a].Rewriting? && w.starts[b].Rewriting? ==> a == b)
  }

  /** Taking the lock, or replacing a stale one, is only possible when nobody is critical and no API process is
      alive. */
  lemma FreeLockMeansNothingRuns(w: World)
    requires Inv(w) && !Guarded(w)
    ensures NoApi(w) && forall cli :: cli in w.starts ==> !Critical(w.starts[cli])
  {
    forall cli | cli in w.starts ensures !Critical(w.starts[cli]) {
      assert PhaseOk(w, cli, w.starts[cli]);
    }
    forall api | api in w.apis ensures api !in w.alive {
      assert api in w.alive ==> Accounted(w, api);
    }
  }

  lemma AcquireKeepsInv(w: World, cli: int, write: LockWrite)
    requires Inv(w) && At(w, cli, Looked)
    ensures Inv(AcquireStep(w, cli, write))
  {
    var after := AcquireStep(w, cli, write);
    if Guarded(w) {
      EndKeepsInv(w, cli);
    } else {
      FreeLockMeansNothingRuns(w);
      forall c | c in after.starts ensures PhaseOk(after, c, after.starts[c]) {
        assert PhaseOk(w, c, w.starts[c]);
      }
    }
  }

  lemma AccountedStays(w: World, after: World, api: int)
    requires Accounted(w, api) && after.state == w.state && after.lock == w.lock
    requires forall c :: c in w.starts && InWindow(w.starts[c]) ==> c in after.starts && after.starts[c] == w.starts[c]
    ensures Accounted(after, api)
  {
    if !(w.state == State(api) || (w.lock.Lock? && w.lock.api == api)) {
      var cli :| cli in w.starts && InWindow(w.starts[cli]) && w.starts[cli].child == api;
      assert cli in after.starts && InWindow(after.starts[cli]);
    }
  }

  lemma EndKeepsInv(w: World, cli: int)
    requires Inv(w) && cli in w.starts && !InWindow(w.starts[cli])
    ensures Inv(End(w, cli))
  {
    var after := End(w, cli);
    forall c | c in after.starts ensures PhaseOk(after, c, after.starts[c]) {
      assert PhaseOk(w, c, w.starts[c]);
    }
    forall api | api in after.apis && api in after.alive ensures OnlyApi(after, api) && Accounted(after, api) {
      AccountedStays(w, after, api);
    }
  }

  /** Another command that is critical would own the same lock. */
  lemma OneCritical(w: World, a: int, b: int)
    requires Inv(w) && a in w.starts && b in w.starts && Critical(w.starts[a]) && Critical(w.starts[b])
    ensures a == b
  {
    assert PhaseOk(w, a, w.starts[a]) && PhaseOk(w, b, w.starts[b]);
  }

  /** A step of the one critical command, seen from the others: they keep their phases, which ask nothing of
      the files. */
  lemma CriticalStepKeepsInv(w: World, after: World, cli: int)
    requires Inv(w) && cli in w.starts && Critical(w.starts[cli])
    requires cli in after.starts && after.starts == w.starts[cli := after.starts[cli]]
    requires PidsOk(after) && (after.lock == NoLock ==> !after.state.State?)
    requires PhaseOk(after, cli, after.starts[cli])
    requires w.alive * w.starts.Keys - {cli} <= after.alive
    requires forall api :: api in after.apis && api in after.alive ==> OnlyApi(after, api) && Accounted(after, api)
    ensures Inv(after)
  {
    forall c | c in after.starts ensures PhaseOk(after, c, after.starts[c]) {
      if c != cli {
        assert PhaseOk(w, c, w.starts[c]);
        if Critical(w.starts[c]) {
          OneCritical(w, c, cli);
        }
      }
    }
  }

  lemma SpawnKeepsInv(w: World, cli: int, child: int)
    requires Inv(w) && At(w, cli, Holding) && child > 0 && child !in w.used
    ensures Inv(Step(w, Spawn(cli, child)))
  {
    var after := Step(w, Spawn(cli, child));
    assert PhaseOk(w, cli, Holding);
    assert InWindow(after.starts[cli]);
    CriticalStepKeepsInv(w, after, cli);
  }

  lemma SaveKeepsInv(w: World, cli: int, write: Write)
    requires Inv(w) && cli in w.starts && w.starts[cli].Spawned?
    ensures Inv(Step(w, SaveState(cli, write)))
  {
    var after := Step(w, SaveState(cli, write));
    assert PhaseOk(w, cli, w.starts[cli]);
    assert write.Torn? ==> InWindow(after.starts[cli]);
    CriticalStepKeepsInv(w, after, cli);
  }

  lemma OpenKeepsInv(w: World, cli: int, opens: bool)
    requires Inv(w) && cli in w.starts && w.starts[cli].Saved? && (opens ==> Alive(w, w.starts[cli].child))
    ensures Inv(Step(w, OpenLock(cli, opens)))
  {
    assert PhaseOk(w, cli, w.starts[cli]);
    CriticalStepKeepsInv(w, Step(w, OpenLock(cli, opens)), cli);
  }

  lemma WriteKeepsInv(w: World, cli: int)
    requires Inv(w) && cli in w.starts && w.starts[cli].Rewriting?
    ensures Inv(Step(w, WriteLock(cli, true)))
  {
    assert PhaseOk(w, cli, w.starts[cli]);
    CriticalStepKeepsInv(w, Step(w, WriteLock(cli, true)), cli);
  }

  lemma WatchKeepsInv(w: World, a: Action)
    requires Inv(w) && (a.PortConflict? || a.SeesExit?) && a.cli in w.starts && w.starts[a.cli].Watching?
    ensures Inv(Step(w, a))
  {
    var after := Step(w, a);
    assert PhaseOk(w, a.cli, w.starts[a.cli]);
    if after != w {
      CriticalStepKeepsInv(w, after, a.cli);
    }
  }

  lemma KillKeepsInv(w: World, cli: int)
    requires Inv(w) && cli in w.starts && w.starts[cli].Killing?
    ensures Inv(Step(w, Kill(cli)))
  {
    assert PhaseOk(w, cli, w.starts[cli]);
    CriticalStepKeepsInv(w, Step(w, Kill(cli)), cli);
  }

  lemma UndoKeepsInv(w: World, a: Action)
    requires Inv(w) && (a.GiveUp? || a.ClearState? || a.RemoveLock?) && a.cli in w.starts
    ensures Inv(Step(w, a))
  {
    var after := Step(w, a);
    assert PhaseOk(w, a.cli, w.starts[a.cli]);
    if after != w {
      CriticalStepKeepsInv(w, after, a.cli);
    }
  }

  lemma BeginKeepsInv(w: World, cli: int)
    requires Inv(w)
    ensures Inv(Step(w, Begin(cli)))
  {
    var after := Step(w, Begin(cli));
    forall c | c in after.starts ensures PhaseOk(after, c, after.starts[c]) {
      assert c in w.starts ==> PhaseOk(w, c, w.starts[c]);
    }
    forall api | api in after.apis && api in after.alive ensures OnlyApi(after, api) && Accounted(after, api) {
      AccountedStays(w, after, api);
    }
  }

  lemma LookKeepsInv(w: World, cli: int)
    requires Inv(w)
    ensures Inv(Step(w, Look(cli)))
  {
    var after := Step(w, Look(cli));
    if At(w, cli, Looking) {
      if w.state.State? && Alive(w, w.state.pid) {
        EndKeepsInv(w, cli);
      } else {
        forall c | c in after.starts ensures PhaseOk(after, c, after.starts[c]) {
          assert PhaseOk(w, c, w.starts[c]);
        }
        forall api | api in after.apis && api in after.alive ensures Accounted(after, api) {
          AccountedStays(w, after, api);
        }
      }
    }
  }

  lemma ApiDeathKeepsInv(w: World, api: int)
    requires Inv(w) && forall cli :: cli in w.starts && w.starts[cli].Rewriting? ==> w.starts[cli].child != api
    ensures Inv(Step(w, ApiDies(api)))
  {
    var after := Step(w, ApiDies(api));
    forall c | c in after.starts ensures PhaseOk(after, c, after.starts[c]) {
      assert PhaseOk(w, c, w.starts[c]);
    }
    forall q | q in after.apis && q in after.alive ensures Accounted(after, q) {
      assert Accounted(w, q);
    }
  }

  lemma StepKeepsInv(w: World, a: Action)
    requires Inv(w) && Allowed(w, a, SAFE)
    ensures Inv(Step(w, a))
  {
    match a
    case Begin(cli) => BeginKeepsInv(w, cli);
    case Look(cli) => LookKeepsInv(w, cli);
    case Acquire(cli, write) => if At(w, cli, Looked) { AcquireKeepsInv(w, cli, write); }
    case Spawn(cli, child) => if Step(w, a) != w { SpawnKeepsInv(w, cli, child); }
    case GiveUp(cli) => if cli in w.starts { UndoKeepsInv(w, a); }
    case SaveState(cli, write) => if Step(w, a) != w { SaveKeepsInv(w, cli, write); }
    case OpenLock(cli, opens) => if Step(w, a) != w { OpenKeepsInv(w, cli, opens); }
    case WriteLock(cli, whole) => if Step(w, a) != w { WriteKeepsInv(w, cli); }
    case Ready(cli) => if Step(w, a) != w { EndKeepsInv(w, cli); }
    case PortConflict(cli) => if Step(w, a) != w { WatchKeepsInv(w, a); }
    case SeesExit(cli) => if Step(w, a) != w { WatchKeepsInv(w, a); }
    case Kill(cli) => if Step(w, a) != w { KillKeepsInv(w, cli); }
    case ClearState(cli) => if cli in w.starts { UndoKeepsInv(w, a); }
    case RemoveLock(cli) => if cli in w.starts { UndoKeepsInv(w, a); }
    case ApiDies(api) => ApiDeathKeepsInv(w, api);
    case CliDies(cli) => if cli in w.starts { EndKeepsInv(w, cli); }
  }

  // ---------- main results ----------

  lemma {:induction false} RunInv(actions: seq<Action>)
    ensures Inv(Run(actions, SAFE))
  {
    if actions != [] {
      var w, a := Run(actions[..|actions| - 1], SAFE), actions[|actions| - 1];
      RunInv(actions[..|actions| - 1]);
      if Allowed(w, a, SAFE) {
        StepKeepsInv(w, a);
      }
    }
  }

  /** However many starts overlap, at most one API process is alive, and a live one is named by the lock
      file or the state file unless its own start has yet to write them. */
  lemma OverlappingStartsRunOneApi(actions: seq<Action>)
    ensures var w := Run(actions, SAFE);
            AtMostOneApi(w) && forall api :: api in w.apis && api in w.alive ==> Accounted(w, api)
  {
    RunInv(actions);
    var w := Run(actions, SAFE);
    assert forall api :: api in w.apis && api in w.alive ==> OnlyApi(w, api);
  }

  /** The guarantee holds for all runs exactly when none of the three risks is taken. */
  lemma SafeIffNoRisk(risks: Risks)
    ensures (forall actions :: AtMostOneApi(Run(actions, risks)))
       <==> !risks.windowCrash && !risks.tornLock && !risks.deadInRewrite
  {
    if risks.windowCrash {
      var actions := OrphanRun(risks);
      assert !AtMostOneApi(Run(actions, risks));
    } else if risks.tornLock {
      var torn := TearLock(risks);
      var actions := OvertakenRun(torn, risks);
      assert !AtMostOneApi(Run(actions, risks));
    } else if risks.deadInRewrite {
      var late := RewriteLate(risks);
      var actions := OvertakenRun(late, risks);
      assert !AtMostOneApi(Run(actions, risks));
    } else {
      forall actions ensures AtMostOneApi(Run(actions, risks)) {
        OverlappingStartsRunOneApi(actions);
      }
    }
  }

  // ---------- what the risks lead to ----------

  lemma Then(before: seq<Action>, a: Action, risks: Risks)
    requires (a.CliDies? ==> risks.windowCrash) && (a.WriteLock? && !a.whole ==> risks.tornLock)
    requires EmptiesForTheDead(Run(before, risks), a) ==> risks.deadInRewrite
    ensures Run(before + [a], risks) == Step(Run(before, risks), a)
  {
    assert (before + [a])[..|before|] == before;
  }

  /** A start would find nothing running. */
  predicate Startable(w: World, cli: int) {
    && cli > 0 && cli !in w.used
    && var m := w.(alive := w.alive + {cli});
       !(m.state.State? && Alive(m, m.state.pid)) && !Guarded(m)
  }

  function Began(w: World, cli: int, phase: Phase): World {
    w.(alive := w.alive + {cli}, used := w.used + {cli}, starts := w.starts[cli := phase])
  }

  function Launched(w: World, cli: int, child: int): World {
    World(Lock(cli, 0), if w.lock == NoLock then w.state else NoState, w.alive + {cli} + {child}, w.apis + {child},
          w.used + {cli} + {child}, w.starts[cli := Spawned(child)], w.files + 1)
  }

  lemma StepsToLock(w: World, cli: int)
    requires Startable(w, cli)
    ensures Step(Step(w, Begin(cli)), Look(cli)) == Began(w, cli, Looked)
    ensures Step(Began(w, cli, Looked), Acquire(cli, Written)) == Locked(w, cli)
  {
  }

  function Locked(w: World, cli: int): World {
    Began(w, cli, Holding).(
      lock := Lock(cli, 0), state := if w.lock == NoLock then w.state else NoState, files := w.files + 1)
  }

  lemma SpawnStep(w: World, cli: int, child: int)
    requires Startable(w, cli) && child > 0 && child != cli && child !in w.used
    ensures Step(Locked(w, cli), Spawn(cli, child)) == Launched(w, cli, child)
  {
    assert w.starts[cli := Holding][cli := Spawned(child)] == w.starts[cli := Spawned(child)];
  }

  lemma Then4(before: seq<Action>, a: Action, b: Action, c: Action, d: Action, risks: Risks)
    requires a.Begin? && b.Look? && c.Acquire? && d.Spawn?
    ensures Run(before + [a] + [b] + [c] + [d], risks) == Step(Step(Step(Step(Run(before, risks), a), b), c), d)
  {
    Then(before, a, risks);
    Then(before + [a], b, risks);
    Then(before + [a] + [b], c, risks);
    Then(before + [a] + [b] + [c], d, risks);
  }

  /** A whole start up to its new process. */
  lemma Launch(before: seq<Action>, cli: int, child: int, risks: Risks) returns (after: seq<Action>)
    requires Startable(Run(before, risks), cli) && child > 0 && child != cli && child !in Run(before, risks).used
    ensures Run(after, risks) == Launched(Run(before, risks), cli, child)
  {
    var w := Run(before, risks);
    StepsToLock(w, cli);
    SpawnStep(w, cli, child);
    Then4(before, Begin(cli), Look(cli), Acquire(cli, Written), Spawn(cli, child), risks);
    after := before + [Begin(cli)] + [Look(cli)] + [Acquire(cli, Written)] + [Spawn(cli, child)];
  }

  /** A CLI killed inside the window leaves a process that no file names; the next start does not find it. */
  lemma OrphanRun(risks: Risks) returns (actions: seq<Action>)
    requires risks.windowCrash
    ensures var w := Run(actions, risks); 2 in w.apis && 2 in w.alive && 4 in w.apis && 4 in w.alive
  {
    var first := Launch([], 1, 2, risks);
    Then(first, CliDies(1), risks);
    actions := Launch(first + [CliDies(1)], 3, 4, risks);
  }

  /** The first start is about to remove files that the next one has taken over. */
  ghost predicate AboutToClean(w: World) {
    && w.lock.Lock? && w.state == NoState && w.alive == {1, 3, 4} && w.apis == {2, 4} && w.used == {1, 2, 3, 4}
    && 1 in w.starts && w.starts[1] == Clearing
  }

  /** Once it has done so, a third start finds nothing. */
  lemma OvertakenRun(before: seq<Action>, risks: Risks) returns (actions: seq<Action>)
    requires AboutToClean(Run(before, risks))
    ensures var w := Run(actions, risks); 4 in w.apis && 4 in w.alive && 6 in w.apis && 6 in w.alive
  {
    Then(before, ClearState(1), risks);
    Then(before + [ClearState(1)], RemoveLock(1), risks);
    CleaningSteps(Run(before, risks));
    actions := Launch(before + [ClearState(1)] + [RemoveLock(1)], 5, 6, risks);
  }

  lemma CleaningSteps(w: World)
    requires AboutToClean(w)
    ensures var after := Step(Step(w, ClearState(1)), RemoveLock(1));
            && after.lock == NoLock && after.state == NoState && after.alive == {3, 4}
            && after.apis == {2, 4} && after.used == {1, 2, 3, 4}
  {
    assert {1, 3, 4} - {1} == {3, 4};
  }

  /** A start with its lock file open for rewriting. */
  lemma Rewrite(risks: Risks) returns (actions: seq<Action>)
    ensures Run(actions, risks) == World(BadLock, State(2), {1, 2}, {2}, {1, 2}, map[1 := Rewriting(2, 1)], 1)
  {
    var first := Launch([], 1, 2, risks);
    var saved := first + [SaveState(1, Done)];
    actions := saved + [OpenLock(1, true)];
    Then(first, SaveState(1, Done), risks);
    Then(saved, OpenLock(1, true), risks);
  }

  /** The write fails: the first start kills its child, and before it cleans up the next one starts. */
  lemma TearLock(risks: Risks) returns (actions: seq<Action>)
    requires risks.tornLock
    ensures AboutToClean(Run(actions, risks))
  {
    var open := Rewrite(risks);
    var torn := open + [WriteLock(1, false)];
    Then(open, WriteLock(1, false), risks);
    Then(torn, Kill(1), risks);
    assert {1, 2} - {2} == {1};
    assert Run(torn + [Kill(1)], risks) == World(BadLock, State(2), {1}, {2}, {1, 2}, map[1 := Clearing], 1);
    actions := Launch(torn + [Kill(1)], 3, 4, risks);
  }

  /** The child dies while its lock file is empty: the next start takes over, and the first one, whose write goes
      to a file without a name, goes on to clean up the second one's. */
  lemma RewriteLate(risks: Risks) returns (actions: seq<Action>)
    requires risks.deadInRewrite
    ensures AboutToClean(Run(actions, risks))
  {
    var open := Rewrite(risks);
    Then(open, ApiDies(2), risks);
    assert {1, 2} - {2} == {1};
    assert Run(open + [ApiDies(2)], risks) == World(BadLock, State(2), {1}, {2}, {1, 2}, map[1 := Rewriting(2, 1)], 1);
    var second := Launch(open + [ApiDies(2)], 3, 4, risks);
    Then(second, WriteLock(1, true), risks);
    Then(second + [WriteLock(1, true)], SeesExit(1), risks);
    LateSteps(Run(second, risks));
    actions := second + [WriteLock(1, true)] + [SeesExit(1)];
  }

  lemma LateSteps(w: World)
    requires w.state == NoState && w.alive == {1, 3, 4} && w.apis == {2, 4} && w.used == {1, 2, 3, 4}
    requires At(w, 1, Rewriting(2, 1)) && w.lock == Lock(3, 0) && w.files == 2
    ensures AboutToClean(Step(Step(w, WriteLock(1, true)), SeesExit(1)))
  {
  }

  // ---------- how a start ends when nothing comes between ----------

  /** From its new process on, a start that meets no fault leaves the process running under both names, and is gone. */
  lemma StartCompletes(w: World, cli: int, child: int)
    requires At(w, cli, Spawned(child)) && w.lock == Lock(cli, 0) && Alive(w, child) && child != cli
    ensures var saved := Step(w, SaveState(cli, Done));
            var after := Step(Step(Step(saved, OpenLock(cli, true)), WriteLock(cli, true)), Ready(cli));
            && after.state == State(child) && after.lock == Lock(cli, child)
            && Alive(after, child) && !Alive(after, cli) && after.alive == w.alive - {cli} && after.apis == w.apis
            && after.starts == w.starts[cli := Gone]
  {
    var saved := Step(w, SaveState(cli, Done));
    assert saved == w.(state := State(child), starts := w.starts[cli := Saved(child)]);
    var open := Step(saved, OpenLock(cli, true));
    assert open == saved.(lock := BadLock, starts := saved.starts[cli := Rewriting(child, w.files)]);
    var written := Step(open, WriteLock(cli, true));
    assert written == open.(lock := Lock(cli, child), starts := open.starts[cli := Watching(child)]);
  }

  /** A start that finds its port taken leaves neither process nor files. */
  lemma ConflictCleansUp(w: World, cli: int, child: int)
    requires At(w, cli, Watching(child)) && child != cli
    ensures var after := Step(Step(Step(Step(w, PortConflict(cli)), Kill(cli)), ClearState(cli)), RemoveLock(cli));
            && after.state == NoState && after.lock == NoLock && after.alive == w.alive - {child} - {cli}
            && after.starts == w.starts[cli := Gone]
  {
  }

  /** So does a start whose process has exited by itself, and one that gives up before it spawns. */
  lemma ExitCleansUp(w: World, cli: int)
    requires At(w, cli, Holding) || (cli in w.starts && w.starts[cli].Watching? && !Alive(w, w.starts[cli].child))
    ensures var a := if At(w, cli, Holding) then GiveUp(cli) else SeesExit(cli);
            var after := Step(Step(Step(w, a), ClearState(cli)), RemoveLock(cli));
            after.state == NoState && after.lock == NoLock && after.alive == w.alive - {cli}
  {
  }

  /** A write that fails leaves the start to kill its child: with the state file whole or cut short, with the lock
      untouched or cut short. */
  lemma FailedWritesKill(w: World, cli: int, child: int)
    requires child != cli
    ensures At(w, cli, Spawned(child)) ==>
              && Step(Step(w, SaveState(cli, Write.Failed)), Kill(cli)).alive == w.alive - {child}
              && Step(w, SaveState(cli, Write.Failed)).state == State(child)
              && Step(Step(w, SaveState(cli, Torn)), Kill(cli)).alive == w.alive - {child}
              && Step(w, SaveState(cli, Torn)).state == BadState
    ensures At(w, cli, Saved(child)) ==>
              && Step(Step(w, OpenLock(cli, false)), Kill(cli)).alive == w.alive - {child}
              && Step(w, OpenLock(cli, false)).lock == w.lock
  {
  }

  /** Deaths take the one process and leave the files. */
  lemma DeathsLeaveFiles(w: World, pid: int)
    ensures pid in w.apis ==> Step(w, ApiDies(pid)) == w.(alive := w.alive - {pid})
    ensures pid in w.starts ==> Step(w, CliDies(pid)).alive == w.alive - {pid} && Step(w, CliDies(pid)).lock == w.lock
                                && Step(w, CliDies(pid)).state == w.state
  {
  }

  /** A start sees a live process in the state file, or behind the lock, and goes no further. */
  lemma LiveProcessIsSeen(w: World, cli: int, created: LockWrite)
    ensures At(w, cli, Looked) && w.lock.Lock? && Alive(w, w.lock.api) ==> Step(w, Acquire(cli, created)) == End(w, cli)
    ensures At(w, cli, Looking) && w.state.State? && Alive(w, w.state.pid) ==> Step(w, Look(cli)) == End(w, cli)
    ensures At(w, cli, Looking) && !(w.state.State? && Alive(w, w.state.pid)) ==>
              Step(w, Look(cli)) == w.(starts := w.starts[cli := Looked])
  {
  }
}
