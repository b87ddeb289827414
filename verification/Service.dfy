/** `nebula start` and `nebula stop` as they run one after the other: the lock file, the state file
    and the processes. Any process may die between any two steps, the CLI itself at each of the points that
    `Crash` lists; PIDs are not reused. */
module Service {

  /** The api_lock file; a partly written one does not parse. A PID of 0 means "not set". */
  datatype LockFile = NoLock | BadLock | Lock(owner: int, api: int)

  datatype StateFile = NoState | BadState | State(pid: int)

  /** How creating the lock file ends: written, cut short, or not created at all. */
  datatype LockWrite = Written | CutShort | NotCreated

  /** Failures that a start may run into on its way. */
  datatype Faults = Faults(
    runtimeDir: bool, lockWrite: LockWrite, serverDir: bool, spawn: bool, saveState: bool, updateLock: bool,
    ready: bool, portConflict: bool)

  /** Where a CLI process may be killed. The points between the spawn and the saved state, where no file names the
      child, are not among them. */
  datatype Crash =
    | Never
    | InCleanUp
    | AfterCleanUp
    | AfterCreate
    | AfterAcquire
    | AfterSave
    | InRewrite
    | AfterUpdate
    | BeforeKill
    | AfterKill
    | BeforeLockRemoval

  datatype StartResult = AlreadyRunning(pid: int) | Started(pid: int) | NoRuntimeDir | Failed | Crashed

  datatype StopResult = NotRunning | Refused | LockUnreadable | InProgress | Cleaned | Stopped(pid: int) | StopCrashed

  datatype Acquisition = Acquired | Held(pid: int) | LockError | Died

  // ---------- taking the lock, when nothing dies on the way ----------

  predicate Runs(alive: set<int>, pid: int) {
    pid > 0 && pid in alive
  }

  /** The process that `acquireAPILock` finds behind an existing lock, or 0. */
  function Behind(lock: LockFile, state: StateFile, alive: set<int>): int {
    var api := if lock.Lock? && Runs(alive, lock.api) then lock.api else 0;
    var holder := if api == 0 && lock.Lock? && Runs(alive, lock.owner) then lock.owner else api;
    if holder == 0 && state.State? then state.pid else holder
  }

  /** The outcome and the two files after `acquireAPILock`. */
  function Acquiring(lock: LockFile, state: StateFile, alive: set<int>, self: int, write: LockWrite)
    : (Acquisition, LockFile, StateFile)
  {
    if lock != NoLock && Runs(alive, Behind(lock, state, alive)) then (Held(Behind(lock, state, alive)), lock, state)
    else
      var cleaned := if lock == NoLock then state else NoState;
      match write
      case Written => (Acquired, Lock(self, 0), cleaned)
      case CutShort => (LockError, BadLock, cleaned)
      case NotCreated => (LockError, NoLock, cleaned)
  }

  // ---------- the machine ----------

  class Host {
    var lock: LockFile
    var state: StateFile
    var alive: set<int>
    /** Every API process a start has spawned so far. */
    var apis: set<int>
    var used: set<int>

    /** No API process other than p is alive. */
    ghost predicate OnlyLive(p: int)
      reads this
    {
      forall q :: q in apis && q in alive ==> q == p
    }

    ghost predicate NoneLive()
      reads this
    {
      forall q :: q in apis ==> q !in alive
    }

    ghost predicate Named(p: int)
      reads this
    {
      state == State(p) || (lock.Lock? && lock.api == p)
    }

    /** The files hold PIDs of API processes and of the lock's owner, and PIDs are positive. */
    ghost predicate FilesOk()
      reads this
    {
      && (state.State? ==> state.pid in apis)
      && (lock.Lock? ==> (lock.api == 0 || lock.api in apis) && lock.owner in used)
      && apis <= used && alive <= used && (forall p :: p in used ==> p > 0)
    }

    /** At most one API process is alive, and a live one is named by the lock or the state file. */
    ghost predicate Valid()
      reads this
    {
      (forall p :: p in apis && p in alive ==> OnlyLive(p) && Named(p)) && FilesOk()
    }

    constructor ()
      ensures Valid() && NoneLive() && lock == NoLock && state == NoState
    {
      lock, state, alive, apis, used := NoLock, NoState, {}, {}, {};
    }

    /** Other processes may die, unless the time is a quiet one. */
    method Deaths(quiet: bool)
      requires Valid()
      modifies this`alive
      ensures Valid() && alive <= old(alive) && (quiet ==> alive == old(alive))
    {
      var survivors: set<int> :| survivors <= alive && (quiet ==> survivors == alive);
      alive := survivors;
    }

    function ProcessAlive(pid: int): bool
      reads this
    {
      Runs(alive, pid)
    }

    /** The system starts a process under a PID that was never used before. */
    method Spawn(pid: int)
      requires Valid() && pid > 0 && pid !in used
      modifies this`used, this`alive
      ensures Valid() && used == old(used) + {pid} && alive == old(alive) + {pid}
    {
      used, alive := used + {pid}, alive + {pid};
    }

    /** SIGTERM, a while to exit, then SIGKILL. */
    method StopProcessIfAlive(pid: int, quiet: bool)
      requires Valid()
      modifies this`alive
      ensures Valid() && alive <= old(alive) && pid !in alive && (quiet ==> alive == old(alive) - {pid})
    {
      Deaths(quiet);
      alive := alive - {pid};
    }

    /** Removes the state file and then the lock, if the CLI gets that far. */
    method CleanUp(crash: Crash) returns (done: bool)
      requires Valid() && NoneLive()
      modifies this`state, this`lock
      ensures Valid() && state == NoState
      ensures done <==> !crash.InCleanUp?
      ensures lock == if done then NoLock else old(lock)
    {
      state := NoState;
      if crash.InCleanUp? {
        return false;
      }
      lock := NoLock;
      return true;
    }

    /** `acquireAPILock`: create the lock exclusively, or look behind a lock that exists. When nothing dies
        meanwhile it does what `Acquiring` says. */
    method AcquireLock(self: int, write: LockWrite, crash: Crash, quiet: bool) returns (r: Acquisition)
      requires Valid() && self in used && (state.State? ==> !ProcessAlive(state.pid))
      modifies this`lock, this`state, this`alive
      ensures Valid() && alive <= old(alive) && (quiet ==> alive == old(alive)) && (crash.Never? ==> !r.Died?)
      ensures r.Acquired? ==> lock == Lock(self, 0) && NoneLive()
      ensures r.Held? ==> lock == old(lock) && state == old(state) && r.pid in old(alive)
      ensures r.LockError? ==> !write.Written? && lock == (if write.CutShort? then BadLock else NoLock) && NoneLive()
      ensures r.Died? ==> NoneLive()
      ensures alive == old(alive) && !r.Died? ==>
              (r, lock, state) == Acquiring(old(lock), old(state), old(alive), self, write)
    {
      var attempt := 0;
      while attempt < 2
        invariant 0 <= attempt <= 2 && Valid() && alive <= old(alive) && (quiet ==> alive == old(alive))
        invariant state.State? ==> !ProcessAlive(state.pid)
        invariant attempt == 0 ==> lock == old(lock) && state == old(state)
        invariant attempt > 0 ==> lock == NoLock && state == NoState && old(lock) != NoLock
        invariant attempt > 0 && alive == old(alive) ==> !Runs(alive, Behind(old(lock), old(state), alive))
        invariant attempt < 2
      {
        Deaths(quiet);
        if lock.NoLock? {
          match write {
            case NotCreated =>
              return LockError;
            case CutShort =>
              lock := BadLock;
              return LockError;
            case Written =>
              lock := BadLock;
              if crash.AfterCreate? {
                return Died;
              }
              lock := Lock(self, 0);
              return Acquired;
          }
        }
        var pid, owner := 0, 0;
        if lock.Lock? {
          pid, owner := lock.api, lock.owner;
        }
        if pid > 0 && !ProcessAlive(pid) {
          pid := 0;
        }
        if pid <= 0 && owner > 0 && ProcessAlive(owner) {
          pid := owner;
        }
        if pid <= 0 && state.State? {
          pid := state.pid;
        }
        if pid > 0 && ProcessAlive(pid) {
          return Held(pid);
        }
        var done := CleanUp(crash);
        if !done || crash.AfterCleanUp? {
          return Died;
        }
        attempt := attempt + 1;
      }
    }

    /** The clean-up of a start that did not succeed; `named` says whether the state file names its child. */
    method Undo(pid: int, named: bool, crash: Crash) returns (r: StartResult)
      requires FilesOk() && OnlyLive(pid) && (named ==> state == State(pid)) && (!named ==> !crash.BeforeKill?)
      modifies this`lock, this`state, this`alive
      ensures Valid() && (r == Failed || r == Crashed)
      ensures r == Failed ==> NoneLive() && lock == NoLock && state == NoState
      ensures !crash.BeforeKill? ==> NoneLive()
      ensures crash.Never? ==> r == Failed
    {
      if crash.BeforeKill? {
        return Crashed;
      }
      alive := alive - {pid};
      if crash.AfterKill? {
        return Crashed;
      }
      state := NoState;
      if crash.BeforeLockRemoval? {
        return Crashed;
      }
      lock := NoLock;
      return Failed;
    }

    /** `runStartCmd`, from its process to its end. In a quiet time without a crash the answer follows from the files,
        the processes and the faults. */
    method Start(self: int, child: int, faults: Faults, crash: Crash, quiet: bool) returns (r: StartResult)
      requires Valid() && self > 0 && child > 0 && self != child && self !in used && child !in used
      modifies this
      ensures Valid() && old(apis) <= apis && old(used) <= used && self !in alive
      ensures r.AlreadyRunning? || r.NoRuntimeDir? ==> lock == old(lock) && state == old(state) && apis == old(apis)
      ensures r.AlreadyRunning? ==> r.pid in used
      ensures r.Started? ==> r.pid == child && OnlyLive(child) && state == State(child) && lock == Lock(self, child)
      ensures r.Failed? ==> NoneLive() && ((lock == NoLock && state == NoState) || faults.lockWrite != Written)
      ensures crash.Never? ==> !r.Crashed?
      ensures r.NoRuntimeDir? <==> faults.runtimeDir
      ensures quiet && crash.Never? && !faults.runtimeDir ==>
        && (forall p :: p in old(apis) && p in old(alive) ==> r == AlreadyRunning(p))
        && (old(NoneLive()) && old(lock).Lock? && Runs(old(alive), old(lock).owner) ==>
              r == AlreadyRunning(old(lock).owner))
        && (old(NoneLive()) && !(old(lock).Lock? && Runs(old(alive), old(lock).owner)) ==>
              if faults.lockWrite == Written && !faults.serverDir && !faults.spawn && !faults.saveState
                 && !faults.updateLock && (faults.ready || !faults.portConflict)
              then r == Started(child) && child in alive
              else r == Failed)
    {
      Spawn(self);
      if faults.runtimeDir {
        r := NoRuntimeDir;
      } else {
        r := RunStart(self, child, faults, crash, quiet);
      }
      alive := alive - {self};
    }

    method RunStart(self: int, child: int, faults: Faults, crash: Crash, quiet: bool) returns (r: StartResult)
      requires Valid() && self in used && child > 0 && child !in used && self !in apis
      requires !(lock.Lock? && lock.owner == self)
      modifies this
      ensures Valid() && old(apis) <= apis && old(used) <= used && apis <= old(apis) + {child}
      ensures r.AlreadyRunning? ==> lock == old(lock) && state == old(state) && apis == old(apis) && r.pid in used
      ensures r.Started? ==> r.pid == child && OnlyLive(child) && state == State(child) && lock == Lock(self, child)
      ensures r.Failed? ==> NoneLive() && ((lock == NoLock && state == NoState) || faults.lockWrite != Written)
      ensures !r.NoRuntimeDir? && (crash.Never? ==> !r.Crashed?)
      ensures quiet && crash.Never? ==>
        && (forall p :: p in old(apis) && p in old(alive) ==> r == AlreadyRunning(p))
        && (old(NoneLive()) && old(lock).Lock? && Runs(old(alive), old(lock).owner) ==>
              r == AlreadyRunning(old(lock).owner))
        && (old(NoneLive()) && !(old(lock).Lock? && Runs(old(alive), old(lock).owner)) ==>
              if faults.lockWrite == Written && !faults.serverDir && !faults.spawn && !faults.saveState
                 && !faults.updateLock && (faults.ready || !faults.portConflict)
              then r == Started(child) && child in alive
              else r == Failed)
    {
      Deaths(quiet);
      if state.State? && ProcessAlive(state.pid) {
        return AlreadyRunning(state.pid);
      }
      var a := AcquireLock(self, faults.lockWrite, crash, quiet);
      match a {
        case Held(pid) => return AlreadyRunning(pid);
        case LockError => return Failed;
        case Died => return Crashed;
        case Acquired =>
      }
      if crash.AfterAcquire? {
        return Crashed;
      }
      if faults.serverDir || faults.spawn {
        r := Undo(0, false, if crash.BeforeKill? then Never else crash);
        return;
      }
      r := Launch(self, child, faults, crash, quiet);
    }

    /** The part of `runStartCmd` from the spawn on, with the lock in hand. */
    method Launch(self: int, child: int, faults: Faults, crash: Crash, quiet: bool) returns (r: StartResult)
      requires Valid() && NoneLive() && lock == Lock(self, 0) && child > 0 && child !in used
      modifies this
      ensures Valid() && apis == old(apis) + {child} && used == old(used) + {child}
      ensures r.Started? || r.Failed? || r.Crashed?
      ensures r.Started? ==> r.pid == child && OnlyLive(child) && state == State(child) && lock == Lock(self, child)
      ensures r.Failed? ==> NoneLive() && lock == NoLock && state == NoState
      ensures crash.Never? ==> !r.Crashed?
      ensures quiet && crash.Never? ==>
        if !faults.saveState && !faults.updateLock && (faults.ready || !faults.portConflict)
        then r == Started(child) && child in alive else r == Failed
    {
      var pid := child;
      Spawn(pid);
      apis := apis + {pid};
      if faults.saveState {
        // the state file may be cut short, or whole with the pid file missing
        var whole := *;
        state := if whole then State(pid) else BadState;
        r := Undo(pid, whole, if crash.BeforeKill? && !whole then Never else crash);
        return;
      }
      state := State(pid);
      if crash.AfterSave? {
        return Crashed;
      }
      if faults.updateLock {
        // the lock may be as before, or cut short
        if * {
          lock := BadLock;
        }
        r := Undo(pid, true, crash);
        return;
      }
      lock := BadLock;
      if crash.InRewrite? {
        return Crashed;
      }
      lock := Lock(self, pid);
      if crash.AfterUpdate? {
        return Crashed;
      }
      Deaths(quiet);
      if !faults.ready {
        if faults.portConflict || !ProcessAlive(pid) {
          r := Undo(pid, true, crash);
          return;
        }
      }
      return Started(pid);
    }

    /** Which process a stop goes for: a live API process if there is one. */
    method ChooseTarget(quiet: bool) returns (pid: int)
      requires Valid() && lock.Lock?
      modifies this`alive
      ensures Valid() && alive <= old(alive) && (quiet ==> alive == old(alive))
      ensures OnlyLive(pid) && (pid == 0 || pid in apis)
      ensures pid == 0 <==> lock.api == 0 && !state.State?
    {
      pid := lock.api;
      if state.State? && state.pid > 0 {
        if pid <= 0 {
          pid := state.pid;
        } else if pid == state.pid {
        } else if !ProcessAlive(pid) {
          pid := state.pid;
        } else if ProcessAlive(state.pid) {
          pid := state.pid;
        }
      }
      Deaths(quiet);
    }

    /** `runStopCmd`. Behind a readable lock a stop that is not cut off leaves no API process alive; in a quiet time
        the answer follows from the files and the processes. */
    method Stop(crash: Crash, quiet: bool) returns (r: StopResult)
      requires Valid()
      modifies this
      ensures Valid() && apis == old(apis) && alive <= old(alive)
      ensures r.Stopped? || r.Cleaned? ==> NoneLive() && lock == NoLock && state == NoState
      ensures r.NotRunning? ==> state == NoState && lock == NoLock && NoneLive()
      ensures r.Refused? || r.LockUnreadable? || r.InProgress? ==> lock == old(lock) && state == old(state)
      ensures r.LockUnreadable? <==> old(lock) == BadLock
      ensures r.Refused? <==> old(lock) == NoLock && old(state).State? && old(state).pid in old(alive)
      ensures r.NotRunning? <==> old(lock) == NoLock && !(old(state).State? && old(state).pid in old(alive))
      ensures r.InProgress? ==> NoneLive() && Runs(alive, old(lock).owner)
      ensures r.Stopped? ==> r.pid in old(apis) && r.pid in old(alive)
      ensures crash.Never? ==> !r.StopCrashed? && (old(lock).Lock? ==> NoneLive())
      ensures quiet && crash.Never? && old(lock).Lock? ==>
        && (forall p :: p in old(apis) && p in old(alive) ==> r == Stopped(p) && alive == old(alive) - {p})
        && (old(NoneLive()) ==>
              && alive == old(alive)
              && r == if old(lock).api == 0 && !old(state).State? && Runs(old(alive), old(lock).owner)
                      then InProgress else Cleaned)
    {
      if lock.BadLock? {
        return LockUnreadable;
      }
      if lock.NoLock? {
        if !state.State? || state.pid <= 0 || !ProcessAlive(state.pid) {
          state := NoState;
          return NotRunning;
        }
        return Refused;
      }
      var pid := ChooseTarget(quiet);
      if pid <= 0 {
        if lock.owner > 0 && ProcessAlive(lock.owner) {
          return InProgress;
        }
        var done := CleanUp(crash);
        return if done then Cleaned else StopCrashed;
      }
      if !ProcessAlive(pid) {
        var done := CleanUp(crash);
        return if done then Cleaned else StopCrashed;
      }
      if crash.BeforeKill? {
        return StopCrashed;
      }
      StopProcessIfAlive(pid, quiet);
      if crash.AfterKill? {
        return StopCrashed;
      }
      state := NoState;
      if crash.BeforeLockRemoval? {
        return StopCrashed;
      }
      lock := NoLock;
      return Stopped(pid);
    }
  }
}
