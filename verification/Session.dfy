/** The session record and the processes it accounts for
    (cli/src/application/launcher.rs, cli/src/application/lifecycle.rs). */
module Session {
  import opened Wrappers

  const RUNTIME_GRACE: nat := 10_000
  const SUPERVISOR_GRACE: nat := 10_000
  const SIMULATION_SUPERVISOR_GRACE: nat := 15_000
  const REAP_INTERVAL: nat := 50

  datatype Mode = Native | Simulation

  datatype Stage = Runtimes | Supervisor

  function StopOrder(mode: Mode): seq<Stage> {
    if mode.Native? then [Runtimes, Supervisor] else [Supervisor, Runtimes]
  }

  datatype SessionRecord = SessionRecord(supervisor: nat, runtimes: seq<nat>)

  function Pids(record: SessionRecord): set<nat> {
    {record.supervisor} + Set(record.runtimes)
  }

  function Set(pids: seq<nat>): set<nat> {
    set p | p in pids
  }

  /** A file that does not parse is somebody's edit or an interrupted write. */
  datatype RecordFile = Readable(record: SessionRecord) | Unreadable

  datatype Kind = Term | Kill

  datatype Signal = Signal(pid: nat, kind: Kind)

  datatype Failure =
    | Refused | NoRecord | SignalFailed | Survived | SpawnFailed | NeverAnswered | NotWritten | Incomplete | NotRemoved

  function Signals(pids: seq<nat>, kind: Kind): seq<Signal> {
    seq(|pids|, i requires 0 <= i < |pids| => Signal(pids[i], kind))
  }

  /** What one termination sends: a prefix of every SIGTERM, or all of them and
      then a prefix of every SIGKILL. */
  ghost predicate Escalates(sent: seq<Signal>, pids: seq<nat>) {
    sent <= Signals(pids, Term) + Signals(pids, Kill)
  }

  /** `pid` was sent SIGTERM since `before`. */
  ghost predicate Terminated(pid: nat, before: seq<Signal>, signals: seq<Signal>) {
    exists i | |before| <= i < |signals| :: signals[i] == Signal(pid, Term)
  }

  ghost predicate Killed(pid: nat, before: seq<Signal>, signals: seq<Signal>) {
    exists i | |before| <= i < |signals| :: signals[i] == Signal(pid, Kill)
  }

  /** What was sent is one termination after the other. */
  ghost predicate InOrder(sent: seq<Signal>, first: seq<nat>, second: seq<nat>) {
    exists n | 0 <= n <= |sent| :: Escalates(sent[..n], first) && Escalates(sent[n..], second)
  }

  /** The runtimes go before the supervisor they talk through, but a simulation's
      supervisor goes first. */
  ghost predicate StagedFor(mode: Mode, record: SessionRecord, sent: seq<Signal>) {
    match mode
    case Native => InOrder(sent, record.runtimes, [record.supervisor])
    case Simulation => InOrder(sent, [record.supervisor], record.runtimes)
  }

  /** Without a fault every process was sent SIGTERM, and with one of them all of
      one stage were: neither stage is skipped for the other's failure. */
  ghost predicate BothTerminated(record: SessionRecord, faults: int, before: seq<Signal>, signals: seq<Signal>) {
    && (faults == 0 ==> forall p | p in Pids(record) :: Terminated(p, before, signals))
    && (faults < 2 ==>
          || Terminated(record.supervisor, before, signals)
          || forall p | p in record.runtimes :: Terminated(p, before, signals))
  }

  /** Every process of `left` but the supervisor was sent SIGTERM. */
  ghost predicate OnlyStray(supervisor: nat, left: set<nat>, before: seq<Signal>, signals: seq<Signal>) {
    forall p | p in left :: p == supervisor || Terminated(p, before, signals)
  }

  /** One root on one machine. Process groups are named by their leader's id and
      ids are not reused. */
  class Machine {
    var alive: set<nat>
    var used: set<nat>
    var now: nat
    var file: Option<RecordFile>
    /** Every process group any record has ever named. */
    ghost var recorded: set<nat>
    ghost var signals: seq<Signal>
    /** How many requests of this machine were not served so far. */
    ghost var faults: nat

    ghost predicate Valid()
      reads this
    {
      alive <= used && recorded <= used
    }

    /** The live recorded processes are the ones the record on disk names; with
        no record there are none. */
    ghost predicate Accounted()
      reads this
    {
      && Valid()
      && (file.None? ==> recorded * alive == {})
      && (file.Some? && file.value.Readable? ==> recorded * alive <= Pids(file.value.record))
    }

    constructor ()
      ensures Accounted() && file.None? && recorded == {} && alive == {} && signals == [] && faults == 0
    {
      faults := 0;
      alive, used, now, file := {}, {}, 0, None;
      recorded, signals := {}, [];
    }

    // ------------------------------------------------- the operating system

    /** A request that may not be served. */
    method Attempt() returns (ok: bool)
      modifies this`faults
      ensures faults == old(faults) + if ok then 0 else 1
    {
      ok := *;
      if !ok {
        faults := faults + 1;
      }
    }

    /** Any process may end at any time. */
    method Elapse(least: nat)
      modifies this`alive, this`now
      ensures alive <= old(alive) && old(now) + least <= now
    {
      var ended: set<nat> := *;
      var more :| 0 <= more;
      alive := alive - ended;
      now := now + least + more;
    }

    method IsRunning(pid: nat) returns (running: bool)
      modifies this`alive, this`now
      ensures alive <= old(alive) && old(now) <= now
      ensures running <==> pid in alive
    {
      Elapse(0);
      running := pid in alive;
    }

    method Spawn() returns (pid: Option<nat>)
      requires Valid()
      modifies this`alive, this`used, this`faults
      ensures Valid() && faults == old(faults) + if pid.Some? then 0 else 1
      ensures pid.None? ==> alive == old(alive) && used == old(used)
      ensures pid.Some? ==>
        pid.value !in old(used) && alive == old(alive) + {pid.value} && used == old(used) + {pid.value}
    {
      var ok := Attempt();
      if !ok {
        return None;
      }
      SomeIdIsUnused(used);
      var id: nat :| id !in used;
      alive := alive + {id};
      used := used + {id};
      pid := Some(id);
    }

    method SignalAll(pids: seq<nat>, kind: Kind) returns (ok: bool)
      modifies this`signals, this`faults
      ensures faults == old(faults) + if ok then 0 else 1
      ensures ok ==> signals == old(signals) + Signals(pids, kind)
      ensures exists n | 0 <= n <= |pids| :: signals == old(signals) + Signals(pids, kind)[..n]
    {
      var i := 0;
      while i < |pids|
        invariant i <= |pids| && faults == old(faults)
        invariant signals == old(signals) + Signals(pids, kind)[..i]
      {
        ok := Attempt();
        if !ok {
          return;
        }
        signals := signals + [Signal(pids[i], kind)];
        i := i + 1;
      }
      ok := true;
    }

    // ------------------------------------------------------------ stopping

    /** One pass that ends at the first process still running. */
    method AllExited(pids: seq<nat>) returns (gone: bool)
      modifies this`alive, this`now
      ensures alive <= old(alive) && old(now) <= now
      ensures gone <==> alive * Set(pids) == {}
    {
      var i := 0;
      while i < |pids|
        invariant i <= |pids|
        invariant alive <= old(alive) && old(now) <= now
        invariant forall k | 0 <= k < i :: pids[k] !in alive
      {
        var running := IsRunning(pids[i]);
        if running {
          assert pids[i] in alive * Set(pids);
          return false;
        }
        i := i + 1;
      }
      gone := true;
    }

    method AwaitExit(pids: seq<nat>, grace: nat) returns (gone: bool)
      modifies this`alive, this`now
      ensures alive <= old(alive)
      ensures gone <==> alive * Set(pids) == {}
      ensures old(now) + (if gone then 0 else grace) <= now
    {
      var deadline := now + grace;
      while true
        invariant alive <= old(alive) && old(now) <= now
        decreases deadline + REAP_INTERVAL - now
      {
        gone := AllExited(pids);
        if gone {
          return;
        }
        if now >= deadline {
          return;
        }
        Elapse(REAP_INTERVAL);
      }
    }

    /** Success means every process was observed gone; SIGKILL follows only a
        full round of SIGTERM and its grace. */
    method Terminate(pids: seq<nat>, grace: nat) returns (result: Result<(), Failure>)
      modifies this`alive, this`now, this`signals, this`faults
      ensures alive <= old(alive) && old(now) <= now
      // It fails only over a signal that was not served, or a process that outlived both.
      ensures result.Err? ==> result.error in {SignalFailed, Survived}
      ensures faults == old(faults) + if result == Err(SignalFailed) then 1 else 0
      ensures result.Ok? ==> alive * Set(pids) == {} && old(signals) + Signals(pids, Term) <= signals
      ensures old(signals) <= signals && Escalates(signals[|old(signals)|..], pids)
      ensures |signals| > |old(signals)| + |pids| ==> old(now) + grace <= now
      ensures result == Err(Survived) ==>
        && signals == old(signals) + Signals(pids, Term) + Signals(pids, Kill)
        && old(now) + 2 * grace <= now && alive * Set(pids) != {}
    {
      var ok := SignalAll(pids, Term);
      SentSoFar(old(signals), signals, pids);
      if !ok {
        return Err(SignalFailed);
      }
      var gone := AwaitExit(pids, grace);
      if gone {
        return Ok(());
      }
      ghost var termed := signals;
      ok := SignalAll(pids, Kill);
      EscalatedSoFar(old(signals), termed, signals, pids);
      if !ok {
        return Err(SignalFailed);
      }
      gone := AwaitExit(pids, grace);
      if gone {
        return Ok(());
      }
      result := Err(Survived);
    }

    method TerminateStage(record: SessionRecord, mode: Mode, stage: Stage) returns (ok: bool)
      modifies this`alive, this`now, this`signals, this`faults
      ensures alive <= old(alive) && old(now) <= now
      ensures ok ==> alive * Set(StagePids(record, stage)) == {}
      ensures old(faults) <= faults <= old(faults) + 1 && (ok ==> faults == old(faults))
      ensures faults == old(faults) ==> old(signals) + Signals(StagePids(record, stage), Term) <= signals
      ensures !ok && faults == old(faults) ==>
        && signals == old(signals) + Signals(StagePids(record, stage), Term) + Signals(StagePids(record, stage), Kill)
        && old(now) + 2 * Grace(mode, stage) <= now && StagePids(record, stage) != []
      ensures old(signals) <= signals && Escalates(signals[|old(signals)|..], StagePids(record, stage))
      // Nothing is killed before its grace is over.
      ensures |signals| > |old(signals)| + |StagePids(record, stage)| ==> old(now) + Grace(mode, stage) <= now
    {
      var result := Terminate(StagePids(record, stage), Grace(mode, stage));
      ok := result.Ok?;
    }

    /** Both stages run even when the first fails. */
    method TerminateBoth(record: SessionRecord, mode: Mode) returns (ok: bool)
      modifies this`alive, this`now, this`signals, this`faults
      ensures alive <= old(alive) && old(now) <= now && old(signals) <= signals && old(faults) <= faults
      ensures ok ==> alive * Pids(record) == {} && faults == old(faults)
      ensures !ok && faults == old(faults) ==>
        && old(now) + 2 * RUNTIME_GRACE <= now
        && exists p | p in Pids(record) :: Killed(p, old(signals), signals)
      // Each stage that was not sent all its SIGTERMs met a fault of its own.
      ensures BothTerminated(record, faults - old(faults), old(signals), signals)
      ensures StagedFor(mode, record, signals[|old(signals)|..])
    {
      ghost var start := signals;
      var first := TerminateStage(record, mode, StopOrder(mode)[0]);
      ghost var middle := signals;
      var second := TerminateStage(record, mode, StopOrder(mode)[1]);
      StagesInOrder(start, middle, signals,
                    StagePids(record, StopOrder(mode)[0]), StagePids(record, StopOrder(mode)[1]));
      StageTerminated(start, start, middle, signals, StagePids(record, StopOrder(mode)[0]));
      StageTerminated(start, middle, signals, signals, StagePids(record, StopOrder(mode)[1]));
      ok := first && second;
      if ok {
        StagesCover(record, mode, alive);
      } else if faults == old(faults) {
        ghost var late := StagePids(record, StopOrder(mode)[if first then 1 else 0]);
        AllWereKilled(start, if first then middle else start, if first then signals else middle, signals, late);
        assert late[0] in Pids(record);
      }
    }

    /** The record goes only when neither stage failed. */
    method StopSession(record: SessionRecord, mode: Mode) returns (result: Result<(), Failure>)
      requires Accounted() && recorded * alive <= Pids(record)
      modifies this`alive, this`now, this`signals, this`file, this`faults
      ensures Accounted() && alive <= old(alive)
      ensures result.Ok? ==> file.None? && alive * Pids(record) == {}
      ensures result.Err? ==> file == old(file) && (result.error.Incomplete? || result.error.NotRemoved?)
      // It fails only over a request that was not served, or processes that were
      // sent SIGKILL and outlived twice their grace.
      ensures old(faults) <= faults && (result.Ok? ==> faults == old(faults))
      ensures result.Err? && faults == old(faults) ==>
        && result.error.Incomplete? && old(now) + 2 * RUNTIME_GRACE <= now
        && exists p | p in Pids(record) :: Killed(p, old(signals), signals)
      // Both stages run, whatever became of the first, and in the mode's order.
      ensures old(signals) <= signals && StagedFor(mode, record, signals[|old(signals)|..])
      ensures BothTerminated(record, faults - old(faults), old(signals), signals)
    {
      var ended := TerminateBoth(record, mode);
      if !ended {
        return Err(Incomplete);
      }
      var removed := Attempt();
      if !removed {
        return Err(NotRemoved);
      }
      file := None;
      result := Ok(());
    }

    /** `phoxal stop`, from any terminal. */
    method StopCommand() returns (result: Result<(), Failure>)
      requires Accounted()
      modifies this`alive, this`now, this`signals, this`file, this`faults
      ensures Accounted() && alive <= old(alive)
      ensures result.Ok? ==> file.None? && recorded * alive == {}
      ensures result.Err? ==> file == old(file)
      ensures result == Err(NoRecord) <==> old(file).None? || old(file).value.Unreadable?
      // With a readable record and every request served, it fails only over a
      // process that outlived its SIGKILL.
      ensures result.Err? && result.error != NoRecord && faults == old(faults) ==>
        exists p | p in Pids(old(file).value.record) :: Killed(p, old(signals), signals)
    {
      if file.None? || file.value.Unreadable? {
        return Err(NoRecord);
      }
      result := StopSession(file.value.record, Native);
    }

    // ------------------------------------------------------------ starting

    /** Every runtime or an error; on an error each child there is was sent
        SIGTERM, and no record names it. */
    method Launch(count: nat) returns (result: Result<seq<nat>, Failure>)
      requires Accounted()
      modifies this`alive, this`used, this`signals, this`faults
      ensures faults == old(faults) + if result.Ok? then 0 else 1
      ensures Accounted() && old(alive) <= alive && old(used) <= used
      ensures result.Ok? ==> |result.value| == count && Set(result.value) == alive - old(alive)
      ensures result.Err? ==> result.error.SpawnFailed?
      ensures result.Err? ==> forall p | p in alive - old(alive) :: Terminated(p, old(signals), signals)
      ensures result.Ok? ==> signals == old(signals)
      ensures forall p | p in alive - old(alive) :: p !in old(used)
      ensures old(signals) <= signals
    {
      var launched: seq<nat> := [];
      while |launched| < count
        invariant |launched| <= count && Accounted() && signals == old(signals) && faults == old(faults)
        invariant old(alive) <= alive && old(used) <= used
        invariant Set(launched) == alive - old(alive)
        invariant forall p | p in launched :: p !in old(used)
        decreases count - |launched|
      {
        var child := Spawn();
        if child.None? {
          Abandon(launched);
          return Err(SpawnFailed);
        }
        SetGrows(launched, child.value);
        launched := launched + [child.value];
      }
      result := Ok(launched);
    }

    /** SIGTERM each child, whatever the signalling of the others did. */
    method Abandon(launched: seq<nat>)
      modifies this`signals
      ensures old(signals) <= signals
      ensures forall p | p in launched :: Terminated(p, old(signals), signals)
    {
      for k := 0 to |launched|
        invariant old(signals) <= signals
        invariant forall j | 0 <= j < k :: Terminated(launched[j], old(signals), signals)
      {
        ghost var before := signals;
        signals := signals + [Signal(launched[k], Term)];
        assert signals[|before|] == Signal(launched[k], Term);
        forall j | 0 <= j < k
          ensures Terminated(launched[j], old(signals), signals)
        {
          assert Terminated(launched[j], old(signals), before);
          var i :| |old(signals)| <= i < |before| && before[i] == Signal(launched[j], Term);
          assert signals[i] == Signal(launched[j], Term);
        }
      }
    }

    /** `start` until its record is written. */
    method StartSession(runtimes: nat) returns (result: Result<SessionRecord, Failure>)
      requires Accounted()
      modifies this
      ensures Accounted()
      // A record is written only where there is none of any kind.
      ensures old(file).Some? ==>
        result == Err(Refused) && file == old(file) && alive == old(alive) && signals == old(signals)
      ensures result.Ok? ==>
        old(file).None? && file == Some(Readable(result.value)) && recorded * alive <= Pids(result.value)
      // It succeeds exactly where there is no record and every request is served.
      ensures result.Ok? <==> old(file).None? && faults == old(faults)
      // The record names every process this start created and no other.
      ensures result.Ok? ==> |result.value.runtimes| == runtimes && Pids(result.value) * old(used) == {}
      ensures result.Ok? ==> forall p | p in alive && p !in old(used) :: p in Pids(result.value) && p in recorded
      ensures result.Err? ==> file == old(file) || (result.error.NotWritten? && file == Some(Unreadable))
      ensures result.Err? ==> recorded == old(recorded)
      // A start that fails leaves what it created in no record: its supervisor
      // unsignalled, its runtimes signalled or, once it was writing, not even that.
      ensures result.Err? && !result.error.NotWritten? ==>
        exists supervisor :: OnlyStray(supervisor, alive - old(used), old(signals), signals)
      ensures result.Ok? || result.error.NotWritten? ==> signals == old(signals)
    {
      if file.Some? {
        assert OnlyStray(0, alive - old(used), old(signals), signals);
        return Err(Refused);
      }
      var supervisor := Spawn();
      if supervisor.None? {
        assert OnlyStray(0, alive - old(used), old(signals), signals);
        return Err(SpawnFailed);
      }
      Elapse(0);
      var answered := Attempt();
      if !answered {
        assert OnlyStray(supervisor.value, alive - old(used), old(signals), signals);
        return Err(NeverAnswered);
      }
      var launched := Launch(runtimes);
      if launched.Err? {
        assert OnlyStray(supervisor.value, alive - old(used), old(signals), signals);
        return Err(launched.error);
      }
      var record := SessionRecord(supervisor.value, launched.value);
      var created := Attempt();
      if !created {
        return Err(NotWritten);
      }
      file := Some(Unreadable);
      var written := Attempt();
      if !written {
        return Err(NotWritten);
      }
      file := Some(Readable(record));
      recorded := recorded + Pids(record);
      result := Ok(record);
    }

    /** A start whose runtimes do not appear in time ends its own session. */
    method StartCommand(runtimes: nat, mode: Mode, ready: bool) returns (result: Result<SessionRecord, Failure>)
      requires Accounted()
      modifies this
      ensures Accounted()
      ensures result.Ok? ==> ready && file == Some(Readable(result.value))
      ensures old(file).Some? ==> result == Err(Refused) && file == old(file)
      // Served throughout it leaves a live session, or none when it was not ready,
      // unless one of its processes outlives SIGKILL.
      ensures old(file).None? && ready ==> (result.Ok? <==> faults == old(faults))
      ensures old(file).None? && !ready && faults == old(faults) ==>
        file.None? || exists p :: Killed(p, old(signals), signals)
      ensures file.None? ==> recorded * alive == {}
    {
      result := StartSession(runtimes);
      if result.Ok? && !ready {
        ghost var before := signals;
        var stopped := StopSession(result.value, mode);
        if stopped.Err? && faults == old(faults) {
          KilledSinceEarlier(result.value, old(signals), before, signals);
        }
        result := Err(NeverAnswered);
      }
    }
  }

  function Grace(mode: Mode, stage: Stage): nat {
    match stage
    case Runtimes => RUNTIME_GRACE
    case Supervisor => if mode.Native? then SUPERVISOR_GRACE else SIMULATION_SUPERVISOR_GRACE
  }

  function StagePids(record: SessionRecord, stage: Stage): seq<nat> {
    match stage
    case Runtimes => record.runtimes
    case Supervisor => [record.supervisor]
  }

  lemma StagesCover(record: SessionRecord, mode: Mode, alive: set<nat>)
    requires alive * Set(StagePids(record, StopOrder(mode)[0])) == {}
    requires alive * Set(StagePids(record, StopOrder(mode)[1])) == {}
    ensures alive * Pids(record) == {}
  {
    assert record.supervisor in Set([record.supervisor]);
    forall p | p in alive ensures p !in Pids(record) {
      if p in Set(record.runtimes) {
        assert p in alive * Set(record.runtimes);
      }
      if p == record.supervisor {
        assert p in alive * Set([record.supervisor]);
      }
    }
  }

  lemma {:induction false} SomeIdIsUnused(used: set<nat>)
    ensures exists id: nat :: id !in used
  {
    var top := Above(used);
    assert top !in used;
  }

  lemma {:induction false} Above(used: set<nat>) returns (top: nat)
    ensures forall id | id in used :: id < top
  {
    top := 0;
    if used != {} {
      var id :| id in used;
      var below := Above(used - {id});
      top := if id < below then below else id + 1;
      assert forall k | k in used :: k == id || k in used - {id};
    }
  }

  lemma StagesInOrder(start: seq<Signal>, middle: seq<Signal>, end: seq<Signal>, first: seq<nat>, second: seq<nat>)
    requires start <= middle <= end
    requires Escalates(middle[|start|..], first) && Escalates(end[|middle|..], second)
    ensures InOrder(end[|start|..], first, second)
  {
    var sent, n := end[|start|..], |middle| - |start|;
    assert sent[..n] == middle[|start|..] && sent[n..] == end[|middle|..];
  }

  lemma StageTerminated(start: seq<Signal>, before: seq<Signal>, after: seq<Signal>, end: seq<Signal>, pids: seq<nat>)
    requires start <= before && after <= end
    ensures before + Signals(pids, Term) <= after ==> forall p | p in pids :: Terminated(p, start, end)
  {
    if before + Signals(pids, Term) <= after {
      forall p | p in pids
        ensures Terminated(p, start, end)
      {
        var i :| 0 <= i < |pids| && pids[i] == p;
        assert end[|before| + i] == (before + Signals(pids, Term))[|before| + i] == Signal(p, Term);
      }
    }
  }

  lemma AllWereKilled(start: seq<Signal>, before: seq<Signal>, after: seq<Signal>, end: seq<Signal>, pids: seq<nat>)
    requires start <= before && after == before + Signals(pids, Term) + Signals(pids, Kill)
    requires after <= end && pids != []
    ensures Killed(pids[0], start, end)
  {
    assert end[|before| + |pids|] == Signal(pids[0], Kill);
  }

  lemma KilledSinceEarlier(record: SessionRecord, start: seq<Signal>, before: seq<Signal>, end: seq<Signal>)
    requires start <= before && exists p | p in Pids(record) :: Killed(p, before, end)
    ensures exists p :: Killed(p, start, end)
  {
    var p :| p in Pids(record) && Killed(p, before, end);
    var i :| |before| <= i < |end| && end[i] == Signal(p, Kill);
    assert Killed(p, start, end);
  }

  lemma SetGrows(pids: seq<nat>, pid: nat)
    ensures Set(pids + [pid]) == Set(pids) + {pid}
  {
  }

  lemma SentSoFar(before: seq<Signal>, after: seq<Signal>, pids: seq<nat>)
    requires exists n | 0 <= n <= |pids| :: after == before + Signals(pids, Term)[..n]
    ensures before <= after && Escalates(after[|before|..], pids) && |after| <= |before| + |pids|
  {
  }

  lemma EscalatedSoFar(before: seq<Signal>, termed: seq<Signal>, after: seq<Signal>, pids: seq<nat>)
    requires termed == before + Signals(pids, Term)
    requires exists n | 0 <= n <= |pids| :: after == termed + Signals(pids, Kill)[..n]
    ensures before <= after && Escalates(after[|before|..], pids)
  {
    var n :| 0 <= n <= |pids| && after == termed + Signals(pids, Kill)[..n];
    assert after[|before|..] == Signals(pids, Term) + Signals(pids, Kill)[..n];
  }
}
