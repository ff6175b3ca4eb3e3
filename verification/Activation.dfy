/** The install and the rollback of a systemd host, step by step
    (cli/src/application/installation.rs).

    Every step is told how it goes by a `Fault`, so a contract ranges over every
    pattern of step failures. Lock acquisition, the supervisor-lock probe and the
    readings of the active link are steps too. The lock of an install is dropped
    before its start, its observation and its undo; what another install does
    there meanwhile is outside the contracts of whole operations and inside
    those of `UndoInstall`, which hold of any state. */
module Activation {
  import opened Wrappers
  import ReleaseNames

  type Name = string

  /** A step works, fails without effect, fails part-way, or takes effect and
      then fails (a rename whose directory sync fails). */
  datatype Fault = Works | Before | Midway | After

  predicate Effective(f: Fault) {
    f.Works? || f.After?
  }

  datatype Content = Whole | Partial

  /** Whose runtime units a directory or systemd holds. */
  datatype UnitSet = NoUnits | UnitsOf(release: Name) | Mixed

  /** `Running(r)`: the supervisor process was spawned from release `r`. */
  datatype Service = Stopped | Running(release: Name)

  datatype ActivateFaults = ActivateFaults(switch: Fault, regenerate: Fault, reload: Fault)

  datatype UndoFaults = UndoFaults(
    stop: Fault, activate: ActivateFaults, start: Fault, answers: bool, unlink: Fault, syncParent: Fault,
    discardCandidate: Fault, discardRelease: Fault)

  datatype InstallFaults = InstallFaults(
    clear: Fault, prepared: bool, activeReadable: bool, stop: Fault, locked: bool, discard: Fault, restart: Fault,
    previousReadable: bool, rename: Fault, syncReleases: Fault, activate: ActivateFaults, start: Fault,
    answers: bool, undo: UndoFaults)

  datatype RollbackFaults = RollbackFaults(
    stop: Fault, locked: bool, activate: ActivateFaults, start: Fault, answers: bool, undo: UndoFaults)

  predicate Activates(f: ActivateFaults) {
    f.switch.Works? && f.regenerate.Works? && f.reload.Works?
  }

  datatype Outcome =
    | Activated
    | AlreadyExists
    | NotCleared
    | NotPrepared
    | NoActiveRelease
    | ActiveUnreadable
    | NotStopped
    | LockRefused
    | PreviousUnreadable
    | Undone(restored: bool, discarded: bool)

  /** The restore's own switch, or its removal of the link, had no effect. */
  predicate LinkNotRestored(u: UndoFaults, previous: Option<Name>) {
    if previous.Some? then !Effective(u.activate.switch) else !Effective(u.unlink)
  }

  /** The installation got as far as the new release's symlink. */
  predicate Switched(f: InstallFaults) {
    && f.clear.Works? && f.prepared && f.activeReadable && f.stop.Works? && f.locked && f.previousReadable
    && f.rename.Works? && f.syncReleases.Works? && Effective(f.activate.switch)
  }

  predicate Failed(f: InstallFaults) {
    !(Activates(f.activate) && f.start.Works? && f.answers)
  }

  /** The one way to strand the link: a failed activation that had switched it,
      a restore that did not move it back, and a discard that then ran. */
  predicate Stranded(f: InstallFaults, previous: Option<Name>) {
    Switched(f) && Failed(f) && LinkNotRestored(f.undo, previous) && !f.undo.discardRelease.Before?
  }

  /** The new release's supervisor was started, and the restore's own stop,
      whose failure is ignored, did not stop it. */
  predicate StillRunning(f: InstallFaults) {
    Switched(f) && Activates(f.activate) && Effective(f.start) && !Effective(f.undo.stop)
  }

  /** The first refusal an install meets; `Activated` when it meets none before
      the rename. */
  function Expected(taken: bool, f: InstallFaults): Outcome {
    if taken then AlreadyExists
    else if !f.clear.Works? then NotCleared
    else if !f.prepared then NotPrepared
    else if !f.activeReadable then ActiveUnreadable
    else if !f.stop.Works? then NotStopped
    else if !f.locked then LockRefused
    else if !f.previousReadable then PreviousUnreadable
    else Activated
  }

  /** Every refusal has its cause, with all before it in order, and only a new name
      with every step in order gets to the rename. */
  lemma InstallsAreRefusedExactly(taken: bool, f: InstallFaults)
    ensures match Expected(taken, f)
      case AlreadyExists => taken
      case NotCleared => !taken && !f.clear.Works?
      case NotPrepared => !taken && f.clear.Works? && !f.prepared
      case ActiveUnreadable => !taken && f.prepared && !f.activeReadable
      case NotStopped => !taken && f.prepared && f.activeReadable && !f.stop.Works?
      case LockRefused => !taken && f.activeReadable && f.stop.Works? && !f.locked
      case PreviousUnreadable => !taken && f.stop.Works? && f.locked && !f.previousReadable
      case Activated =>
        && !taken && f.clear.Works? && f.prepared && f.activeReadable && f.stop.Works?
        && f.locked && f.previousReadable
      case _ => false
  {
  }

  predicate IsWhole(releases: map<Name, Content>, name: Name) {
    name in releases && releases[name] == Whole
  }

  /** The link is absent or selects one whole release directory. */
  predicate SafeLink(releases: map<Name, Content>, active: Option<Name>) {
    active.None? || IsWhole(releases, active.value)
  }

  /** A rollback selects by name alone, and switches before it reads. */
  predicate LandsOnDebris(releases: map<Name, Content>, target: Name, f: RollbackFaults) {
    f.stop.Works? && f.locked && Effective(f.activate.switch) && !IsWhole(releases, target)
  }

  /** No step of a rollback fails. */
  predicate RollsBack(f: RollbackFaults) {
    f.stop.Works? && f.locked && Activates(f.activate) && f.start.Works? && f.answers
  }

  /** Where the link is after a restore, and after a failed install. */
  function LinkAfterRestore(active: Option<Name>, previous: Option<Name>, u: UndoFaults): Option<Name> {
    if LinkNotRestored(u, previous) then active else previous
  }

  function LinkAfterUndo(active: Option<Name>, name: Name, f: InstallFaults): Option<Name> {
    LinkAfterRestore(if Switched(f) then Some(name) else active, active, f.undo)
  }

  /** The release index after a discard of `name`. */
  function Discarded(releases: map<Name, Content>, name: Name, f: Fault): map<Name, Content> {
    if name !in releases || f.Before? then releases
    else if f.Midway? then releases[name := Partial]
    else releases - {name}
  }

  /** The release index after a failed install was undone. */
  function Leftover(releases: map<Name, Content>, name: Name, f: InstallFaults): map<Name, Content> {
    Discarded(if Effective(f.rename) then releases[name := Whole] else releases, name, f.undo.discardRelease)
  }

  /** The supervisor after a restore of `previous`, its stop being ignored. */
  function ServiceAfterRestore(service: Service, previous: Option<Name>, u: UndoFaults): Service {
    var stopped := if Effective(u.stop) then Stopped else service;
    if previous.Some? && Activates(u.activate) && Effective(u.start) && stopped.Stopped? then Running(previous.value)
    else stopped
  }

  /** A host's release index and link between two deployments. */
  datatype Index = Index(releases: map<Name, Content>, active: Option<Name>)

  class Host {
    var releases: map<Name, Content>
    var candidates: map<Name, Content>
    var active: Option<Name>
    var units: UnitSet
    var loaded: UnitSet
    var service: Service
    /** Every state after an effect so far was crash-safe. */
    ghost var safeSoFar: bool

    ghost predicate CrashSafe()
      reads this
    {
      SafeLink(releases, active)
    }

    ghost function At(): Index
      reads this
    {
      Index(releases, active)
    }

    /** The link, both unit sets and the answering supervisor are `release`. */
    ghost predicate AllOn(release: Name)
      reads this
    {
      active == Some(release) && units == loaded == UnitsOf(release) && service == Running(release)
    }

    constructor (releases: map<Name, Content>, active: Option<Name>, units: UnitSet, service: Service)
      ensures this.releases == releases && candidates == map[] && this.active == active
      ensures this.units == loaded == units && this.service == service
      ensures safeSoFar == CrashSafe()
    {
      this.releases := releases;
      this.candidates := map[];
      this.active := active;
      this.units := units;
      this.loaded := units;
      this.service := service;
      this.safeSoFar := SafeLink(releases, active);
    }

    // ------------------------------------------------------------ service

    method Stop(f: Fault) returns (ok: bool)
      modifies this`service
      ensures ok == f.Works?
      ensures service == if Effective(f) then Stopped else old(service)
    {
      if Effective(f) {
        service := Stopped;
      }
      ok := f.Works?;
    }

    /** Starting a unit that is running is a no-op. */
    method Start(f: Fault) returns (ok: bool)
      requires active.Some?
      modifies this`service
      ensures ok == f.Works?
      ensures service == if Effective(f) && old(service).Stopped? then Running(active.value) else old(service)
    {
      if Effective(f) && service.Stopped? {
        service := Running(active.value);
      }
      ok := f.Works?;
    }

    method Observe(answers: bool) returns (ok: bool)
      ensures ok == (answers && service.Running?)
    {
      ok := answers && service.Running?;
    }

    // --------------------------------------------------------------- disk

    /** `atomic_symlink_switch`: one rename replaces the link. */
    method SwitchLink(target: Name, f: Fault) returns (ok: bool)
      modifies this`active, this`safeSoFar
      ensures ok == f.Works?
      ensures active == if Effective(f) then Some(target) else old(active)
      ensures safeSoFar == (old(safeSoFar) && CrashSafe())
    {
      if Effective(f) {
        active := Some(target);
      }
      safeSoFar := safeSoFar && CrashSafe();
      ok := f.Works?;
    }

    method RemoveLink(f: Fault) returns (ok: bool)
      modifies this`active, this`safeSoFar
      ensures ok == f.Works?
      ensures active == if Effective(f) then None else old(active)
      ensures safeSoFar == (old(safeSoFar) && CrashSafe())
    {
      if Effective(f) {
        active := None;
      }
      safeSoFar := safeSoFar && CrashSafe();
      ok := f.Works?;
    }

    method Regenerate(release: Name, f: Fault) returns (ok: bool)
      modifies this`units
      ensures ok == f.Works?
      ensures units == if Effective(f) then UnitsOf(release) else if f.Midway? then Mixed else old(units)
    {
      if f.Midway? {
        units := Mixed;
      } else if Effective(f) {
        units := UnitsOf(release);
      }
      ok := f.Works?;
    }

    method Reload(f: Fault) returns (ok: bool)
      modifies this`loaded
      ensures ok == f.Works?
      ensures loaded == if Effective(f) then units else old(loaded)
    {
      if Effective(f) {
        loaded := units;
      }
      ok := f.Works?;
    }

    /** `discard_failed_release`: the tree is removed entry by entry. */
    method DiscardRelease(name: Name, f: Fault) returns (ok: bool)
      modifies this`releases, this`safeSoFar
      ensures ok == f.Works?
      ensures releases == Discarded(old(releases), name, f)
      ensures safeSoFar == (old(safeSoFar) && old(CrashSafe()) &&
        (active == Some(name) && name in old(releases) ==> f.Before?))
    {
      ok := f.Works?;
      safeSoFar := safeSoFar && CrashSafe();
      if name in releases && !f.Before? {
        releases := releases[name := Partial];
        safeSoFar := safeSoFar && CrashSafe();
        if !f.Midway? {
          releases := releases - {name};
          safeSoFar := safeSoFar && CrashSafe();
        }
      }
    }

    method DiscardCandidate(name: Name, f: Fault) returns (ok: bool)
      modifies this`candidates
      ensures ok == f.Works?
      ensures candidates == Discarded(old(candidates), name, f)
    {
      ok := f.Works?;
      if name in candidates && !f.Before? {
        candidates := candidates[name := Partial];
        if !f.Midway? {
          candidates := candidates - {name};
        }
      }
    }

    // --------------------------------------------------------- transaction

    /** The link, the units and the reload are one step. */
    method Activate(release: Name, f: ActivateFaults) returns (ok: bool)
      modifies this`active, this`units, this`loaded, this`safeSoFar
      ensures ok == Activates(f)
      ensures active == if Effective(f.switch) then Some(release) else old(active)
      ensures safeSoFar == (old(safeSoFar) && CrashSafe())
      ensures ok ==> units == loaded == UnitsOf(release)
      ensures units ==
        if f.switch.Works? && Effective(f.regenerate) then UnitsOf(release)
        else if f.switch.Works? && f.regenerate.Midway? then Mixed else old(units)
      ensures loaded ==
        if f.switch.Works? && f.regenerate.Works? && Effective(f.reload) then UnitsOf(release) else old(loaded)
    {
      ok := SwitchLink(release, f.switch);
      if ok {
        ok := Regenerate(release, f.regenerate);
        if ok {
          ok := Reload(f.reload);
        }
      }
    }

    method Restore(previous: Option<Name>, u: UndoFaults) returns (ok: bool)
      modifies this`active, this`units, this`loaded, this`service, this`safeSoFar
      ensures active == LinkAfterRestore(old(active), previous, u)
      ensures service == ServiceAfterRestore(old(service), previous, u)
      ensures safeSoFar == (old(safeSoFar) && CrashSafe())
      ensures ok && previous.Some? ==> active == previous && units == loaded == UnitsOf(previous.value)
      ensures previous.Some? ==> (ok <==> Activates(u.activate) && u.start.Works? && u.answers)
      ensures previous.None? ==> (ok <==> u.unlink.Works? && u.syncParent.Works?) && units == old(units)
    {
      var _ := Stop(u.stop);
      if previous.Some? {
        ok := Activate(previous.value, u.activate);
        if ok {
          ok := Start(u.start);
          if ok {
            ok := Observe(u.answers);
          }
        }
      } else {
        ok := RemoveLink(u.unlink);
        ok := ok && u.syncParent.Works?;
      }
    }

    /** A restore and then the discards, which run whether or not it worked. It holds no lock, so
        the host may be in any state, and `previous` need not be there any more. */
    method UndoInstall(previous: Option<Name>, name: Name, withCandidate: bool, u: UndoFaults)
      returns (restored: bool, discarded: bool)
      modifies this
      ensures active == LinkAfterRestore(old(active), previous, u)
      ensures service == ServiceAfterRestore(old(service), previous, u)
      ensures restored && previous.Some? ==> active == previous && units == loaded == UnitsOf(previous.value)
      ensures previous.Some? ==> (restored <==> Activates(u.activate) && u.start.Works? && u.answers)
      ensures restored ==> !LinkNotRestored(u, previous)
      ensures discarded ==> u.discardRelease.Works?
      ensures releases == Discarded(old(releases), name, u.discardRelease)
      ensures candidates ==
        if withCandidate then Discarded(old(candidates), name, u.discardCandidate) else old(candidates)
      ensures discarded && withCandidate ==> u.discardCandidate.Works?
      // Safe throughout exactly when the link it ends on was whole, and was not
      // the release it discards.
      ensures safeSoFar <==>
        && old(safeSoFar) && SafeLink(old(releases), active)
        && (active == Some(name) && name in old(releases) ==> u.discardRelease.Before?)
    {
      restored := Restore(previous, u);
      discarded := true;
      if withCandidate {
        discarded := DiscardCandidate(name, u.discardCandidate);
      }
      var removed := DiscardRelease(name, u.discardRelease);
      discarded := discarded && removed;
    }

    /** Rename the candidate into the index and make it active. */
    method PublishAndActivate(name: Name, f: InstallFaults) returns (ok: bool)
      requires CrashSafe()
      requires name !in releases && name in candidates && candidates[name] == Whole
      modifies this`releases, this`candidates, this`active, this`units, this`loaded, this`safeSoFar
      ensures ok <==> f.rename.Works? && f.syncReleases.Works? && Activates(f.activate)
      ensures CrashSafe() && safeSoFar == old(safeSoFar)
      ensures releases == if Effective(f.rename) then old(releases)[name := Whole] else old(releases)
      ensures candidates == if Effective(f.rename) then old(candidates) - {name} else old(candidates)
      ensures active ==
        if f.rename.Works? && f.syncReleases.Works? && Effective(f.activate.switch) then Some(name) else old(active)
      ensures ok ==> units == loaded == UnitsOf(name)
    {
      if Effective(f.rename) {
        releases := releases[name := candidates[name]];
        candidates := candidates - {name};
        safeSoFar := safeSoFar && CrashSafe();
      }
      ok := f.rename.Works? && f.syncReleases.Works?;
      if ok {
        ok := Activate(name, f.activate);
      }
    }

    /** `install_archive` from the rename on, where every failure is undone. */
    method CommitRelease(name: Name, f: InstallFaults) returns (outcome: Outcome)
      requires CrashSafe() && service.Stopped?
      requires name !in releases && name in candidates && candidates[name] == Whole
      requires f.clear.Works? && f.prepared && f.activeReadable && f.stop.Works? && f.locked && f.previousReadable
      modifies this
      ensures outcome.Activated? || outcome.Undone?
      ensures outcome.Activated? <==> f.rename.Works? && f.syncReleases.Works? && !Failed(f)
      ensures outcome.Activated? ==> AllOn(name) && releases == old(releases)[name := Whole]
      ensures outcome.Undone? ==>
        && active == LinkAfterUndo(old(active), name, f)
        && releases == Leftover(old(releases), name, f)
      ensures outcome == Undone(true, true) ==> releases == old(releases) && active == old(active)
      ensures outcome == Undone(true, true) && old(active).Some? ==>
        && units == loaded == UnitsOf(old(active).value)
        && service == Running(if StillRunning(f) then name else old(active).value)
      ensures safeSoFar <==> old(safeSoFar) && !Stranded(f, old(active))
    {
      var previous := active;
      var ok := PublishAndActivate(name, f);
      if !ok {
        var restored, discarded := UndoInstall(previous, name, true, f.undo);
        return Undone(restored, discarded);
      }
      ok := Start(f.start);
      if ok {
        ok := Observe(f.answers);
      }
      if !ok {
        var restored, discarded := UndoInstall(previous, name, false, f.undo);
        return Undone(restored, discarded);
      }
      outcome := Activated;
    }

    /** `install_archive` up to the rename: unpack, stop, lock, and read the link
        again. `Activated` is no refusal. */
    method PrepareInstall(name: Name, f: InstallFaults) returns (refusal: Outcome)
      requires CrashSafe()
      modifies this`candidates, this`service
      ensures refusal == Expected(name in releases, f)
      ensures refusal.Activated? ==> service == Stopped && candidates == old(candidates)[name := Whole]
      // The supervisor after each refusal: it may have been stopped for nothing.
      ensures refusal.AlreadyExists? || refusal.NotCleared? ==> service == old(service)
      ensures refusal.NotPrepared? || refusal.ActiveUnreadable? ==> service == old(service)
      ensures refusal.NotStopped? ==> service == if f.stop.After? then Stopped else old(service)
      ensures refusal.LockRefused? ==>
        service == if active.Some? && f.discard.Works? && Effective(f.restart) then Running(active.value) else Stopped
      ensures refusal.PreviousUnreadable? ==> service == Stopped
      // And the candidate: two refusals leave it behind, whatever the faults.
      ensures refusal.AlreadyExists? ==> candidates == old(candidates)
      ensures refusal.NotCleared? ==> candidates == Discarded(old(candidates), name, f.clear)
      ensures refusal.ActiveUnreadable? || refusal.PreviousUnreadable? ==> candidates == old(candidates)[name := Whole]
      ensures refusal.NotPrepared? ==> candidates == Discarded(old(candidates)[name := Partial], name, f.discard)
      ensures refusal.NotStopped? || refusal.LockRefused? ==>
        candidates == Discarded(old(candidates)[name := Whole], name, f.discard)
    {
      if name in releases {
        return AlreadyExists;
      }
      var ok := DiscardCandidate(name, f.clear);
      if !ok {
        return NotCleared;
      }
      candidates := candidates[name := Partial];
      if !f.prepared {
        var _ := DiscardCandidate(name, f.discard);
        return NotPrepared;
      }
      candidates := candidates[name := Whole];
      refusal := StopAndLock(name, f);
    }

    /** From the unpacked candidate to the held lock. */
    method StopAndLock(name: Name, f: InstallFaults) returns (refusal: Outcome)
      requires CrashSafe() && name in candidates && candidates[name] == Whole && f.clear.Works? && f.prepared
      modifies this`candidates, this`service
      ensures refusal == Expected(false, f)
      ensures service == match refusal
        case ActiveUnreadable => old(service)
        case NotStopped => if f.stop.After? then Stopped else old(service)
        case LockRefused =>
          if active.Some? && f.discard.Works? && Effective(f.restart) then Running(active.value) else Stopped
        case _ => Stopped
      ensures candidates ==
        if refusal.NotStopped? || refusal.LockRefused? then Discarded(old(candidates), name, f.discard)
        else old(candidates)
    {
      if !f.activeReadable {
        return ActiveUnreadable;
      }
      var before := active;
      var ok := Stop(f.stop);
      if !ok {
        var _ := DiscardCandidate(name, f.discard);
        return NotStopped;
      }
      if !f.locked {
        var discarded := DiscardCandidate(name, f.discard);
        if discarded && before.Some? {
          var _ := Start(f.restart);
        }
        return LockRefused;
      }
      if !f.previousReadable {
        return PreviousUnreadable;
      }
      refusal := Activated;
    }

    /** `install_archive`, from the point where the archive's name is known. */
    method InstallArchive(name: Name, f: InstallFaults) returns (outcome: Outcome)
      requires CrashSafe()
      modifies this
      // Which outcome it is.
      ensures !Expected(name in old(releases), f).Activated? ==> outcome == Expected(name in old(releases), f)
      ensures Expected(name in old(releases), f).Activated? ==>
        && (outcome.Activated? || outcome.Undone?)
        && (outcome.Activated? <==> f.rename.Works? && f.syncReleases.Works? && !Failed(f))
      // Success: everything is on the new release, and nothing else changed.
      ensures outcome.Activated? ==> AllOn(name) && releases == old(releases)[name := Whole] && name !in old(releases)
      // A complete undo: everything is back, the supervisor too unless the
      // ignored stop left the new one running.
      ensures outcome == Undone(true, true) ==> releases == old(releases) && active == old(active)
      ensures outcome == Undone(true, true) && old(active).Some? ==>
        && units == loaded == UnitsOf(old(active).value)
        && service == Running(if StillRunning(f) then name else old(active).value)
      // Any undo: where exactly the link and the release index are.
      ensures outcome.Undone? ==>
        && name !in old(releases)
        && active == LinkAfterUndo(old(active), name, f)
        && releases == Leftover(old(releases), name, f)
      // The crash points, and the one exception.
      ensures safeSoFar <==> old(safeSoFar) && !(name !in old(releases) && Stranded(f, old(active)))
      // A refusal leaves the link, the units and the release index alone, but
      // not always the supervisor.
      ensures !outcome.Activated? && !outcome.Undone? ==>
        active == old(active) && units == old(units) && loaded == old(loaded) && releases == old(releases)
      ensures outcome.AlreadyExists? || outcome.NotCleared? ==> service == old(service)
      ensures outcome.NotPrepared? || outcome.ActiveUnreadable? ==> service == old(service)
      ensures outcome.NotStopped? ==> service == if f.stop.After? then Stopped else old(service)
      ensures outcome.LockRefused? ==>
        service == if old(active).Some? && f.discard.Works? && Effective(f.restart) then Running(old(active).value)
                   else Stopped
      ensures outcome.PreviousUnreadable? ==> service == Stopped
      // Two refusals leave the candidate behind, whatever the faults.
      ensures outcome.ActiveUnreadable? || outcome.PreviousUnreadable? ==> candidates == old(candidates)[name := Whole]
    {
      outcome := PrepareInstall(name, f);
      if outcome.Activated? {
        outcome := CommitRelease(name, f);
      }
    }

    /** `rollback_release`, once the target has been selected. */
    method RollbackRelease(target: Name, f: RollbackFaults) returns (outcome: Outcome)
      requires CrashSafe()
      modifies this
      // Which outcome it is.
      ensures outcome.Activated? || outcome.NotStopped? || outcome.NoActiveRelease? || outcome.Undone?
      ensures outcome.NoActiveRelease? <==> old(active).None?
      ensures outcome.NotStopped? <==> old(active).Some? && !f.stop.Works?
      ensures outcome.Activated? <==> old(active).Some? && RollsBack(f)
      ensures releases == old(releases) && candidates == old(candidates)
      ensures outcome.Activated? ==> AllOn(target)
      ensures outcome.Undone? ==> outcome.discarded
      ensures outcome.Undone? && outcome.restored ==>
        && active == old(active) && units == loaded == UnitsOf(old(active).value)
        && service == Running(
             if f.locked && Activates(f.activate) && Effective(f.start) && !Effective(f.undo.stop) then target
             else old(active).value)
      ensures active == old(active) || active == Some(target)
      ensures outcome.NotStopped? ==>
        && active == old(active) && units == old(units)
        && service == if f.stop.After? then Stopped else old(service)
      ensures outcome.NoActiveRelease? ==>
        && safeSoFar == old(safeSoFar) && service == old(service)
        && active == old(active) && units == old(units) && loaded == old(loaded)
      ensures outcome.Undone? ==>
        active == LinkAfterRestore(
          if f.locked && Effective(f.activate.switch) then Some(target) else old(active), old(active), f.undo)
      // Safe throughout exactly when the target it switches to is whole.
      ensures old(active).Some? ==> (safeSoFar <==> old(safeSoFar) && !LandsOnDebris(old(releases), target, f))
    {
      if active.None? {
        return NoActiveRelease;
      }
      var previous := active;
      var ok := Stop(f.stop);
      if !ok {
        return NotStopped;
      }
      ok := f.locked;
      if ok {
        ok := Activate(target, f.activate);
      }
      if ok {
        ok := Start(f.start);
      }
      if ok {
        ok := Observe(f.answers);
      }
      if !ok {
        var restored := Restore(previous, f.undo);
        return Undone(restored, true);
      }
      outcome := Activated;
    }
  }

  // ------------------------------------------------------- sequences of them

  datatype Deployment =
    | Install(name: Name, archive: InstallFaults)
    | Rollback(target: Name, faults: RollbackFaults)

  /** This deployment passes a point where the link is not safe. */
  predicate Exposes(at: Index, d: Deployment) {
    match d
    case Install(name, f) => name !in at.releases && Stranded(f, at.active)
    case Rollback(target, f) => at.active.Some? && target in at.releases && LandsOnDebris(at.releases, target, f)
  }

  /** Where a deployment leads; a refused one leaves everything. */
  function After(at: Index, d: Deployment): Index {
    match d
    case Install(name, f) =>
      if !Expected(name in at.releases, f).Activated? then at
      else if f.rename.Works? && f.syncReleases.Works? && !Failed(f) then
        Index(at.releases[name := Whole], Some(name))
      else Index(Leftover(at.releases, name, f), LinkAfterUndo(at.active, name, f))
    case Rollback(target, f) =>
      if at.active.None? || target !in at.releases || !f.stop.Works? then at
      else
        var switched := if f.locked && Effective(f.activate.switch) then Some(target) else at.active;
        at.(active := if RollsBack(f) then switched else LinkAfterRestore(switched, at.active, f.undo))
  }

  function Reached(start: Index, steps: seq<Deployment>): Index {
    if steps == [] then start else After(Reached(start, steps[..|steps| - 1]), steps[|steps| - 1])
  }

  /** No deployment of the sequence is exposed where it happens. */
  predicate Unexposed(start: Index, steps: seq<Deployment>) {
    steps == [] ||
    var before := steps[..|steps| - 1];
    Unexposed(start, before) && !Exposes(Reached(start, before), steps[|steps| - 1])
  }

  lemma {:induction false} UnexposedEverywhere(start: Index, steps: seq<Deployment>, i: nat)
    requires Unexposed(start, steps) && i < |steps|
    ensures !Exposes(Reached(start, steps[..i]), steps[i])
  {
    if i < |steps| - 1 {
      UnexposedEverywhere(start, steps[..|steps| - 1], i);
      assert steps[..|steps| - 1][..i] == steps[..i];
    }
  }

  lemma {:induction false} ExposedSomewhere(start: Index, steps: seq<Deployment>) returns (i: nat)
    requires !Unexposed(start, steps)
    ensures i < |steps| && Exposes(Reached(start, steps[..i]), steps[i])
  {
    i := |steps| - 1;
    if !Unexposed(start, steps[..i]) {
      var j := ExposedSomewhere(start, steps[..i]);
      assert steps[..i][..j] == steps[..j];
      i := j;
    }
  }

  lemma OneMore(start: Index, steps: seq<Deployment>, d: Deployment)
    ensures Reached(start, steps + [d]) == After(Reached(start, steps), d)
    ensures Unexposed(start, steps + [d]) <==> Unexposed(start, steps) && !Exposes(Reached(start, steps), d)
  {
    assert (steps + [d])[..|steps|] == steps;
  }

  predicate AllWhole(releases: map<Name, Content>) {
    forall name | name in releases :: releases[name] == Whole
  }

  /** No install's discard of its own release stops part-way. */
  predicate CleanDiscards(steps: seq<Deployment>) {
    forall i | 0 <= i < |steps| :: steps[i].Install? ==> !steps[i].archive.undo.discardRelease.Midway?
  }

  lemma {:induction false} IndexStaysWhole(start: Index, steps: seq<Deployment>)
    requires AllWhole(start.releases) && CleanDiscards(steps)
    ensures AllWhole(Reached(start, steps).releases)
  {
    if steps != [] {
      IndexStaysWhole(start, steps[..|steps| - 1]);
    }
  }

  /** While no discard stops part-way the index holds whole releases only, and a
      stranding install is the one exposure left. */
  lemma CleanDiscardsLeaveNoDebris(start: Index, steps: seq<Deployment>, i: nat)
    requires AllWhole(start.releases) && CleanDiscards(steps) && i < |steps|
    ensures AllWhole(Reached(start, steps[..i]).releases)
    ensures Exposes(Reached(start, steps[..i]), steps[i]) <==>
      && steps[i].Install? && steps[i].name !in Reached(start, steps[..i]).releases
      && Stranded(steps[i].archive, Reached(start, steps[..i]).active)
  {
    IndexStaysWhole(start, steps[..i]);
  }

  /** An install whose supervisor does not answer and whose discard stops. */
  function HalfDiscarded(name: Name): Deployment {
    Install(name, SmoothInstall(false, CLEAN_UNDO.(discardRelease := Midway)))
  }

  lemma AfterHalfADiscard(at: Index, name: Name)
    requires name !in at.releases
    ensures After(at, HalfDiscarded(name)) == Index(at.releases[name := Partial], at.active)
  {
    assert at.releases[name := Whole][name := Partial] == at.releases[name := Partial];
  }

  lemma AfterASmoothInstall(at: Index, name: Name)
    requires name !in at.releases
    ensures After(at, Install(name, SmoothInstall(true, CLEAN_UNDO))) == Index(at.releases[name := Whole], Some(name))
  {
  }

  /** A half-done discard, an install and a rollback to what was left: exposed. */
  lemma DebrisIsExposed(start: Index, failed: Name, newest: Name, f: RollbackFaults) returns (steps: seq<Deployment>)
    requires failed !in start.releases && newest !in start.releases && failed != newest
    requires f.stop.Works? && f.locked && Effective(f.activate.switch)
    ensures |steps| == 3 && steps[2] == Rollback(failed, f) && !Unexposed(start, steps)
  {
    AfterHalfADiscard(start, failed);
    AfterASmoothInstall(Index(start.releases[failed := Partial], start.active), newest);
    var one := [HalfDiscarded(failed)];
    var two := one + [Install(newest, SmoothInstall(true, CLEAN_UNDO))];
    OneMore(start, [], one[0]);
    assert [] + one == one;
    OneMore(start, one, two[1]);
    OneMore(start, two, Rollback(failed, f));
    steps := two + [Rollback(failed, f)];
  }

  /** Installs and rollbacks one after the other, up to the first that leaves the
      link unsafe. The host ends where the steps lead, and every crash point on
      the way was safe exactly when no deployment was exposed. */
  method Deploy(host: Host, steps: seq<Deployment>) returns (done: nat)
    requires host.CrashSafe() && host.safeSoFar
    modifies host
    ensures done <= |steps| && (done == |steps| || !host.CrashSafe())
    ensures host.At() == Reached(old(host.At()), steps[..done])
    ensures host.safeSoFar <==> Unexposed(old(host.At()), steps[..done])
  {
    done := 0;
    ghost var start := host.At();
    while done < |steps|
      invariant done <= |steps| && host.CrashSafe()
      invariant host.At() == Reached(start, steps[..done])
      invariant host.safeSoFar <==> Unexposed(start, steps[..done])
    {
      OneMore(start, steps[..done], steps[done]);
      assert steps[..done + 1] == steps[..done] + [steps[done]];
      var safe := Perform(host, steps[done]);
      done := done + 1;
      if !safe {
        return;
      }
    }
  }

  /** A rollback asks for a release of the index. */
  method Perform(host: Host, d: Deployment) returns (safe: bool)
    requires host.CrashSafe()
    modifies host
    ensures safe == host.CrashSafe()
    ensures host.At() == After(old(host.At()), d)
    ensures host.safeSoFar <==> old(host.safeSoFar) && !Exposes(old(host.At()), d)
  {
    match d {
      case Install(name, f) =>
        var _ := host.InstallArchive(name, f);
      case Rollback(target, f) =>
        if target in host.releases {
          var _ := host.RollbackRelease(target, f);
        }
    }
    safe := SafeLink(host.releases, host.active);
  }

  // --------------------------------------------------- the exceptions are real

  const SMOOTH: ActivateFaults := ActivateFaults(Works, Works, Works)

  const CLEAN_UNDO: UndoFaults := UndoFaults(Works, SMOOTH, Works, true, Works, Works, Works, Works)

  /** Nothing fails but, when `answers` is false, the new supervisor's answer. */
  function SmoothInstall(answers: bool, undo: UndoFaults): InstallFaults {
    InstallFaults(Works, true, true, Works, true, Works, Works, true, Works, Works, SMOOTH, Works, answers, undo)
  }

  /** A restore whose own switch fails is enough to strand the link. */
  method AnInstallStrandsTheLink(previous: Name, name: Name) returns (host: Host)
    requires previous != name
    ensures fresh(host) && host.active == Some(name) && name !in host.releases && !host.safeSoFar
  {
    host := new Host(map[previous := Whole], Some(previous), UnitsOf(previous), Running(previous));
    var undo := CLEAN_UNDO.(activate := SMOOTH.(switch := Before));
    assert Stranded(SmoothInstall(false, undo), Some(previous));
    var _ := host.InstallArchive(name, SmoothInstall(false, undo));
  }

  /** An install fails and its discard stops part-way; the next one works; then
      the default rollback selects what the first one left, whatever the names.
      Every rollback that gets as far as its switch points the link there. */
  method ADefaultRollbackLandsOnDebris(oldest: Name, failed: Name, newest: Name, f: RollbackFaults)
    returns (host: Host, selected: Result<string, ReleaseNames.RollbackError>)
    requires ReleaseNames.ValidReleaseName(oldest)
    requires ReleaseNames.ValidReleaseName(failed)
    requires ReleaseNames.ValidReleaseName(newest)
    requires ReleaseNames.Less(oldest, failed) && ReleaseNames.Less(failed, newest)
    requires f.stop.Works? && f.locked && Effective(f.activate.switch)
    ensures fresh(host) && selected == Ok(failed)
    ensures failed in host.releases && host.releases[failed] == Partial && !host.safeSoFar
  {
    InOrder(oldest, failed, newest);
    host := new Host(map[oldest := Whole], Some(oldest), UnitsOf(oldest), Running(oldest));
    var halfway := CLEAN_UNDO.(discardRelease := Midway);
    var _ := host.InstallArchive(failed, SmoothInstall(false, halfway));
    assert host.active == Some(oldest) && host.releases == map[oldest := Whole, failed := Partial];
    var _ := host.InstallArchive(newest, SmoothInstall(true, CLEAN_UNDO));
    assert host.active == Some(newest) && host.releases[failed] == Partial;
    selected := ReleaseNames.SelectRollbackRelease(None, host.active, [oldest, failed, newest]);
    assert failed in [oldest, failed, newest] && newest in [oldest, failed, newest];
    var _ := host.RollbackRelease(failed, f);
  }

  /** A rollback undoes an install: with nothing failing the default choice is the
      release before, and the robot is on it again as if it had not left it. */
  method AnInstallIsRolledBack(host: Host, previous: Name, name: Name, listing: seq<Name>)
    returns (selected: Result<string, ReleaseNames.RollbackError>)
    requires host.CrashSafe() && host.safeSoFar && host.AllOn(previous) && name !in host.releases
    requires previous in listing && name in listing && ReleaseNames.Less(previous, name)
    requires ReleaseNames.ValidReleaseName(previous) && ReleaseNames.ValidReleaseName(name)
    // Nothing was installed between the two.
    requires forall other | other in listing && ReleaseNames.Less(other, name) ::
      other == previous || ReleaseNames.Less(other, previous)
    modifies host
    ensures selected == Ok(previous) && host.AllOn(previous) && host.safeSoFar
    ensures host.releases == old(host.releases)[name := Whole] && name !in old(host.releases)
  {
    var installed := host.InstallArchive(name, SmoothInstall(true, CLEAN_UNDO));
    assert installed.Activated?;
    selected := ReleaseNames.SelectRollbackRelease(None, host.active, listing);
    if selected.Ok? && selected.value != previous {
      ReleaseNames.LessIsTransitive(previous, selected.value, previous);
      ReleaseNames.LessIsStrict(previous);
    }
    var _ := host.RollbackRelease(previous, RollbackFaults(Works, true, SMOOTH, Works, true, CLEAN_UNDO));
  }

  lemma InOrder(oldest: Name, failed: Name, newest: Name)
    requires ReleaseNames.Less(oldest, failed) && ReleaseNames.Less(failed, newest)
    ensures oldest != failed && failed != newest && oldest != newest
    ensures ReleaseNames.Less(oldest, newest)
    ensures !ReleaseNames.Less(newest, newest) && !ReleaseNames.Less(failed, oldest)
  {
    ReleaseNames.LessIsTransitive(oldest, failed, newest);
    ReleaseNames.LessIsStrict(oldest);
    ReleaseNames.LessIsStrict(failed);
    ReleaseNames.LessIsStrict(newest);
    if ReleaseNames.Less(failed, oldest) {
      ReleaseNames.LessIsTransitive(oldest, failed, oldest);
    }
  }

  /** Two installs overlap, which the dropped lock allows: the second reads the
      first one's release as its previous one, the first is undone and discards
      it, and the second's undo switches the link there before it finds no bundle. */
  method OverlappingInstallsStrandTheLink(previous: Name, first: Name, second: Name) returns (host: Host)
    requires previous != first && first != second && previous != second
    ensures fresh(host) && host.active == Some(first) && first !in host.releases && !host.safeSoFar
  {
    host := new Host(map[previous := Whole], Some(previous), UnitsOf(previous), Running(previous));
    host.candidates := map[first := Whole, second := Whole];
    var _ := host.Stop(Works);
    var _ := host.PublishAndActivate(first, SmoothInstall(false, CLEAN_UNDO));
    var readBySecond := host.active;
    var _ := host.Stop(Works);
    var _ := host.PublishAndActivate(second, SmoothInstall(false, CLEAN_UNDO));
    var _, _ := host.UndoInstall(Some(previous), first, false, CLEAN_UNDO);
    assert host.active == Some(previous) && host.safeSoFar;
    var noBundle := CLEAN_UNDO.(activate := SMOOTH.(regenerate := Before));
    var _, _ := host.UndoInstall(readBySecond, second, false, noBundle);
  }
}
