/** Recovery of a lost world host (crates/host/src/world/recovery.rs), with the
    probe of registry.rs and the publication and removal of paths.rs and
    evidence.rs. Any number of recoverers, hosts and a late adapter interleave
    between system calls. A file is its inode; a registration's inode stands for
    the host process it names. */
module WorldRecovery {
  import opened Wrappers

  datatype Summary = HostLost(host: nat) | Reported(content: nat)

  datatype Outcome =
    | Recovered(summary: Summary)
    | StillLive
    | Nothing
    | Failed

  /** What a recoverer does next. */
  datatype Phase =
    | OpenRegistration
    | ReadMissing
    | OpenLease(reg: nat)
    | Lock(reg: nat, lease: nat)
    | Inspect(reg: nat, lease: nat, acquired: bool)
    | ReadFirst(reg: nat, lease: nat)
    | Converge(reg: nat, lease: nat)
    | ReadSecond(reg: nat, lease: nat)
    | Publish(reg: nat, lease: nat)
    | ReadBack(reg: nat, lease: nat)
    | CompareRegistration(reg: nat, lease: nat, carried: Summary)
    | UnlinkRegistration(reg: nat, lease: nat, carried: Summary)
    | CompareLease(reg: nat, lease: nat, carried: Summary)
    | UnlinkLease(reg: nat, lease: nat, carried: Summary)
    | Done(outcome: Outcome)

  datatype Holder = Host(reg: nat) | Recoverer(id: nat)

  datatype World = World(
    registration: Option<nat>,
    lease: Option<nat>,
    summary: Option<Summary>,
    locks: map<nat, Holder>,
    alive: set<nat>,
    converged: set<nat>,
    phases: map<nat, Phase>,
    next: nat)

  datatype Step =
    /** The recoverer's next system call; `ok` is false when that call fails. */
    | Advance(id: nat, ok: bool)
    /** It is killed, or a call it makes in between fails: its lock is dropped. */
    | GiveUp(id: nat)
    | HostDies(reg: nat)
    | AdapterWrites(content: nat)
    /** A new host of the same instance puts its own files in place. */
    | Replace

  // ---------------------------------------------------------------- transitions

  function Moved(w: World, id: nat, phase: Phase): World {
    w.(phases := w.phases[id := phase])
  }

  /** The recoverer returns; closing its files drops the lock it holds. */
  function Ended(w: World, id: nat, outcome: Outcome): World {
    w.(phases := w.phases[id := Done(outcome)],
       locks := map l | l in w.locks && w.locks[l] != Recoverer(id) :: w.locks[l])
  }

  function Advanced(w: World, id: nat, ok: bool): World
    requires id in w.phases
  {
    match w.phases[id]
    case OpenRegistration =>
      if w.registration.None? then Moved(w, id, ReadMissing)
      else Moved(w, id, OpenLease(w.registration.value))
    case ReadMissing =>
      Ended(w, id, if w.summary.Some? then Recovered(w.summary.value) else Nothing)
    case OpenLease(reg) =>
      if w.lease.None? then Ended(w, id, Failed) else Moved(w, id, Lock(reg, w.lease.value))
    case Lock(reg, lease) =>
      if lease in w.locks then Moved(w, id, Inspect(reg, lease, false))
      else Moved(w, id, Inspect(reg, lease, true)).(locks := w.locks[lease := Recoverer(id)])
    case Inspect(reg, lease, acquired) =>
      if !acquired && reg in w.alive then Ended(w, id, StillLive)
      else if !acquired || reg in w.alive then Ended(w, id, Failed)
      else Moved(w, id, ReadFirst(reg, lease))
    case ReadFirst(reg, lease) =>
      if w.summary.Some? then Moved(w, id, CompareRegistration(reg, lease, w.summary.value))
      else Moved(w, id, Converge(reg, lease))
    case Converge(reg, lease) =>
      if ok then Moved(w, id, ReadSecond(reg, lease)).(converged := w.converged + {reg}) else Ended(w, id, Failed)
    case ReadSecond(reg, lease) =>
      if w.summary.Some? then Moved(w, id, CompareRegistration(reg, lease, w.summary.value))
      else Moved(w, id, Publish(reg, lease))
    case Publish(reg, lease) =>
      // The link is made or refused by one call; a later failure to sync or to
      // remove the temporary file is reported although the link stands.
      if w.summary.Some? then (if ok then Moved(w, id, ReadBack(reg, lease)) else Ended(w, id, Failed))
      else
        var linked := w.(summary := Some(HostLost(reg)));
        if ok then Moved(linked, id, CompareRegistration(reg, lease, HostLost(reg))) else Ended(linked, id, Failed)
    case ReadBack(reg, lease) =>
      if w.summary.Some? then Moved(w, id, CompareRegistration(reg, lease, w.summary.value)) else Ended(w, id, Failed)
    case CompareRegistration(reg, lease, carried) =>
      if w.registration == Some(reg) then Moved(w, id, UnlinkRegistration(reg, lease, carried))
      else Ended(w, id, Failed)
    case UnlinkRegistration(reg, lease, carried) =>
      if w.registration.None? || !ok then Ended(w, id, Failed)
      else Moved(w, id, CompareLease(reg, lease, carried)).(registration := None)
    case CompareLease(reg, lease, carried) =>
      if w.lease == Some(lease) then Moved(w, id, UnlinkLease(reg, lease, carried)) else Ended(w, id, Failed)
    case UnlinkLease(reg, lease, carried) =>
      if w.lease.None? || !ok then Ended(w, id, Failed)
      else Ended(w, id, Recovered(carried)).(lease := None)
    case Done(_) => w
  }

  predicate Enabled(w: World, step: Step) {
    match step
    case Advance(id, _) => id in w.phases && !w.phases[id].Done?
    case GiveUp(id) => id in w.phases && !w.phases[id].Done?
    case HostDies(reg) => reg in w.alive
    case _ => true
  }

  function Apply(w: World, step: Step): World
    requires Enabled(w, step)
  {
    match step
    case Advance(id, ok) => Advanced(w, id, ok)
    case GiveUp(id) => Ended(w, id, Failed)
    case HostDies(reg) =>
      w.(alive := w.alive - {reg}, locks := map l | l in w.locks && w.locks[l] != Host(reg) :: w.locks[l])
    case AdapterWrites(content) => w.(summary := Some(Reported(content)))
    case Replace =>
      w.(registration := Some(w.next), lease := Some(w.next + 1), alive := w.alive + {w.next},
         locks := w.locks[w.next + 1 := Host(w.next)], next := w.next + 2)
  }

  // ------------------------------------------------------------------ invariant

  /** The summary a phase has in hand. */
  predicate Carries(phase: Phase, s: Summary) {
    match phase
    case CompareRegistration(_, _, carried) => carried == s
    case UnlinkRegistration(_, _, carried) => carried == s
    case CompareLease(_, _, carried) => carried == s
    case UnlinkLease(_, _, carried) => carried == s
    case Done(outcome) => outcome == Recovered(s)
    case _ => false
  }

  predicate HoldsLease(phase: Phase) {
    match phase
    case Inspect(_, _, acquired) => acquired
    case ReadFirst(_, _) => true
    case Converge(_, _) => true
    case ReadSecond(_, _) => true
    case Publish(_, _) => true
    case ReadBack(_, _) => true
    case CompareRegistration(_, _, _) => true
    case UnlinkRegistration(_, _, _) => true
    case CompareLease(_, _, _) => true
    case UnlinkLease(_, _, _) => true
    case _ => false
  }

  /** Past inspection: the host named by the registration is known dead. */
  predicate Judged(phase: Phase) {
    HoldsLease(phase) && !phase.Inspect?
  }

  ghost predicate PhaseSound(w: World, id: nat, phase: Phase) {
    && (phase.OpenLease? || phase.Lock? || phase.Inspect? || Judged(phase) ==> phase.reg < w.next)
    && (phase.Lock? || phase.Inspect? || Judged(phase) ==> phase.lease < w.next)
    && (HoldsLease(phase) ==> phase.lease in w.locks && w.locks[phase.lease] == Recoverer(id))
    && (Judged(phase) ==> phase.reg !in w.alive)
    && (phase.ReadSecond? || phase.Publish? ==> phase.reg in w.converged)
    && (phase.ReadMissing? || phase.ReadBack? ==> w.summary.Some?)
    && (forall s :: Carries(phase, s) ==> w.summary == Some(s))
    && (phase.UnlinkRegistration? ==> w.registration.None? || w.registration == Some(phase.reg))
    && (phase.UnlinkLease? ==> w.lease.None? || w.lease == Some(phase.lease))
    && phase != Done(Nothing)
  }

  /** What holds of the disk alone. */
  ghost predicate DiskSound(w: World) {
    && (w.registration.None? || w.lease.None? ==> w.summary.Some?)
    && (w.registration.Some? ==> w.registration.value < w.next)
    && (w.lease.Some? ==> w.lease.value < w.next)
    && (forall reg | reg in w.alive :: reg < w.next)
    && (forall l | l in w.locks :: l < w.next)
    && (w.summary.Some? && w.summary.value.HostLost? ==>
          && w.summary.value.host < w.next && w.summary.value.host !in w.alive
          && w.summary.value.host in w.converged)
  }

  ghost predicate Sound(w: World) {
    DiskSound(w) && forall id | id in w.phases :: PhaseSound(w, id, w.phases[id])
  }

  /** A registered world without a summary, before any recovery. */
  ghost predicate Initial(w: World) {
    && w.registration.Some? && w.lease.Some? && w.summary.None?
    && DiskSound(w)
    && forall id | id in w.phases :: w.phases[id] == OpenRegistration
  }

  /** The two things outside recovery that its promises rest on: an adapter does
      not replace a summary a recoverer already took, and no new host replaces a
      file between its comparison and its removal. */
  predicate Intrudes(w: World, step: Step) {
    match step
    case AdapterWrites(content) =>
      exists id | id in w.phases :: exists s: Summary | s in Taken(w.phases[id]) :: s != Reported(content)
    case Replace =>
      exists id | id in w.phases :: w.phases[id].UnlinkRegistration? || w.phases[id].UnlinkLease?
    case _ => false
  }

  function Taken(phase: Phase): (r: set<Summary>)
    ensures forall s :: s in r <==> Carries(phase, s)
  {
    match phase
    case CompareRegistration(_, _, carried) => {carried}
    case UnlinkRegistration(_, _, carried) => {carried}
    case CompareLease(_, _, carried) => {carried}
    case UnlinkLease(_, _, carried) => {carried}
    case Done(outcome) => if outcome.Recovered? then {outcome.summary} else {}
    case _ => {}
  }

  // -------------------------------------------------------------------- safety

  lemma AdvanceKeepsDisk(w: World, id: nat, ok: bool)
    requires Sound(w) && Enabled(w, Advance(id, ok))
    ensures DiskSound(Advanced(w, id, ok))
  {
    assert PhaseSound(w, id, w.phases[id]);
    if Removing(w.phases[id]) {
      HeldSummary(w, id);
      RemovalKeepsDisk(w, id, ok);
    } else if Probing(w.phases[id]) {
      ProbeKeepsDisk(w, id, ok);
    } else {
      JudgementKeepsDisk(w, id, ok);
    }
  }

  lemma RemovalKeepsDisk(w: World, id: nat, ok: bool)
    requires DiskSound(w) && Enabled(w, Advance(id, ok)) && Removing(w.phases[id]) && w.summary.Some?
    ensures DiskSound(Advanced(w, id, ok))
  {
  }

  lemma ProbeKeepsDisk(w: World, id: nat, ok: bool)
    requires DiskSound(w) && Enabled(w, Advance(id, ok)) && Probing(w.phases[id])
    requires w.phases[id].Lock? ==> w.phases[id].lease < w.next
    ensures DiskSound(Advanced(w, id, ok))
  {
  }

  lemma JudgementKeepsDisk(w: World, id: nat, ok: bool)
    requires DiskSound(w) && Enabled(w, Advance(id, ok)) && !Probing(w.phases[id]) && !Removing(w.phases[id])
    requires w.phases[id].reg < w.next && w.phases[id].reg !in w.alive
    requires w.phases[id].Publish? ==> w.phases[id].reg in w.converged
    ensures DiskSound(Advanced(w, id, ok))
  {
  }

  lemma AdvanceMovesOne(w: World, id: nat, ok: bool)
    requires Enabled(w, Advance(id, ok))
    ensures Advanced(w, id, ok).phases.Keys == w.phases.Keys
    ensures forall other | other in w.phases && other != id :: Advanced(w, id, ok).phases[other] == w.phases[other]
  {
  }

  /** A recoverer about to remove something has the summary that is on disk. */
  lemma HeldSummary(w: World, id: nat)
    requires Sound(w) && id in w.phases
    ensures forall s | s in Taken(w.phases[id]) :: w.summary == Some(s)
    ensures Removing(w.phases[id]) ==> w.summary == Some(w.phases[id].carried)
  {
    var phase := w.phases[id];
    assert PhaseSound(w, id, phase);
    if Removing(phase) {
      assert Carries(phase, phase.carried);
    }
  }

  predicate Removing(phase: Phase) {
    phase.CompareRegistration? || phase.UnlinkRegistration? || phase.CompareLease? || phase.UnlinkLease?
  }

  predicate Probing(phase: Phase) {
    phase.OpenRegistration? || phase.ReadMissing? || phase.OpenLease? || phase.Lock? || phase.Inspect?
  }

  lemma ProbeKeepsSelf(w: World, id: nat, ok: bool)
    requires Sound(w) && Enabled(w, Advance(id, ok)) && Probing(w.phases[id])
    ensures PhaseSound(Advanced(w, id, ok), id, Advanced(w, id, ok).phases[id])
  {
    assert PhaseSound(w, id, w.phases[id]);
  }

  lemma JudgementKeepsSelf(w: World, id: nat, ok: bool)
    requires Sound(w) && Enabled(w, Advance(id, ok)) && !Probing(w.phases[id]) && !Removing(w.phases[id])
    ensures PhaseSound(Advanced(w, id, ok), id, Advanced(w, id, ok).phases[id])
  {
    assert PhaseSound(w, id, w.phases[id]);
  }

  lemma RemovalKeepsSelf(w: World, id: nat, ok: bool)
    requires Sound(w) && Enabled(w, Advance(id, ok)) && Removing(w.phases[id])
    ensures PhaseSound(Advanced(w, id, ok), id, Advanced(w, id, ok).phases[id])
  {
    assert PhaseSound(w, id, w.phases[id]);
    HeldSummary(w, id);
  }

  lemma AdvanceKeepsSelf(w: World, id: nat, ok: bool)
    requires Sound(w) && Enabled(w, Advance(id, ok))
    ensures PhaseSound(Advanced(w, id, ok), id, Advanced(w, id, ok).phases[id])
  {
    if Probing(w.phases[id]) {
      ProbeKeepsSelf(w, id, ok);
    } else if Removing(w.phases[id]) {
      RemovalKeepsSelf(w, id, ok);
    } else {
      JudgementKeepsSelf(w, id, ok);
    }
  }

  /** All that a recoverer's call can do to what the others rely on. */
  ghost predicate Yields(w: World, after: World, id: nat) {
    && after.alive == w.alive && after.next == w.next && w.converged <= after.converged
    && (w.summary.Some? ==> after.summary == w.summary)
    && (after.registration == w.registration || after.registration.None?)
    && (after.lease == w.lease || after.lease.None?)
    && forall l | l in w.locks && w.locks[l] != Recoverer(id) :: l in after.locks && after.locks[l] == w.locks[l]
  }

  lemma AdvanceYields(w: World, id: nat, ok: bool)
    requires Enabled(w, Advance(id, ok))
    ensures Yields(w, Advanced(w, id, ok), id)
  {
  }

  lemma YieldingKeepsOthers(w: World, after: World, id: nat, other: nat)
    requires Sound(w) && Yields(w, after, id) && other in w.phases && other != id
    ensures PhaseSound(after, other, w.phases[other])
  {
    assert PhaseSound(w, other, w.phases[other]);
  }

  lemma AdvanceKeeps(w: World, id: nat, ok: bool)
    requires Sound(w) && Enabled(w, Advance(id, ok))
    ensures Sound(Advanced(w, id, ok))
  {
    var after := Advanced(w, id, ok);
    AdvanceKeepsDisk(w, id, ok);
    AdvanceKeepsSelf(w, id, ok);
    AdvanceMovesOne(w, id, ok);
    AdvanceYields(w, id, ok);
    assert forall other | other in w.phases && other != id :: PhaseSound(after, other, after.phases[other]) by {
      forall other | other in w.phases && other != id
        ensures PhaseSound(after, other, after.phases[other])
      {
        YieldingKeepsOthers(w, after, id, other);
      }
    }
  }

  /** The invariant survives a step exactly when that step does not intrude. */
  lemma StepKeepsExactly(w: World, step: Step)
    requires Sound(w) && Enabled(w, step)
    ensures Sound(Apply(w, step)) <==> !Intrudes(w, step)
  {
    match step
    case Advance(id, ok) => AdvanceKeeps(w, id, ok);
    case GiveUp(id) => OutsideStepKeeps(w, step);
    case HostDies(_) => OutsideStepKeeps(w, step);
    case AdapterWrites(content) => AdapterKeepsExactly(w, content);
    case Replace => ReplaceKeepsExactly(w);
  }

  lemma OutsideStepKeeps(w: World, step: Step)
    requires Sound(w) && Enabled(w, step) && (step.GiveUp? || step.HostDies?)
    ensures Sound(Apply(w, step))
  {
    forall id | id in w.phases && step != GiveUp(id)
      ensures PhaseSound(Apply(w, step), id, w.phases[id])
    {
      assert PhaseSound(w, id, w.phases[id]);
    }
  }

  lemma AdapterKeepsExactly(w: World, content: nat)
    requires Sound(w)
    ensures Sound(Apply(w, AdapterWrites(content))) <==> !Intrudes(w, AdapterWrites(content))
  {
    var after := Apply(w, AdapterWrites(content));
    if id, s :| id in w.phases && s in Taken(w.phases[id]) && s != Reported(content) {
      assert !PhaseSound(after, id, after.phases[id]);
    } else {
      forall id | id in w.phases
        ensures PhaseSound(after, id, w.phases[id])
      {
        assert PhaseSound(w, id, w.phases[id]);
        assert forall s | Carries(w.phases[id], s) :: s in Taken(w.phases[id]);
      }
    }
  }

  lemma ReplaceKeepsExactly(w: World)
    requires Sound(w)
    ensures Sound(Apply(w, Replace)) <==> !Intrudes(w, Replace)
  {
    var after := Apply(w, Replace);
    if id :| id in w.phases && (w.phases[id].UnlinkRegistration? || w.phases[id].UnlinkLease?) {
      assert PhaseSound(w, id, w.phases[id]);
      assert !PhaseSound(after, id, after.phases[id]);
    } else {
      forall id | id in w.phases
        ensures PhaseSound(after, id, w.phases[id])
      {
        assert PhaseSound(w, id, w.phases[id]);
      }
    }
  }

  /** Each step is one that can be taken. */
  ghost predicate Schedule(w: World, steps: seq<Step>)
    decreases |steps|
  {
    steps == [] || (Enabled(w, steps[0]) && Schedule(Apply(w, steps[0]), steps[1..]))
  }

  function Run(w: World, steps: seq<Step>): World
    requires Schedule(w, steps)
    decreases |steps|
  {
    if steps == [] then w else Run(Apply(w, steps[0]), steps[1..])
  }

  /** No step of the schedule intrudes. */
  ghost predicate Quiet(w: World, steps: seq<Step>)
    requires Schedule(w, steps)
    decreases |steps|
  {
    steps == [] || (!Intrudes(w, steps[0]) && Quiet(Apply(w, steps[0]), steps[1..]))
  }

  ghost predicate Undisturbed(w: World, steps: seq<Step>) {
    Schedule(w, steps) && Quiet(w, steps)
  }

  /** Every reachable world is sound, so each success of a recovery names the
      summary that is on disk, and a registered world is never answered with
      nothing. */
  lemma {:induction false} EveryRunIsSound(w: World, steps: seq<Step>)
    requires Sound(w) && Undisturbed(w, steps)
    ensures Sound(Run(w, steps))
    decreases |steps|
  {
    if steps != [] {
      StepKeepsExactly(w, steps[0]);
      EveryRunIsSound(Apply(w, steps[0]), steps[1..]);
    }
  }

  lemma SuccessReturnsTheSummaryOnDisk(w: World, steps: seq<Step>, id: nat)
    requires Initial(w) && Undisturbed(w, steps) && id in Run(w, steps).phases
    requires Run(w, steps).phases[id].Done?
    ensures var outcome := Run(w, steps).phases[id].outcome;
            && outcome != Nothing
            && (outcome.Recovered? ==> Run(w, steps).summary == Some(outcome.summary))
  {
    InitialIsSound(w);
    EveryRunIsSound(w, steps);
    HeldSummary(Run(w, steps), id);
    assert PhaseSound(Run(w, steps), id, Run(w, steps).phases[id]);
  }

  lemma InitialIsSound(w: World)
    requires Initial(w)
    ensures Sound(w)
  {
  }

  /** Over any schedule, intruded on or not, only an adapter ever changes a
      published summary. */
  lemma {:induction false} FirstSummaryStands(w: World, steps: seq<Step>)
    requires w.summary.Some? && Schedule(w, steps)
    requires forall i | 0 <= i < |steps| :: !steps[i].AdapterWrites?
    ensures Run(w, steps).summary == w.summary
    decreases |steps|
  {
    if steps != [] {
      RecoveryNeverOverwrites(w, steps[0]);
      FirstSummaryStands(Apply(w, steps[0]), steps[1..]);
    }
  }

  lemma RecoveryNeverOverwrites(w: World, step: Step)
    requires w.summary.Some? && Enabled(w, step) && !step.AdapterWrites?
    ensures Apply(w, step).summary == w.summary
  {
  }

  /** A step that takes the registration or the lease away is a recoverer's,
      under the lease's lock, with a summary on disk, of the very file it opened;
      and the host that registration names is dead. */
  lemma OnlyRecoveredFilesAreRemoved(w: World, step: Step)
    requires Sound(w) && Enabled(w, step)
    requires (w.registration.Some? && Apply(w, step).registration.None?)
          || (w.lease.Some? && Apply(w, step).lease.None?)
    ensures step.Advance? && w.summary.Some?
    ensures var phase := w.phases[step.id];
            && HoldsLease(phase) && w.locks[phase.lease] == Recoverer(step.id)
            && phase.reg !in w.alive
            && (Apply(w, step).registration != w.registration ==> w.registration == Some(phase.reg))
            && (Apply(w, step).lease != w.lease ==> w.lease == Some(phase.lease))
  {
    if step.Advance? {
      HeldSummary(w, step.id);
      assert PhaseSound(w, step.id, w.phases[step.id]);
    }
  }

  /** No two recoverers judge, converge or publish under one lease. */
  lemma OneRecovererPerLease(w: World, a: nat, b: nat)
    requires Sound(w) && a in w.phases && b in w.phases && a != b
    requires HoldsLease(w.phases[a]) && HoldsLease(w.phases[b])
    ensures w.phases[a].lease != w.phases[b].lease
  {
    assert PhaseSound(w, a, w.phases[a]) && PhaseSound(w, b, w.phases[b]);
  }

  /** Recovery declares no living host lost, and none whose native group it has
      not seen gone. */
  lemma NoLivingHostIsDeclaredLost(w: World, steps: seq<Step>, host: nat)
    requires Initial(w) && Undisturbed(w, steps)
    requires Run(w, steps).summary == Some(HostLost(host))
    ensures host !in Run(w, steps).alive && host in Run(w, steps).converged
  {
    InitialIsSound(w);
    EveryRunIsSound(w, steps);
  }

  /** How many system calls a recoverer still has ahead of it at most. */
  function Remaining(phase: Phase): nat {
    match phase
    case OpenRegistration => 13
    case OpenLease(_) => 12
    case Lock(_, _) => 11
    case Inspect(_, _, _) => 10
    case ReadFirst(_, _) => 9
    case Converge(_, _) => 8
    case ReadSecond(_, _) => 7
    case Publish(_, _) => 6
    case ReadBack(_, _) => 5
    case CompareRegistration(_, _, _) => 4
    case UnlinkRegistration(_, _, _) => 3
    case CompareLease(_, _, _) => 2
    case UnlinkLease(_, _, _) => 1
    case ReadMissing => 1
    case Done(_) => 0
  }

  ghost function Calls(steps: seq<Step>, id: nat): nat {
    if steps == [] then 0
    else Calls(steps[1..], id) + if steps[0].Advance? && steps[0].id == id then 1 else 0
  }

  /** However the others interleave, a recoverer returns after at most thirteen
      of its own calls. */
  lemma {:induction false} EveryRecoveryReturns(w: World, steps: seq<Step>, id: nat)
    requires Schedule(w, steps) && id in w.phases
    ensures id in Run(w, steps).phases
    ensures Calls(steps, id) + Remaining(Run(w, steps).phases[id]) <= Remaining(w.phases[id]) <= 13
    decreases |steps|
  {
    if steps != [] {
      var after := Apply(w, steps[0]);
      if steps[0] == Advance(id, true) || steps[0] == Advance(id, false) {
        CallIsProgress(w, id, steps[0].ok);
      } else if steps[0].Advance? {
        AdvanceMovesOne(w, steps[0].id, steps[0].ok);
      }
      EveryRecoveryReturns(after, steps[1..], id);
    }
  }

  lemma CallIsProgress(w: World, id: nat, ok: bool)
    requires Enabled(w, Advance(id, ok))
    ensures Remaining(Advanced(w, id, ok).phases[id]) < Remaining(w.phases[id])
  {
  }

  // ---------------------------------------------------------------- successes

  ghost predicate InPlace(w: World, reg: nat, lease: nat) {
    w.registration == Some(reg) && w.lease == Some(lease)
  }

  /** Nobody else is recovering. */
  ghost predicate Alone(w: World, id: nat) {
    forall other | other in w.phases && other != id :: w.phases[other].Done?
  }

  predicate Opened(phase: Phase, reg: nat) {
    (phase.Lock? || phase.Inspect? || Judged(phase)) && phase.reg == reg
  }

  /** Every recoverer of this registration opened this lease. */
  ghost predicate Paired(w: World, reg: nat, lease: nat) {
    forall other | other in w.phases && Opened(w.phases[other], reg) :: w.phases[other].lease == lease
  }

  /** A recovery that goes well: until it has the lock it is the only one, from
      then on nobody can stop it, and it ends with everything removed. */
  ghost predicate GoesWell(w: World, id: nat, reg: nat, lease: nat) {
    && id in w.phases && reg !in w.alive && Paired(w, reg, lease)
    && match w.phases[id]
       case OpenRegistration => InPlace(w, reg, lease) && lease !in w.locks && Alone(w, id)
       case OpenLease(r) => r == reg && InPlace(w, reg, lease) && lease !in w.locks && Alone(w, id)
       case Lock(r, l) => r == reg && l == lease && InPlace(w, reg, lease) && lease !in w.locks && Alone(w, id)
       case Inspect(r, l, acquired) => r == reg && l == lease && InPlace(w, reg, lease) && acquired
       case CompareLease(r, l, _) => r == reg && l == lease && w.registration.None? && w.lease == Some(lease)
       case UnlinkLease(r, l, _) => r == reg && l == lease && w.registration.None? && w.lease == Some(lease)
       case Done(outcome) => outcome.Recovered? && w.registration.None? && w.lease.None?
       case ReadMissing => false
       case phase => phase.reg == reg && phase.lease == lease && InPlace(w, reg, lease)
  }

  /** No new host appears, and the recoverer neither gives up nor has a call fail. */
  ghost predicate Attended(steps: seq<Step>, id: nat) {
    forall i | 0 <= i < |steps| :: Attends(steps[i], id)
  }

  predicate Attends(step: Step, id: nat) {
    !step.Replace? && step != GiveUp(id) && step != Advance(id, false)
  }

  lemma OwnCallGoesWell(w: World, id: nat, reg: nat, lease: nat)
    requires Sound(w) && GoesWell(w, id, reg, lease) && !w.phases[id].Done?
    ensures GoesWell(Advanced(w, id, true), id, reg, lease)
  {
    AdvanceMovesOne(w, id, true);
  }

  lemma OthersDoNotHold(w: World, id: nat, reg: nat, lease: nat, other: nat)
    requires Sound(w) && GoesWell(w, id, reg, lease) && other != id && other in w.phases
    requires w.lease == Some(lease) && HoldsLease(w.phases[other])
    ensures w.phases[other].lease != lease && w.phases[other].reg != reg
  {
    assert PhaseSound(w, id, w.phases[id]) && PhaseSound(w, other, w.phases[other]);
  }

  /** What another recoverer can still remove is neither of these files. */
  lemma OthersRemoveNothing(w: World, id: nat, reg: nat, lease: nat, other: nat, ok: bool)
    requires Sound(w) && GoesWell(w, id, reg, lease) && other != id && Enabled(w, Advance(other, ok))
    ensures Advanced(w, other, ok).registration == w.registration && Advanced(w, other, ok).lease == w.lease
  {
    var after := Advanced(w, other, ok);
    AdvanceYields(w, other, ok);
    if w.lease == Some(lease) && HoldsLease(w.phases[other]) {
      OthersDoNotHold(w, id, reg, lease, other);
    }
    if after.registration != w.registration || after.lease != w.lease {
      OnlyRecoveredFilesAreRemoved(w, Advance(other, ok));
    }
  }

  lemma OthersStayPaired(w: World, reg: nat, lease: nat, other: nat, ok: bool)
    requires Enabled(w, Advance(other, ok)) && Paired(w, reg, lease) && (w.lease.None? || w.lease == Some(lease))
    ensures Paired(Advanced(w, other, ok), reg, lease)
  {
    AdvanceMovesOne(w, other, ok);
  }

  lemma OthersLeaveInPlace(w: World, id: nat, reg: nat, lease: nat, other: nat, ok: bool)
    requires Sound(w) && GoesWell(w, id, reg, lease) && other != id && Enabled(w, Advance(other, ok))
    ensures GoesWell(Advanced(w, other, ok), id, reg, lease)
  {
    OthersRemoveNothing(w, id, reg, lease, other, ok);
    OthersStayPaired(w, reg, lease, other, ok);
    AdvanceMovesOne(w, other, ok);
    AdvanceYields(w, other, ok);
  }

  lemma StepGoesWell(w: World, id: nat, reg: nat, lease: nat, step: Step)
    requires Sound(w) && GoesWell(w, id, reg, lease) && Enabled(w, step) && Attends(step, id)
    ensures GoesWell(Apply(w, step), id, reg, lease)
  {
    if step.Advance? {
      if step.id == id {
        OwnCallGoesWell(w, id, reg, lease);
      } else {
        OthersLeaveInPlace(w, id, reg, lease, step.id, step.ok);
      }
    }
  }

  /** From the lock on it goes well whatever the others do. */
  lemma {:induction false} RecoveryGoesWell(w: World, steps: seq<Step>, id: nat, reg: nat, lease: nat)
    requires Sound(w) && GoesWell(w, id, reg, lease) && Undisturbed(w, steps) && Attended(steps, id)
    ensures Sound(Run(w, steps)) && GoesWell(Run(w, steps), id, reg, lease)
    decreases |steps|
  {
    if steps != [] {
      StepKeepsExactly(w, steps[0]);
      StepGoesWell(w, id, reg, lease, steps[0]);
      RecoveryGoesWell(Apply(w, steps[0]), steps[1..], id, reg, lease);
    }
  }

  /** A stale world, not yet looked at: its host is dead and its lease free. */
  ghost predicate Stale(w: World, id: nat) {
    && id in w.phases && w.phases[id] == OpenRegistration && Alone(w, id)
    && w.registration.Some? && w.registration.value !in w.alive
    && w.lease.Some? && w.lease.value !in w.locks
  }

  /** Of a stale world an attended recovery that returns has recovered it: both
      files are gone, and it returns the summary on disk, which is its own report
      of the lost host unless there was one or an adapter wrote one meanwhile. */
  lemma AStaleWorldIsRecovered(w: World, steps: seq<Step>, id: nat)
    requires Sound(w) && Stale(w, id) && Undisturbed(w, steps) && Attended(steps, id)
    requires id in Run(w, steps).phases && Run(w, steps).phases[id].Done?
    ensures var after := Run(w, steps);
            && after.registration.None? && after.lease.None? && after.summary.Some?
            && after.phases[id] == Done(Recovered(after.summary.value))
            && (after.summary.value.HostLost? && w.summary.None? ==> after.summary.value.host == w.registration.value)
    ensures (forall i | 0 <= i < |steps| :: !steps[i].AdapterWrites?) ==>
      Run(w, steps).summary == if w.summary.Some? then w.summary else Some(HostLost(w.registration.value))
  {
    var reg, lease := w.registration.value, w.lease.value;
    var after := Run(w, steps);
    RecoveryGoesWell(w, steps, id, reg, lease);
    HeldSummary(after, id);
    assert after.phases[id].outcome.summary in Taken(after.phases[id]);
    if w.summary.None? {
      OnlyThisHostIsBlamed(w, steps, id, reg, lease);
    }
    if forall i | 0 <= i < |steps| :: !steps[i].AdapterWrites? {
      if w.summary.Some? {
        FirstSummaryStands(w, steps);
      } else {
        NobodyElseReports(w, steps);
      }
    }
  }

  ghost predicate Blames(summary: Option<Summary>, reg: nat) {
    summary.Some? && summary.value.HostLost? ==> summary.value.host == reg
  }

  lemma StepBlames(w: World, step: Step, id: nat, reg: nat, lease: nat)
    requires GoesWell(w, id, reg, lease) && Enabled(w, step) && Attends(step, id)
    requires Alone(w, id) && Blames(w.summary, reg)
    ensures Alone(Apply(w, step), id) && Blames(Apply(w, step).summary, reg)
  {
    StepMovesOne(w, step, id);
    if step.Advance? {
      AdvanceMovesOne(w, step.id, step.ok);
    }
  }

  lemma {:induction false} OnlyThisHostIsBlamed(w: World, steps: seq<Step>, id: nat, reg: nat, lease: nat)
    requires Sound(w) && GoesWell(w, id, reg, lease) && Undisturbed(w, steps) && Attended(steps, id)
    requires Alone(w, id) && Blames(w.summary, reg)
    ensures Blames(Run(w, steps).summary, reg)
    decreases |steps|
  {
    if steps != [] {
      StepKeepsExactly(w, steps[0]);
      StepGoesWell(w, id, reg, lease, steps[0]);
      StepBlames(w, steps[0], id, reg, lease);
      OnlyThisHostIsBlamed(Apply(w, steps[0]), steps[1..], id, reg, lease);
    }
  }

  /** Without an adapter every report is of a lost host. */
  lemma {:induction false} NobodyElseReports(w: World, steps: seq<Step>)
    requires Schedule(w, steps) && (w.summary.None? || w.summary.value.HostLost?)
    requires forall i | 0 <= i < |steps| :: !steps[i].AdapterWrites?
    ensures Run(w, steps).summary.None? || Run(w, steps).summary.value.HostLost?
    decreases |steps|
  {
    if steps != [] {
      if w.summary.Some? {
        RecoveryNeverOverwrites(w, steps[0]);
      }
      NobodyElseReports(Apply(w, steps[0]), steps[1..]);
    }
  }

  /** And it does return, by at most thirteen calls of its own. */
  lemma {:induction false} AnAttendedRecoveryEnds(w: World, id: nat, reg: nat, lease: nat) returns (steps: seq<Step>)
    requires Sound(w) && GoesWell(w, id, reg, lease)
    ensures Undisturbed(w, steps) && Attended(steps, id) && |steps| <= Remaining(w.phases[id]) <= 13
    ensures id in Run(w, steps).phases && Run(w, steps).phases[id].Done?
    decreases Remaining(w.phases[id])
  {
    steps := [];
    if !w.phases[id].Done? {
      var call := Advance(id, true);
      StepKeepsExactly(w, call);
      OwnCallGoesWell(w, id, reg, lease);
      CallIsProgress(w, id, true);
      var rest := AnAttendedRecoveryEnds(Apply(w, call), id, reg, lease);
      steps := [call] + rest;
      assert steps[1..] == rest;
    }
  }

  /** A living host with its lease locked: the only answer is that it lives. */
  ghost predicate LooksLive(w: World, id: nat, reg: nat, lease: nat) {
    && id in w.phases && InPlace(w, reg, lease) && reg in w.alive && lease in w.locks && w.locks[lease] == Host(reg)
    && match w.phases[id]
       case OpenRegistration => true
       case OpenLease(r) => r == reg
       case Lock(r, l) => r == reg && l == lease
       case Inspect(r, l, acquired) => r == reg && l == lease && !acquired
       case Done(outcome) => outcome.StillLive?
       case _ => false
  }

  lemma StepLeavesItLive(w: World, id: nat, reg: nat, lease: nat, step: Step)
    requires Sound(w) && LooksLive(w, id, reg, lease) && Enabled(w, step)
    requires !step.Replace? && step != HostDies(reg) && step != GiveUp(id)
    ensures LooksLive(Apply(w, step), id, reg, lease)
  {
    if step.Advance? {
      AdvanceMovesOne(w, step.id, step.ok);
      AdvanceYields(w, step.id, step.ok);
      assert PhaseSound(w, step.id, w.phases[step.id]);
      if Apply(w, step).registration.None? || Apply(w, step).lease.None? {
        OnlyRecoveredFilesAreRemoved(w, step);
      }
    }
  }

  /** However many others try, a living host is found alive and nothing of it is removed. */
  lemma {:induction false} ALiveHostIsLeftAlone(w: World, steps: seq<Step>, id: nat, reg: nat, lease: nat)
    requires Sound(w) && LooksLive(w, id, reg, lease) && Undisturbed(w, steps)
    requires forall i | 0 <= i < |steps| ::
      !steps[i].Replace? && steps[i] != HostDies(reg) && steps[i] != GiveUp(id)
    ensures Sound(Run(w, steps)) && LooksLive(Run(w, steps), id, reg, lease)
    decreases |steps|
  {
    if steps != [] {
      StepKeepsExactly(w, steps[0]);
      StepLeavesItLive(w, id, reg, lease, steps[0]);
      ALiveHostIsLeftAlone(Apply(w, steps[0]), steps[1..], id, reg, lease);
    }
  }

  /** Every lock is a living host's or a recoverer's that is at work on it. */
  ghost predicate LocksAreHeld(w: World) {
    forall l | l in w.locks ::
      match w.locks[l]
      case Host(reg) => reg in w.alive
      case Recoverer(id) => id in w.phases && HoldsLease(w.phases[id]) && w.phases[id].lease == l
  }

  lemma StepKeepsLocksHeld(w: World, step: Step)
    requires LocksAreHeld(w) && Enabled(w, step)
    ensures LocksAreHeld(Apply(w, step))
  {
    if step.Advance? {
      AdvanceMovesOne(w, step.id, step.ok);
      AdvanceLocksOne(w, step.id, step.ok);
    }
  }

  lemma AdvanceLocksOne(w: World, id: nat, ok: bool)
    requires LocksAreHeld(w) && Enabled(w, Advance(id, ok))
    ensures Advanced(w, id, ok).alive == w.alive
    ensures var after := Advanced(w, id, ok);
            forall l | l in after.locks ::
              if after.locks[l] == Recoverer(id) then HoldsLease(after.phases[id]) && after.phases[id].lease == l
              else l in w.locks && w.locks[l] == after.locks[l]
  {
  }

  /** No lock outlives its holder, however it ended: over every schedule, intruded
      on or not, a lease is locked only by a living host or a recoverer at work. */
  lemma {:induction false} NoLockOutlivesItsHolder(w: World, steps: seq<Step>)
    requires LocksAreHeld(w) && Schedule(w, steps)
    ensures LocksAreHeld(Run(w, steps))
    decreases |steps|
  {
    if steps != [] {
      StepKeepsLocksHeld(w, steps[0]);
      NoLockOutlivesItsHolder(Apply(w, steps[0]), steps[1..]);
    }
  }

  lemma {:induction false} LastStep(w: World, steps: seq<Step>)
    requires Schedule(w, steps) && steps != []
    ensures var before := steps[..|steps| - 1];
            && Schedule(w, before) && Enabled(Run(w, before), steps[|steps| - 1])
            && Run(w, steps) == Apply(Run(w, before), steps[|steps| - 1])
    decreases |steps|
  {
    var before := steps[..|steps| - 1];
    if |steps| > 1 {
      LastStep(Apply(w, steps[0]), steps[1..]);
      assert steps[1..][..|steps| - 2] == before[1..];
    }
  }

  /** This recoverer has not begun yet. */
  ghost predicate Unbegun(w: World, id: nat) {
    id in w.phases ==> w.phases[id] == OpenRegistration
  }

  lemma StepMovesOne(w: World, step: Step, id: nat)
    requires Enabled(w, step)
    ensures Apply(w, step).phases.Keys == w.phases.Keys
    ensures id in w.phases && !(step.Advance? && step.id == id) && step != GiveUp(id) ==>
      Apply(w, step).phases[id] == w.phases[id]
  {
    if step.Advance? {
      AdvanceMovesOne(w, step.id, step.ok);
    }
  }

  /** A refused lock was held by someone when this recoverer tried it. */
  lemma {:induction false} ARefusedLockWasHeld(w: World, steps: seq<Step>, id: nat) returns (probed: nat)
    requires Unbegun(w, id) && Schedule(w, steps) && id in Run(w, steps).phases
    requires Run(w, steps).phases[id].Inspect? && !Run(w, steps).phases[id].acquired
    ensures probed < |steps| && Schedule(w, steps[..probed])
    ensures Run(w, steps).phases[id].lease in Run(w, steps[..probed]).locks
    decreases |steps|
  {
    probed := |steps| - 1;
    LastStep(w, steps);
    var before := Run(w, steps[..probed]);
    StepMovesOne(before, steps[probed], id);
    if before.phases[id] == Run(w, steps).phases[id] {
      var earlier := ARefusedLockWasHeld(w, steps[..probed], id);
      assert steps[..probed][..earlier] == steps[..earlier];
      probed := earlier;
    }
  }

  predicate Looking(phase: Phase) {
    phase.OpenLease? || phase.Lock? || phase.Inspect?
  }

  lemma StepOpens(w: World, step: Step, id: nat)
    requires Enabled(w, step) && id in w.phases && Looking(Apply(w, step).phases[id])
    ensures var phase := Apply(w, step).phases[id];
            w.registration == Some(phase.reg) || (Looking(w.phases[id]) && w.phases[id].reg == phase.reg)
    ensures !w.phases[id].OpenRegistration? ==> Looking(w.phases[id])
  {
    StepMovesOne(w, step, id);
  }

  /** What a recoverer opened was in place when it did. */
  lemma {:induction false} WhatItOpenedWasInPlace(w: World, steps: seq<Step>, id: nat) returns (seen: nat)
    requires Unbegun(w, id) && Schedule(w, steps) && id in Run(w, steps).phases
    requires Looking(Run(w, steps).phases[id])
    ensures seen < |steps| && Schedule(w, steps[..seen])
    ensures Run(w, steps[..seen]).registration == Some(Run(w, steps).phases[id].reg)
    decreases |steps|
  {
    seen := |steps| - 1;
    LastStep(w, steps);
    var before := Run(w, steps[..seen]);
    StepMovesOne(before, steps[seen], id);
    StepOpens(before, steps[seen], id);
    if before.registration != Some(Run(w, steps).phases[id].reg) {
      var earlier := WhatItOpenedWasInPlace(w, steps[..seen], id);
      assert steps[..seen][..earlier] == steps[..earlier];
      seen := earlier;
    }
  }

  lemma StepJudges(w: World, step: Step, id: nat)
    requires Enabled(w, step) && id in Apply(w, step).phases && Apply(w, step).phases[id] == Done(StillLive)
    ensures id in w.phases
    ensures w.phases[id] == Done(StillLive)
         || (w.phases[id].Inspect? && !w.phases[id].acquired && w.phases[id].reg in w.alive)
  {
    StepMovesOne(w, step, id);
  }

  /** Whoever is told that the host lives saw its registration, then found a lease
      held, and after that saw the process alive that the registration names. */
  lemma {:induction false} StillLiveIsTrue(w: World, steps: seq<Step>, id: nat)
    returns (seen: nat, probed: nat, judged: nat, reg: nat, lease: nat)
    requires Unbegun(w, id) && Schedule(w, steps) && id in Run(w, steps).phases
    requires Run(w, steps).phases[id] == Done(StillLive)
    ensures seen < judged && probed < judged < |steps|
    ensures Schedule(w, steps[..seen]) && Schedule(w, steps[..probed]) && Schedule(w, steps[..judged])
    ensures Run(w, steps[..seen]).registration == Some(reg)
    ensures lease in Run(w, steps[..probed]).locks && reg in Run(w, steps[..judged]).alive
    decreases |steps|
  {
    judged := |steps| - 1;
    LastStep(w, steps);
    var before := Run(w, steps[..judged]);
    StepJudges(before, steps[judged], id);
    if before.phases[id] == Done(StillLive) {
      var earlier;
      seen, probed, earlier, reg, lease := StillLiveIsTrue(w, steps[..judged], id);
      judged := earlier;
    } else {
      reg, lease := before.phases[id].reg, before.phases[id].lease;
      seen := WhatItOpenedWasInPlace(w, steps[..judged], id);
      probed := ARefusedLockWasHeld(w, steps[..judged], id);
    }
    assert steps[..|steps| - 1][..judged] == steps[..judged];
    assert steps[..|steps| - 1][..seen] == steps[..seen] && steps[..|steps| - 1][..probed] == steps[..probed];
  }

  /** With no registration a recovery returns the summary there is. */
  ghost predicate Answers(w: World, id: nat) {
    && id in w.phases && w.registration.None? && w.summary.Some?
    && match w.phases[id]
       case OpenRegistration => true
       case ReadMissing => true
       case Done(outcome) => outcome.Recovered?
       case _ => false
  }

  lemma StepAnswers(w: World, step: Step, id: nat)
    requires Answers(w, id) && Enabled(w, step) && !step.Replace? && step != GiveUp(id)
    ensures Answers(Apply(w, step), id)
  {
    StepMovesOne(w, step, id);
    if step.Advance? {
      AdvanceYields(w, step.id, step.ok);
    }
  }

  lemma {:induction false} AMissingRegistrationIsAnswered(w: World, steps: seq<Step>, id: nat)
    requires Sound(w) && Answers(w, id) && Undisturbed(w, steps)
    requires forall i | 0 <= i < |steps| :: !steps[i].Replace? && steps[i] != GiveUp(id)
    ensures Sound(Run(w, steps)) && Answers(Run(w, steps), id)
    ensures Run(w, steps).phases[id].Done? ==> Run(w, steps).phases[id].outcome.summary == Run(w, steps).summary.value
    decreases |steps|
  {
    if steps == [] {
      HeldSummary(w, id);
      assert w.phases[id].Done? ==> w.phases[id].outcome.summary in Taken(w.phases[id]);
    } else {
      StepKeepsExactly(w, steps[0]);
      StepAnswers(w, steps[0], id);
      AMissingRegistrationIsAnswered(Apply(w, steps[0]), steps[1..], id);
    }
  }

  /** What a replacement in the window costs: the next removal takes the new
      host's registration, not the one that was compared. */
  lemma AReplacementInTheWindowIsRemoved(w: World, id: nat)
    requires Sound(w) && id in w.phases && w.phases[id].UnlinkRegistration?
    ensures Intrudes(w, Replace)
    ensures var replaced := Apply(w, Replace);
            && replaced.registration.Some? && replaced.registration.value in replaced.alive
            && replaced.registration.value != w.phases[id].reg
            && Enabled(replaced, Advance(id, true))
            && Apply(replaced, Advance(id, true)).registration.None?
  {
    assert PhaseSound(w, id, w.phases[id]);
  }

  /** So is the new host's lease, while that host holds it locked, and the
      recovery reports success. */
  lemma AReplacedLeaseIsRemoved(w: World, id: nat)
    requires Sound(w) && id in w.phases && w.phases[id].UnlinkLease?
    ensures Intrudes(w, Replace)
    ensures var replaced := Apply(w, Replace);
            && replaced.lease.Some? && replaced.lease.value != w.phases[id].lease
            && replaced.lease.value in replaced.locks && replaced.locks[replaced.lease.value].Host?
            && replaced.locks[replaced.lease.value].reg in replaced.alive
            && Enabled(replaced, Advance(id, true))
            && Apply(replaced, Advance(id, true)).lease.None?
            && Apply(replaced, Advance(id, true)).phases[id] == Done(Recovered(w.phases[id].carried))
  {
    assert PhaseSound(w, id, w.phases[id]);
  }

  /** What an adapter costs that replaces a summary a recoverer has taken: the
      recovery removes the lease and succeeds with a summary that is not on disk. */
  lemma AnOverwrittenSummaryIsReturned(w: World, id: nat, content: nat)
    requires Sound(w) && id in w.phases && w.phases[id].UnlinkLease? && w.lease.Some?
    requires w.phases[id].carried != Reported(content)
    ensures Intrudes(w, AdapterWrites(content))
    ensures var written := Apply(w, AdapterWrites(content));
            && Enabled(written, Advance(id, true))
            && Apply(written, Advance(id, true)).phases[id] == Done(Recovered(w.phases[id].carried))
            && Apply(written, Advance(id, true)).summary == Some(Reported(content))
  {
    assert w.phases[id].carried in Taken(w.phases[id]);
  }
}
