/** The two locks of one root, as steps of any number of CLI processes and
    supervisors (cli/src/lock.rs, cli/src/application/lifecycle.rs,
    cli/src/application/build.rs).

    Advisory locks are exclusive per file and the kernel releases a process's
    locks when it ends. `build.lock` serializes the CLIs; a supervisor holds
    `supervisor.lock` for its life and a CLI takes it for the length of a probe. */
module LaunchLocks {
  import opened Wrappers

  /** Where one build, run or start is. Everything but `Idle` holds the build lock. */
  datatype Cli =
    | Idle
    | Locked
    | Probing
    | Cleared
    | Publishing
    | Published
    | Awaiting(supervisor: nat)
    | Attached

  /** `release`: the publication the supervisor was spawned on. */
  datatype Supervisor = Starting(parent: nat, release: nat) | Serving(release: nat) | Exited

  datatype Holder = Nobody | Probe(cli: nat) | Owner(supervisor: nat)

  datatype Root = Root(
    clis: map<nat, Cli>,
    supervisors: map<nat, Supervisor>,
    buildLock: Option<nat>,
    supervisorLock: Holder,
    release: nat,
    collided: bool)

  datatype Step =
    | AcquireBuild(c: nat)
    | BeginProbe(c: nat)
    | EndProbe(c: nat)
    | BeginPublish(c: nat)
    | EndPublish(c: nat)
    | Spawn(c: nat, s: nat)
    | TakeLock(s: nat)
    | Answer(c: nat)
    | Leave(c: nat)
    | Exit(s: nat)

  function At(root: Root, c: nat): Cli {
    if c in root.clis then root.clis[c] else Idle
  }

  function Move(root: Root, c: nat, cli: Cli): Root {
    root.(clis := root.clis[c := cli])
  }

  /** A CLI ends, by success, error or death; the kernel drops what it held. */
  function Released(root: Root, c: nat): Root {
    Move(root, c, Idle).(
      buildLock := if root.buildLock == Some(c) then None else root.buildLock,
      supervisorLock := if root.supervisorLock == Probe(c) then Nobody else root.supervisorLock)
  }

  function Next(root: Root, step: Step): Root {
    match step
    case AcquireBuild(c) =>
      // A held lock refuses the operation.
      if At(root, c).Idle? && root.buildLock.None? then Move(root, c, Locked).(buildLock := Some(c)) else root
    case BeginProbe(c) =>
      if !At(root, c).Locked? then root
      else
        (match root.supervisorLock
         case Nobody => Move(root, c, Probing).(supervisorLock := Probe(c))
         case Owner(_) => Released(root, c)
         case Probe(_) => Released(root, c).(collided := true))
    case EndProbe(c) =>
      if At(root, c).Probing? then Move(root, c, Cleared).(supervisorLock := Nobody) else root
    case BeginPublish(c) =>
      if At(root, c).Cleared? then Move(root, c, Publishing) else root
    case EndPublish(c) =>
      if At(root, c).Publishing? then Move(root, c, Published).(release := root.release + 1) else root
    case Spawn(c, s) =>
      if At(root, c).Published? && s !in root.supervisors then
        Move(root, c, Awaiting(s)).(supervisors := root.supervisors[s := Starting(c, root.release)])
      else root
    case TakeLock(s) =>
      if s !in root.supervisors || !root.supervisors[s].Starting? then root
      else
        (match root.supervisorLock
         case Nobody =>
           root.(supervisors := root.supervisors[s := Serving(root.supervisors[s].release)], supervisorLock := Owner(s))
         case Owner(_) => root.(supervisors := root.supervisors[s := Exited])
         case Probe(_) => root.(supervisors := root.supervisors[s := Exited], collided := true))
    case Answer(c) =>
      var cli := At(root, c);
      if cli.Awaiting? && cli.supervisor in root.supervisors && root.supervisors[cli.supervisor].Serving? then
        Move(root, c, Attached)
      else root
    case Leave(c) =>
      if At(root, c).Idle? then root else Released(root, c)
    case Exit(s) =>
      if s in root.supervisors then
        root.(supervisors := root.supervisors[s := Exited],
              supervisorLock := if root.supervisorLock == Owner(s) then Nobody else root.supervisorLock)
      else root
  }

  /** The CLI gives up (its handshake budget ran out, or it was killed) on a
      supervisor that has neither taken its lock nor exited. */
  predicate Abandons(root: Root, step: Step) {
    && step.Leave? && At(root, step.c).Awaiting?
    && At(root, step.c).supervisor in root.supervisors
    && root.supervisors[At(root, step.c).supervisor].Starting?
  }

  /** The CLI that holds the build lock. */
  function Active(root: Root): Cli {
    if root.buildLock.Some? then At(root, root.buildLock.value) else Idle
  }

  ghost predicate Consistent(root: Root) {
    // The build lock's holder is the one CLI that is not idle.
    && (forall c: nat | c in root.clis && !root.clis[c].Idle? :: root.buildLock == Some(c))
    && (root.buildLock.Some? ==> !Active(root).Idle?)
    // A probe is the build lock's holder, and nothing is live once it has cleared.
    && (root.supervisorLock.Probe? ==> root.buildLock == Some(root.supervisorLock.cli))
    && (root.supervisorLock.Probe? <==> Active(root).Probing?)
    && (Active(root).Cleared? || Active(root).Publishing? || Active(root).Published? ==> root.supervisorLock == Nobody)
    // The supervisor lock's owner is the one supervisor that serves.
    && (root.supervisorLock.Owner? ==>
          root.supervisorLock.supervisor in root.supervisors
          && root.supervisors[root.supervisorLock.supervisor].Serving?)
    && (forall s: nat | s in root.supervisors ::
          && (root.supervisors[s].Serving? ==> root.supervisorLock == Owner(s))
          && (root.supervisors[s].Starting? ==>
                root.buildLock == Some(root.supervisors[s].parent) && Active(root) == Awaiting(s))
          && (!root.supervisors[s].Exited? ==> root.supervisors[s].release == root.release))
    && !root.collided
  }

  /** What the two locks are for. */
  ghost predicate Safe(root: Root) {
    // No release is being replaced while a supervisor holds its lock ...
    && (forall c: nat, s: nat :: At(root, c).Publishing? ==> root.supervisorLock != Owner(s))
    // ... so every live supervisor runs the release on disk, ...
    && (forall s | s in root.supervisors && root.supervisors[s].Serving? :: root.supervisors[s].release == root.release)
    // ... there is at most one of them, ...
    && (forall s, t | s in root.supervisors && t in root.supervisors
          && root.supervisors[s].Serving? && root.supervisors[t].Serving? :: s == t)
    // ... and no probe ever met another probe or a starting supervisor.
    && !root.collided
  }

  lemma ConsistentIsSafe(root: Root)
    requires Consistent(root)
    ensures Safe(root)
  {
    forall s, t | s in root.supervisors && t in root.supervisors
      && root.supervisors[s].Serving? && root.supervisors[t].Serving?
      ensures s == t
    {
      assert root.supervisorLock == Owner(s) && root.supervisorLock == Owner(t);
    }
  }

  lemma ProbeStepsKeep(root: Root, step: Step)
    requires Consistent(root) && (step.AcquireBuild? || step.BeginProbe? || step.EndProbe?)
    ensures Consistent(Next(root, step))
  {
  }

  lemma PublishStepsKeep(root: Root, step: Step)
    requires Consistent(root) && (step.BeginPublish? || step.EndPublish? || step.Spawn? || step.Answer?)
    ensures Consistent(Next(root, step))
  {
  }

  lemma SupervisorStepsKeep(root: Root, step: Step)
    requires Consistent(root) && (step.TakeLock? || step.Exit?)
    ensures Consistent(Next(root, step))
  {
  }

  lemma LeavingKeepsExactly(root: Root, step: Step)
    requires Consistent(root) && step.Leave?
    ensures Consistent(Next(root, step)) <==> !Abandons(root, step)
  {
    if Abandons(root, step) {
      var s := At(root, step.c).supervisor;
      assert s in Next(root, step).supervisors && Next(root, step).supervisors[s].Starting?;
    }
  }

  /** Every step keeps the invariant except exactly the abandoning ones. */
  lemma StepKeepsExactly(root: Root, step: Step)
    requires Consistent(root)
    ensures Consistent(Next(root, step)) <==> !Abandons(root, step)
  {
    if step.Leave? {
      LeavingKeepsExactly(root, step);
    } else if step.TakeLock? || step.Exit? {
      SupervisorStepsKeep(root, step);
    } else if step.AcquireBuild? || step.BeginProbe? || step.EndProbe? {
      ProbeStepsKeep(root, step);
    } else {
      PublishStepsKeep(root, step);
    }
  }

  function Run(root: Root, steps: seq<Step>): Root
    decreases |steps|
  {
    if steps == [] then root else Run(Next(root, steps[0]), steps[1..])
  }

  /** No CLI abandons a supervisor that is still starting. */
  ghost predicate Patient(root: Root, steps: seq<Step>)
    decreases |steps|
  {
    steps == [] || (!Abandons(root, steps[0]) && Patient(Next(root, steps[0]), steps[1..]))
  }

  function Fresh(): Root {
    Root(map[], map[], None, Nobody, 0, false)
  }

  lemma {:induction false} PatientRunsAreSafe(root: Root, steps: seq<Step>)
    requires Consistent(root) && Patient(root, steps)
    ensures Consistent(Run(root, steps)) && Safe(Run(root, steps))
    decreases |steps|
  {
    if steps == [] {
      ConsistentIsSafe(root);
    } else {
      StepKeepsExactly(root, steps[0]);
      PatientRunsAreSafe(Next(root, steps[0]), steps[1..]);
    }
  }

  lemma EveryPatientInterleavingIsSafe(steps: seq<Step>)
    requires Patient(Fresh(), steps)
    ensures Safe(Run(Fresh(), steps))
  {
    PatientRunsAreSafe(Fresh(), steps);
  }

  // ------------------------------------------------- what an abandonment costs

  lemma {:induction false} RunAppends(root: Root, steps: seq<Step>, step: Step)
    ensures Run(root, steps + [step]) == Next(Run(root, steps), step)
    ensures Patient(root, steps + [step]) <==> Patient(root, steps) && !Abandons(Run(root, steps), step)
    decreases |steps|
  {
    if steps == [] {
      assert [step][1..] == [];
    } else {
      assert (steps + [step])[1..] == steps[1..] + [step];
      RunAppends(Next(root, steps[0]), steps[1..], step);
    }
  }

  /** One more step of a patient run; only a leaving CLI can abandon. */
  lemma Continued(root: Root, steps: seq<Step>, step: Step) returns (more: seq<Step>)
    requires Patient(root, steps) && !step.Leave?
    ensures Patient(root, more) && Run(root, more) == Next(Run(root, steps), step)
  {
    more := steps + [step];
    RunAppends(root, steps, step);
  }

  lemma {:induction false} Unused(ids: set<nat>) returns (id: nat)
    ensures forall i | i in ids :: i < id
  {
    if ids == {} {
      id := 0;
    } else {
      var one :| one in ids;
      var rest := Unused(ids - {one});
      assert forall i | i in ids :: i == one || i in ids - {one};
      id := if one < rest then rest else one + 1;
    }
  }

  /** A supervisor that holds the lock may end. */
  lemma LockIsFreed(root: Root) returns (steps: seq<Step>)
    requires !root.supervisorLock.Probe?
    requires root.supervisorLock.Owner? ==> root.supervisorLock.supervisor in root.supervisors
    ensures Patient(root, steps)
    ensures var free := Run(root, steps);
            && free.supervisorLock == Nobody && free.clis == root.clis && free.buildLock == root.buildLock
            && forall s | s in root.supervisors && root.supervisorLock != Owner(s) ::
                 s in free.supervisors && free.supervisors[s] == root.supervisors[s]
  {
    steps := [];
    if root.supervisorLock.Owner? {
      steps := Continued(root, [], Exit(root.supervisorLock.supervisor));
    }
  }

  /** With both locks free a new CLI gets to publishing. */
  lemma PublishingBegins(root: Root, before: seq<Step>, d: nat) returns (steps: seq<Step>)
    requires Patient(root, before)
    requires Run(root, before).buildLock.None? && Run(root, before).supervisorLock == Nobody
    requires At(Run(root, before), d).Idle?
    ensures Patient(root, steps)
    ensures At(Run(root, steps), d).Publishing? && Run(root, steps).supervisorLock == Nobody
    ensures Run(root, steps).supervisors == Run(root, before).supervisors && Run(root, steps).buildLock == Some(d)
    ensures Run(root, steps).release == Run(root, before).release
    ensures Run(root, steps).collided == Run(root, before).collided
  {
    steps := Continued(root, before, AcquireBuild(d));
    steps := Continued(root, steps, BeginProbe(d));
    steps := Continued(root, steps, EndProbe(d));
    steps := Continued(root, steps, BeginPublish(d));
  }

  /** A launch succeeds where both locks are free: the CLI is attached to its own
      supervisor, which holds its lock and serves the release just published. */
  lemma ALaunchSucceeds(root: Root, c: nat, s: nat) returns (steps: seq<Step>)
    requires root.buildLock.None? && root.supervisorLock == Nobody && At(root, c).Idle? && s !in root.supervisors
    ensures Patient(root, steps)
    ensures var after := Run(root, steps);
            && At(after, c).Attached? && after.buildLock == Some(c) && after.supervisorLock == Owner(s)
            && after.release == root.release + 1 && after.collided == root.collided
            && after.supervisors == root.supervisors[s := Serving(after.release)]
  {
    steps := PublishingBegins(root, [], c);
    steps := SupervisorIsSpawned(root, steps, c, s);
    steps := Continued(root, steps, TakeLock(s));
    steps := Continued(root, steps, Answer(c));
  }

  /** The release is published and a supervisor spawned on it. */
  lemma SupervisorIsSpawned(root: Root, before: seq<Step>, c: nat, s: nat) returns (steps: seq<Step>)
    requires Patient(root, before) && At(Run(root, before), c).Publishing?
    requires s !in Run(root, before).supervisors
    ensures Patient(root, steps)
    ensures var (at, after) := (Run(root, before), Run(root, steps));
            && At(after, c) == Awaiting(s) && after.release == at.release + 1
            && after.supervisors == at.supervisors[s := Starting(c, after.release)]
            && after.buildLock == at.buildLock && after.supervisorLock == at.supervisorLock
            && after.collided == at.collided
  {
    steps := Continued(root, before, EndPublish(c));
    steps := Continued(root, steps, Spawn(c, s));
  }

  /** A CLI gets the build lock exactly when it is free, and past its probe exactly
      when no supervisor lives; refused it holds nothing. */
  lemma LaunchesAreRefusedExactly(root: Root, c: nat)
    requires Consistent(root)
    ensures At(root, c).Idle? ==>
      var after := Next(root, AcquireBuild(c));
      if root.buildLock.None? then At(after, c).Locked? && after.buildLock == Some(c) else after == root
    ensures At(root, c).Locked? ==>
      var after := Next(root, BeginProbe(c));
      if root.supervisorLock == Nobody then At(after, c).Probing?
      else At(after, c).Idle? && after.buildLock.None? && after.supervisorLock == root.supervisorLock
    ensures At(root, c).Locked? && (exists s | s in root.supervisors :: root.supervisors[s].Serving?) ==>
      At(Next(root, BeginProbe(c)), c).Idle?
  {
  }

  /** A waiting CLI is attached exactly once its own supervisor serves, and then
      that supervisor holds its lock and runs the release on disk. */
  lemma AttachedExactlyWhenServed(root: Root, c: nat)
    requires Consistent(root) && At(root, c).Awaiting?
    ensures var s := At(root, c).supervisor;
            && (At(Next(root, Answer(c)), c).Attached? <==> s in root.supervisors && root.supervisors[s].Serving?)
            && (At(Next(root, Answer(c)), c).Attached? ==>
                  root.supervisorLock == Owner(s) && root.supervisors[s].release == root.release)
  {
  }

  /** Every abandonment can be continued, with no further one, to a release that
      is being replaced under the supervisor's held lock. */
  lemma AbandonmentIsUnsafe(root: Root, step: Step) returns (steps: seq<Step>)
    requires Consistent(root) && Abandons(root, step)
    ensures Patient(Next(root, step), steps) && !Safe(Run(Next(root, step), steps))
  {
    var left, s := Next(root, step), At(root, step.c).supervisor;
    assert step.c in root.clis && root.buildLock == Some(step.c);
    var d := Unused(root.clis.Keys);
    var freed := LockIsFreed(left);
    var publishing := PublishingBegins(left, freed, d);
    steps := Continued(left, publishing, TakeLock(s));
    var root' := Run(left, steps);
    assert At(root', d).Publishing? && root'.supervisorLock == Owner(s);
  }

  /** A step leaves every patient continuation safe exactly when it abandons
      nobody. */
  lemma SafetyNeedsExactlyPatience(root: Root, step: Step)
    requires Consistent(root)
    ensures (forall steps | Patient(Next(root, step), steps) :: Safe(Run(Next(root, step), steps)))
      <==> !Abandons(root, step)
  {
    if Abandons(root, step) {
      var steps := AbandonmentIsUnsafe(root, step);
    } else {
      StepKeepsExactly(root, step);
      forall steps | Patient(Next(root, step), steps)
        ensures Safe(Run(Next(root, step), steps))
      {
        PatientRunsAreSafe(Next(root, step), steps);
      }
    }
  }

  /** An abandonment can happen: one `run` up to its supervisor's start. */
  lemma AnAbandonmentIsReachable() returns (steps: seq<Step>)
    ensures Patient(Fresh(), steps) && Consistent(Run(Fresh(), steps))
    ensures exists step :: Abandons(Run(Fresh(), steps), step)
  {
    steps := PublishingBegins(Fresh(), [], 1);
    steps := Continued(Fresh(), steps, EndPublish(1));
    steps := Continued(Fresh(), steps, Spawn(1, 9));
    PatientRunsAreSafe(Fresh(), steps);
    assert Abandons(Run(Fresh(), steps), Leave(1));
  }
}
