/** Convergence of an orphaned native process group
    (crates/host/src/world/process_control.rs). The process table, the file
    system and the clock answer arbitrarily; every exchange is recorded. */
module NativeControl {
  import opened Wrappers

  const EXIT_GRACE: nat := 3_000
  const TERM_BUDGET: nat := 20_000
  const KILL_BUDGET: nat := 1_000
  const POLL_INTERVAL: nat := 100

  datatype Signal = Terminate | Kill

  datatype Process = Process(pid: nat, startedAt: nat)

  datatype Observed = Observed(process: Process, executable: string, group: nat)

  datatype Identity = Identity(process: Process, executable: string, group: Option<nat>)

  datatype Error =
    | NoGroup | GroupIsNotThePid | ProbeFailed | NoCanonicalPath | NotCanonical | ObserveFailed
    | ProcessAbsent | BirthChanged | ExecutableChanged | GroupChanged | SignalFailed | Survived

  /** One exchange with the system; `None` where it answered with an error. */
  datatype Step =
    | Waited(millis: nat)
    | Probed(group: nat, alive: Option<bool>)
    | Resolved(canonical: Option<string>)
    | Inspected(pid: nat, seen: Option<Option<Observed>>)
    | Signalled(group: nat, signal: Signal, delivered: bool)

  // ------------------------------------------------------ what a trace means

  ghost function Waits(trace: seq<Step>): nat {
    if trace == [] then 0
    else
      var last := trace[|trace| - 1];
      Waits(trace[..|trace| - 1]) + if last.Waited? then last.millis else 0
  }

  ghost function Signals(trace: seq<Step>): seq<Signal> {
    if trace == [] then []
    else
      var last := trace[|trace| - 1];
      Signals(trace[..|trace| - 1]) + if last.Signalled? then [last.signal] else []
  }

  /** The last two exchanges of `trace` validated `expected`. */
  ghost predicate JustValidated(expected: Identity, trace: seq<Step>) {
    && |trace| >= 2
    && trace[|trace| - 2] == Resolved(Some(expected.executable))
    && trace[|trace| - 1].Inspected?
    && (match trace[|trace| - 1].seen
        case Some(Some(observed)) =>
          && observed.process == expected.process
          && observed.executable == expected.executable
          && expected.group == Some(observed.group)
        case _ => false)
  }

  ghost predicate SeenAlive(trace: seq<Step>, group: nat) {
    trace != [] && trace[|trace| - 1] == Probed(group, Some(true))
  }

  ghost predicate SeenDead(trace: seq<Step>, group: nat) {
    trace != [] && trace[|trace| - 1] == Probed(group, Some(false))
  }

  /** A signal goes to the recorded group, which was seen alive and then
      validated in the exchanges before it, at its own time and in its order. */
  ghost predicate MaySignal(expected: Identity, before: seq<Step>, group: nat, signal: Signal) {
    && group == expected.process.pid && expected.group == Some(group)
    && JustValidated(expected, before)
    && SeenAlive(before[..|before| - 2], group)
    && Waits(before) == (if signal.Terminate? then EXIT_GRACE else EXIT_GRACE + TERM_BUDGET)
    && Signals(before) == (if signal.Terminate? then [] else [Terminate])
  }

  /** What may come next: nothing after a refusal or an answer other than
      "alive", the grace at the start, a poll interval only over a group just
      seen alive, and the three calls of a validation in their order. */
  ghost predicate MayFollow(expected: Identity, before: seq<Step>, step: Step) {
    && (before == [] || Continues(before[|before| - 1]))
    && match step
       case Signalled(group, signal, _) => MaySignal(expected, before, group, signal)
       case Probed(group, _) => expected.group == Some(group)
       case Waited(millis) =>
         if before == [] then millis == EXIT_GRACE
         else SeenAlive(before, expected.process.pid) && 0 < millis <= POLL_INTERVAL
       case Resolved(_) => SeenAlive(before, expected.process.pid)
       case Inspected(pid, _) =>
         pid == expected.process.pid && before != [] && before[|before| - 1] == Resolved(Some(expected.executable))
  }

  predicate Continues(step: Step) {
    && (step.Probed? ==> step.alive == Some(true))
    && (step.Signalled? ==> step.delivered)
  }

  ghost predicate Proper(expected: Identity, trace: seq<Step>) {
    trace == [] ||
    (Proper(expected, trace[..|trace| - 1]) && MayFollow(expected, trace[..|trace| - 1], trace[|trace| - 1]))
  }

  lemma Recorded(expected: Identity, trace: seq<Step>, step: Step)
    ensures Waits(trace + [step]) == Waits(trace) + if step.Waited? then step.millis else 0
    ensures Signals(trace + [step]) == Signals(trace) + if step.Signalled? then [step.signal] else []
    ensures Proper(expected, trace) && MayFollow(expected, trace, step) ==> Proper(expected, trace + [step])
  {
    assert (trace + [step])[..|trace|] == trace;
  }

  /** Every signal of a convergence has its validation directly before it. */
  lemma {:induction false} EverySignalIsValidated(expected: Identity, trace: seq<Step>, i: nat)
    requires Proper(expected, trace) && i < |trace| && trace[i].Signalled?
    ensures MaySignal(expected, trace[..i], trace[i].group, trace[i].signal)
  {
    if i < |trace| - 1 {
      EverySignalIsValidated(expected, trace[..|trace| - 1], i);
      assert trace[..|trace| - 1][..i] == trace[..i];
    }
  }

  /** At most one terminate, then at most one kill. */
  lemma {:induction false} AtMostTwoSignals(expected: Identity, trace: seq<Step>)
    requires Proper(expected, trace)
    ensures Signals(trace) <= [Terminate, Kill]
  {
    if trace != [] {
      AtMostTwoSignals(expected, trace[..|trace| - 1]);
    }
  }

  // -------------------------------------------------------------- the machine

  class Control {
    ghost var trace: seq<Step>

    constructor ()
      ensures trace == []
    {
      trace := [];
    }

    method Wait(millis: nat)
      modifies this
      ensures trace == old(trace) + [Waited(millis)]
    {
      trace := trace + [Waited(millis)];
    }

    method Probe(group: nat) returns (alive: Option<bool>)
      modifies this
      ensures trace == old(trace) + [Probed(group, alive)]
    {
      alive := *;
      trace := trace + [Probed(group, alive)];
    }

    method Canonicalize(executable: string) returns (canonical: Option<string>)
      modifies this
      ensures trace == old(trace) + [Resolved(canonical)]
    {
      canonical := *;
      trace := trace + [Resolved(canonical)];
    }

    method Observe(pid: nat) returns (seen: Option<Option<Observed>>)
      modifies this
      ensures trace == old(trace) + [Inspected(pid, seen)]
    {
      seen := *;
      trace := trace + [Inspected(pid, seen)];
    }

    method SendSignal(group: nat, signal: Signal) returns (delivered: bool)
      modifies this
      ensures trace == old(trace) + [Signalled(group, signal, delivered)]
    {
      delivered := *;
      trace := trace + [Signalled(group, signal, delivered)];
    }

    /** Only an exact match of birth, executable and group passes. */
    method Validate(expected: Identity) returns (refusal: Option<Error>)
      requires Proper(expected, trace) && SeenAlive(trace, expected.process.pid)
      modifies this
      ensures Proper(expected, trace)
      ensures Waits(trace) == old(Waits(trace)) && Signals(trace) == old(Signals(trace))
      ensures |trace| > |old(trace)| && !trace[|trace| - 1].Probed?
      ensures refusal.None? <==>
        |trace| == |old(trace)| + 2 && JustValidated(expected, trace)
      ensures refusal.None? ==> trace[..|trace| - 2] == old(trace)
      ensures refusal.Some? ==>
        Explained(expected, trace, refusal.value) && refusal.value !in {NoGroup, GroupIsNotThePid}
    {
      var canonical := Canonicalize(expected.executable);
      Recorded(expected, old(trace), Resolved(canonical));
      if canonical.None? {
        return Some(NoCanonicalPath);
      }
      if canonical.value != expected.executable {
        return Some(NotCanonical);
      }
      ghost var resolved := trace;
      var seen := Observe(expected.process.pid);
      Recorded(expected, resolved, Inspected(expected.process.pid, seen));
      if seen.None? {
        return Some(ObserveFailed);
      }
      if seen.value.None? {
        return Some(ProcessAbsent);
      }
      var observed := seen.value.value;
      if observed.process != expected.process {
        return Some(BirthChanged);
      }
      if observed.executable != canonical.value {
        return Some(ExecutableChanged);
      }
      if expected.group != Some(observed.group) {
        return Some(GroupChanged);
      }
      refusal := None;
    }

    /** Poll until the group is gone or `budget` is used up; the last answer. */
    method AwaitExit(expected: Identity, group: nat, budget: nat) returns (alive: Option<bool>)
      requires Proper(expected, trace) && expected.group == Some(group) && group == expected.process.pid
      requires trace != [] && Continues(trace[|trace| - 1])
      modifies this
      ensures Proper(expected, trace) && Signals(trace) == old(Signals(trace))
      ensures trace != [] && trace[|trace| - 1] == Probed(group, alive)
      ensures old(Waits(trace)) <= Waits(trace) <= old(Waits(trace)) + budget
      ensures alive == Some(true) ==> Waits(trace) == old(Waits(trace)) + budget
    {
      ghost var start := Waits(trace);
      var remaining := budget;
      while remaining > 0
        invariant 0 <= remaining <= budget
        invariant Proper(expected, trace) && Signals(trace) == old(Signals(trace))
        invariant trace != [] && Continues(trace[|trace| - 1])
        invariant Waits(trace) == start + budget - remaining
      {
        alive := Look(expected, group);
        if alive != Some(true) {
          return;
        }
        var interval := if POLL_INTERVAL < remaining then POLL_INTERVAL else remaining;
        ghost var before := trace;
        Wait(interval);
        Recorded(expected, before, Waited(interval));
        remaining := remaining - interval;
      }
      alive := Look(expected, group);
    }

    method Look(expected: Identity, group: nat) returns (alive: Option<bool>)
      requires Proper(expected, trace) && expected.group == Some(group)
      requires trace != [] && Continues(trace[|trace| - 1])
      modifies this
      ensures trace == old(trace) + [Probed(group, alive)]
      ensures Proper(expected, trace) && Waits(trace) == old(Waits(trace)) && Signals(trace) == old(Signals(trace))
    {
      alive := Probe(group);
      Recorded(expected, old(trace), Probed(group, alive));
    }

    method Deliver(expected: Identity, group: nat, signal: Signal) returns (delivered: bool)
      requires Proper(expected, trace) && MaySignal(expected, trace, group, signal)
      modifies this
      ensures trace == old(trace) + [Signalled(group, signal, delivered)]
      ensures Proper(expected, trace) && Waits(trace) == old(Waits(trace))
      ensures Signals(trace) == old(Signals(trace)) + [signal]
    {
      delivered := SendSignal(group, signal);
      Recorded(expected, old(trace), Signalled(group, signal, delivered));
    }

    /** Validate, signal, wait. `None` as long as the group lives on. */
    method Round(expected: Identity, group: nat, signal: Signal, budget: nat) returns (ended: Option<Result<(), Error>>)
      requires Proper(expected, trace) && expected.group == Some(group) && group == expected.process.pid
      requires SeenAlive(trace, group)
      requires Waits(trace) == if signal.Terminate? then EXIT_GRACE else EXIT_GRACE + TERM_BUDGET
      requires Signals(trace) == if signal.Terminate? then [] else [Terminate]
      modifies this
      ensures Proper(expected, trace)
      ensures Waits(trace) <= old(Waits(trace)) + budget
      ensures ended.Some? && ended.value.Ok? <==> SeenDead(trace, group)
      ensures ended.None? ==>
        && SeenAlive(trace, group)
        && Waits(trace) == old(Waits(trace)) + budget
        && Signals(trace) == old(Signals(trace)) + [signal]
      ensures ended.Some? && ended.value.Err? ==>
        Explained(expected, trace, ended.value.error) && ended.value.error !in {NoGroup, GroupIsNotThePid}
    {
      var refusal := Validate(expected);
      if refusal.Some? {
        return Some(Err(refusal.value));
      }
      var delivered := Deliver(expected, group, signal);
      if !delivered {
        return Some(Err(SignalFailed));
      }
      var alive := AwaitExit(expected, group, budget);
      match alive
      case None => ended := Some(Err(ProbeFailed));
      case Some(false) => ended := Some(Ok(()));
      case Some(true) => ended := None;
    }

    /** Terminate, then kill, each with its own budget. */
    method Escalate(expected: Identity, group: nat) returns (r: Result<(), Error>)
      requires Proper(expected, trace) && expected.group == Some(group) && group == expected.process.pid
      requires SeenAlive(trace, group) && Waits(trace) == EXIT_GRACE && Signals(trace) == []
      modifies this
      ensures Proper(expected, trace)
      ensures Waits(trace) <= EXIT_GRACE + TERM_BUDGET + KILL_BUDGET
      ensures r.Ok? <==> SeenDead(trace, group)
      ensures r.Err? ==> Explained(expected, trace, r.error) && r.error !in {NoGroup, GroupIsNotThePid}
    {
      var rounds := [(Terminate, TERM_BUDGET), (Kill, KILL_BUDGET)];
      for i := 0 to 2
        invariant Proper(expected, trace) && SeenAlive(trace, group)
        invariant Waits(trace) == EXIT_GRACE + (if i >= 1 then TERM_BUDGET else 0) + (if i >= 2 then KILL_BUDGET else 0)
        invariant Signals(trace) == if i == 0 then [] else if i == 1 then [Terminate] else [Terminate, Kill]
      {
        var ended := Round(expected, group, rounds[i].0, rounds[i].1);
        if ended.Some? {
          return ended.value;
        }
      }
      r := Err(Survived);
    }

    /** Whatever the system answers: success exactly when the last thing seen is
        that the group is gone, at most 24 seconds of waiting, signals only as
        `Proper` allows, and the final failure only after both signals were sent
        and all the time was given. */
    method Converge(expected: Identity) returns (r: Result<(), Error>)
      requires trace == []
      modifies this
      ensures Proper(expected, trace)
      ensures Waits(trace) <= EXIT_GRACE + TERM_BUDGET + KILL_BUDGET
      ensures r.Ok? <==> expected.group.Some? && SeenDead(trace, expected.group.value)
      ensures r == Err(NoGroup) <==> expected.group.None?
      ensures r == Err(GroupIsNotThePid) <==> expected.group.Some? && expected.group.value != expected.process.pid
      ensures r.Err? ==> Explained(expected, trace, r.error)
    {
      if expected.group.None? {
        return Err(NoGroup);
      }
      var group := expected.group.value;
      if group != expected.process.pid {
        return Err(GroupIsNotThePid);
      }
      var alive := Grace(expected, group);
      match alive
      case None => r := Err(ProbeFailed);
      case Some(false) => r := Ok(());
      case Some(true) => r := Escalate(expected, group);
    }

    method Grace(expected: Identity, group: nat) returns (alive: Option<bool>)
      requires trace == [] && expected.group == Some(group)
      modifies this
      ensures Proper(expected, trace) && Waits(trace) == EXIT_GRACE && Signals(trace) == []
      ensures trace != [] && trace[|trace| - 1] == Probed(group, alive)
    {
      Wait(EXIT_GRACE);
      Recorded(expected, [], Waited(EXIT_GRACE));
      ghost var waited := trace;
      alive := Probe(group);
      Recorded(expected, waited, Probed(group, alive));
    }
  }

  /** The exchange that forces an error is the last one: nothing else ends a
      convergence that has not seen the group gone. */
  ghost predicate Explained(expected: Identity, trace: seq<Step>, error: Error) {
    if error.NoGroup? || error.GroupIsNotThePid? then trace == []
    else
      && trace != []
      && var last := trace[|trace| - 1];
         match error
         case ProbeFailed => last.Probed? && last.alive.None?
         case NoCanonicalPath => last == Resolved(None)
         case NotCanonical => last.Resolved? && last.canonical.Some? && last.canonical.value != expected.executable
         case SignalFailed => last.Signalled? && !last.delivered
         case Survived => Exhausted(expected, trace)
         case ObserveFailed => last.Inspected? && last.seen.None?
         case ProcessAbsent => last.Inspected? && last.seen == Some(None)
         case _ => last.Inspected? && Differs(expected, last.seen, error)
  }

  /** The first of birth, executable and group that is not the recorded one. */
  ghost predicate Differs(expected: Identity, seen: Option<Option<Observed>>, error: Error) {
    match seen
    case Some(Some(observed)) =>
      if observed.process != expected.process then error.BirthChanged?
      else if observed.executable != expected.executable then error.ExecutableChanged?
      else expected.group != Some(observed.group) && error.GroupChanged?
    case _ => false
  }

  /** A trace explains one error at most, and none once the group was seen gone. */
  lemma ErrorsAreDetermined(expected: Identity, trace: seq<Step>, e: Error, f: Error)
    requires Explained(expected, trace, e) && trace != []
    ensures !SeenDead(trace, expected.process.pid)
    ensures Explained(expected, trace, f) ==> e == f
  {
  }

  /** Both signals sent, every budget used up, the group still alive. */
  ghost predicate Exhausted(expected: Identity, trace: seq<Step>) {
    && SeenAlive(trace, expected.process.pid)
    && Waits(trace) == EXIT_GRACE + TERM_BUDGET + KILL_BUDGET
    && Signals(trace) == [Terminate, Kill]
  }
}
