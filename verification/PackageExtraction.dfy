/** Concurrent extraction of one verified package
    (crates/project/src/registry_package.rs, `extracted_root` and
    `extraction_is_complete`). Resolvers interleave between system calls. */
module PackageExtraction {
  import opened Wrappers

  /** A directory tree: its contents, whether it has any entry, whether its
      marker holds the wanted checksum and its manifest the wanted identity. */
  datatype Tree = Tree(contents: nat, empty: bool, marked: bool, identified: bool)

  datatype Root = Absent | NotADirectory | Directory(tree: Tree)

  datatype Failure = ExtractionFailed | Corrupt | NotPublished

  /** Which of the three completeness checks: before extracting, after it, after
      a refused rename. */
  datatype Check = First | Second(mine: Tree) | Third

  /** What a resolver does next; a completeness check is three calls. */
  datatype Phase =
    | LookAtDirectory(check: Check)
    | ReadMarker(check: Check)
    | ReadManifest(check: Check)
    | Extract
    | EnsureAbsent(mine: Tree)
    | Rename(mine: Tree)
    | BlameRoot
    | Done(outcome: Result<(), Failure>)

  datatype World = World(root: Root, phases: map<nat, Phase>)

  predicate WellMade(tree: Tree) {
    !tree.empty && tree.marked && tree.identified
  }

  predicate Complete(root: Root) {
    root.Directory? && WellMade(root.tree)
  }

  /** Something a rename cannot replace. */
  predicate Occupied(root: Root) {
    root.NotADirectory? || (root.Directory? && !root.tree.empty)
  }

  datatype Step =
    /** The next call of a resolver; `ok` is false when the operating system
        fails it, `tree` is what an extraction unpacks. */
    | Advance(id: nat, ok: bool, tree: Tree)
    | Killed(id: nat)

  predicate Enabled(w: World, step: Step) {
    && step.id in w.phases && !w.phases[step.id].Done?
    // Extraction verifies the manifest, then writes the checksum as the marker.
    && (step.Advance? && w.phases[step.id].Extract? && step.ok ==> WellMade(step.tree))
  }

  function To(w: World, id: nat, phase: Phase): World {
    w.(phases := w.phases[id := phase])
  }

  /** Where a completeness check that said no leads. */
  function Incomplete(check: Check): Phase {
    match check
    case First => Extract
    case Second(mine) => EnsureAbsent(mine)
    case Third => BlameRoot
  }

  function Apply(w: World, step: Step): World
    requires Enabled(w, step)
  {
    var id := step.id;
    if step.Killed? then To(w, id, Done(Err(NotPublished)))
    else
      match w.phases[id]
      case LookAtDirectory(check) =>
        To(w, id, if w.root.Directory? then ReadMarker(check) else Incomplete(check))
      case ReadMarker(check) =>
        To(w, id, if step.ok && w.root.Directory? && w.root.tree.marked then ReadManifest(check) else Incomplete(check))
      case ReadManifest(check) =>
        To(w, id, if step.ok && w.root.Directory? && w.root.tree.identified then Done(Ok(())) else Incomplete(check))
      case Extract =>
        To(w, id, if step.ok then LookAtDirectory(Second(step.tree)) else Done(Err(ExtractionFailed)))
      case EnsureAbsent(mine) =>
        To(w, id, if w.root.Absent? then Rename(mine) else Done(Err(Corrupt)))
      case Rename(mine) =>
        if step.ok && !Occupied(w.root) then To(w, id, Done(Ok(()))).(root := Directory(mine))
        else To(w, id, LookAtDirectory(Third))
      case BlameRoot =>
        To(w, id, Done(Err(if w.root.Absent? then NotPublished else Corrupt)))
      case Done(_) => w
  }

  // ------------------------------------------------------------------ invariant

  ghost predicate PhaseSound(w: World, phase: Phase) {
    match phase
    case LookAtDirectory(check) => check.Second? ==> WellMade(check.mine)
    case ReadMarker(check) => check.Second? ==> WellMade(check.mine)
    // The marker was read: a marked tree is not empty, so no rename replaces it.
    case ReadManifest(check) => (check.Second? ==> WellMade(check.mine)) && w.root.Directory? && w.root.tree.marked
    case EnsureAbsent(mine) => WellMade(mine)
    case Rename(mine) => WellMade(mine)
    case Done(Ok(_)) => Complete(w.root)
    case _ => true
  }

  /** An empty directory has neither marker nor manifest. */
  ghost predicate Coherent(root: Root) {
    root.Directory? && root.tree.empty ==> !root.tree.marked && !root.tree.identified
  }

  ghost predicate Sound(w: World) {
    Coherent(w.root) && forall id | id in w.phases :: PhaseSound(w, w.phases[id])
  }

  /** Any root whatever, and every resolver about to begin. */
  ghost predicate Initial(w: World) {
    Coherent(w.root) && forall id | id in w.phases :: w.phases[id] == LookAtDirectory(First)
  }

  lemma StepKeepsOne(w: World, step: Step, id: nat)
    requires Sound(w) && Enabled(w, step) && id in w.phases
    ensures id in Apply(w, step).phases
    ensures PhaseSound(Apply(w, step), Apply(w, step).phases[id])
  {
    assert PhaseSound(w, w.phases[step.id]);
    assert PhaseSound(w, w.phases[id]);
  }

  lemma StepKeeps(w: World, step: Step)
    requires Sound(w) && Enabled(w, step)
    ensures Sound(Apply(w, step))
  {
    var after := Apply(w, step);
    assert PhaseSound(w, w.phases[step.id]);
    assert after.phases.Keys == w.phases.Keys;
    assert forall id | id in after.phases :: PhaseSound(after, after.phases[id]) by {
      forall id | id in after.phases
        ensures PhaseSound(after, after.phases[id])
      {
        StepKeepsOne(w, step, id);
      }
    }
  }

  // ------------------------------------------------------------------- results

  ghost predicate Schedule(w: World, steps: seq<Step>)
    decreases |steps|
  {
    steps == [] || (Enabled(w, steps[0]) && Schedule(Apply(w, steps[0]), steps[1..]))
  }

  function Run(w: World, steps: seq<Step>): World
    requires Schedule(w, steps)
    decreases |steps|
  {
    if steps == [] then w else Run(Apply(w, steps[0]), steps[1..])
  }

  /** In every interleaving, whatever fails: a root that cannot be replaced is
      never changed, and any other changes once at most, into a complete tree. */
  lemma {:induction false} EveryScheduleIsSafe(w: World, steps: seq<Step>)
    requires Sound(w) && Schedule(w, steps)
    ensures Sound(Run(w, steps))
    ensures Occupied(w.root) ==> Run(w, steps).root == w.root
    ensures Run(w, steps).root == w.root || Complete(Run(w, steps).root)
    decreases |steps|
  {
    if steps != [] {
      StepKeeps(w, steps[0]);
      RootChangesByPublication(w, steps[0]);
      EveryScheduleIsSafe(Apply(w, steps[0]), steps[1..]);
    }
  }

  lemma RootChangesByPublication(w: World, step: Step)
    requires Sound(w) && Enabled(w, step)
    ensures Apply(w, step).root != w.root ==>
      !Occupied(w.root) && Complete(Apply(w, step).root) && Apply(w, step).phases[step.id] == Done(Ok(()))
  {
    assert PhaseSound(w, w.phases[step.id]);
  }

  /** Every success names a complete root, from then on for good. */
  lemma SuccessNamesACompleteRoot(w: World, steps: seq<Step>, later: seq<Step>, id: nat)
    requires Initial(w) && Schedule(w, steps) && Schedule(Run(w, steps), later)
    requires id in Run(w, steps).phases && Run(w, steps).phases[id] == Done(Ok(()))
    ensures Complete(Run(w, steps).root) && Run(Run(w, steps), later).root == Run(w, steps).root
  {
    EveryScheduleIsSafe(w, steps);
    assert PhaseSound(Run(w, steps), Run(w, steps).phases[id]);
    EveryScheduleIsSafe(Run(w, steps), later);
  }

  /** A root that was there, not empty and incomplete, stays as it was and no
      resolver succeeds. */
  lemma IncompleteRootIsLeftAlone(w: World, steps: seq<Step>, id: nat)
    requires Initial(w) && Schedule(w, steps) && Occupied(w.root) && !Complete(w.root)
    requires id in Run(w, steps).phases
    ensures Run(w, steps).root == w.root && Run(w, steps).phases[id] != Done(Ok(()))
  {
    EveryScheduleIsSafe(w, steps);
    assert PhaseSound(Run(w, steps), Run(w, steps).phases[id]);
  }

  /** Once the root is complete, a call that the operating system serves makes a
      resolver fail exactly at the two places that only ask whether the path
      exists: its own check denied the root before it appeared. Every other call
      that ends it ends in success. */
  lemma ACompleteRootIsRefusedExactlyThere(w: World, id: nat, tree: Tree)
    requires Sound(w) && Complete(w.root) && Enabled(w, Advance(id, true, tree))
    ensures var after := Apply(w, Advance(id, true, tree)).phases[id];
            && (after.Done? && after.outcome.Err? <==> w.phases[id].EnsureAbsent? || w.phases[id].BlameRoot?)
            && (after.Done? && after.outcome.Err? ==> after.outcome.error == Corrupt)
  {
    assert PhaseSound(w, w.phases[id]);
  }

  lemma Prefixed(w: World, step: Step, rest: seq<Step>)
    requires Enabled(w, step) && Schedule(Apply(w, step), rest)
    ensures Schedule(w, [step] + rest) && Run(w, [step] + rest) == Run(Apply(w, step), rest)
  {
    assert ([step] + rest)[1..] == rest;
  }

  // ---------------------------------------------------------------- successes

  /** How many calls this resolver made. */
  function Calls(steps: seq<Step>, id: nat): nat {
    if steps == [] then 0 else Calls(steps[1..], id) + if steps[0].id == id then 1 else 0
  }

  /** The operating system serves each of its calls, and nobody kills it. */
  ghost predicate Served(steps: seq<Step>, id: nat) {
    forall i | 0 <= i < |steps| && steps[i].id == id :: steps[i].Advance? && steps[i].ok
  }

  /** The calls still ahead when a completeness check is answered yes. */
  function CallsLeft(phase: Phase): nat {
    match phase
    case Extract => 4
    case Rename(_) => 4
    case LookAtDirectory(_) => 3
    case ReadMarker(_) => 2
    case ReadManifest(_) => 1
    case _ => 0
  }

  predicate Accepting(phase: Phase) {
    CallsLeft(phase) > 0 || phase == Done(Ok(()))
  }

  /** A complete root is accepted: whatever the others do meanwhile, a resolver whose
      calls are served succeeds with the third call of its check, be it before its
      extraction, after it or after a refused rename. */
  lemma {:induction false} ACompleteRootIsAccepted(w: World, steps: seq<Step>, id: nat)
    requires Sound(w) && Complete(w.root) && Schedule(w, steps) && Served(steps, id)
    requires id in w.phases && Accepting(w.phases[id])
    ensures id in Run(w, steps).phases && Accepting(Run(w, steps).phases[id])
    ensures CallsLeft(Run(w, steps).phases[id]) + Calls(steps, id) == CallsLeft(w.phases[id])
    decreases |steps|
  {
    if steps != [] {
      StepKeeps(w, steps[0]);
      RootChangesByPublication(w, steps[0]);
      ACompleteRootIsAccepted(Apply(w, steps[0]), steps[1..], id);
    }
  }

  /** Let this resolver alone make its next calls, all of them served. */
  function Alone(w: World, id: nat, tree: Tree, calls: nat): World
    requires id in w.phases && WellMade(tree)
    ensures id in Alone(w, id, tree, calls).phases
    decreases calls
  {
    if calls == 0 || w.phases[id].Done? then w
    else Alone(Apply(w, Advance(id, true, tree)), id, tree, calls - 1)
  }

  /** A check asks at most three times and says yes exactly over a complete root. */
  lemma ACheckAnswersExactly(w: World, id: nat, tree: Tree, check: Check) returns (calls: nat)
    requires Coherent(w.root) && id in w.phases && w.phases[id] == LookAtDirectory(check) && WellMade(tree)
    ensures 1 <= calls <= 3
    ensures Alone(w, id, tree, calls) == To(w, id, if Complete(w.root) then Done(Ok(())) else Incomplete(check))
  {
    var w1 := Apply(w, Advance(id, true, tree));
    var w2 := if w1.phases[id].ReadMarker? then Apply(w1, Advance(id, true, tree)) else w1;
    calls := if !w.root.Directory? then 1 else if !w.root.tree.marked then 2 else 3;
    if calls == 1 {
      assert Alone(w, id, tree, 1) == Alone(w1, id, tree, 0) == To(w, id, Incomplete(check));
    } else if calls == 2 {
      assert Alone(w, id, tree, 2) == Alone(w1, id, tree, 1) == Alone(w2, id, tree, 0) == To(w, id, Incomplete(check));
    } else {
      assert w2 == To(w, id, ReadManifest(check));
      assert Alone(w, id, tree, 3) == Alone(w1, id, tree, 2) == Alone(w2, id, tree, 1);
    }
  }

  lemma {:induction false} AloneAdds(w: World, id: nat, tree: Tree, first: nat, second: nat)
    requires id in w.phases && WellMade(tree)
    ensures Alone(w, id, tree, first + second) == Alone(Alone(w, id, tree, first), id, tree, second)
    decreases first
  {
    if first > 0 && !w.phases[id].Done? {
      AloneAdds(Apply(w, Advance(id, true, tree)), id, tree, first - 1, second);
    }
  }

  lemma TwiceTo(w: World, id: nat, first: Phase, second: Phase)
    ensures To(To(w, id, first), id, second) == To(w, id, second)
  {
  }

  /** Past both checks an absent root is taken, anything else refused. */
  lemma AnEnding(w: World, id: nat, tree: Tree, calls: nat)
    requires id in w.phases && w.phases[id] == EnsureAbsent(tree) && WellMade(tree) && 2 <= calls
    ensures Alone(w, id, tree, calls) ==
      if w.root.Absent? then To(w, id, Done(Ok(()))).(root := Directory(tree)) else To(w, id, Done(Err(Corrupt)))
  {
    var w1 := Apply(w, Advance(id, true, tree));
    if w.root.Absent? {
      var w2 := Apply(w1, Advance(id, true, tree));
      assert Alone(w, id, tree, calls) == Alone(w1, id, tree, calls - 1) == Alone(w2, id, tree, calls - 2) == w2;
    } else {
      assert Alone(w, id, tree, calls) == Alone(w1, id, tree, calls - 1) == w1;
    }
  }

  /** An undisturbed resolver succeeds exactly over a complete root or over none,
      where it publishes its own; anything else stays as it is and is refused. */
  lemma AnUndisturbedResolverSucceedsExactly(w: World, id: nat, tree: Tree)
    requires Coherent(w.root) && id in w.phases && w.phases[id] == LookAtDirectory(First) && WellMade(tree)
    ensures Alone(w, id, tree, 9) ==
      if Complete(w.root) then To(w, id, Done(Ok(())))
      else if w.root.Absent? then To(w, id, Done(Ok(()))).(root := Directory(tree))
      else To(w, id, Done(Err(Corrupt)))
  {
    var first := ACheckAnswersExactly(w, id, tree, First);
    AloneAdds(w, id, tree, first, 9 - first);
    if !Complete(w.root) {
      var extracted := To(w, id, LookAtDirectory(Second(tree)));
      TwiceTo(w, id, Extract, LookAtDirectory(Second(tree)));
      assert Alone(To(w, id, Extract), id, tree, 9 - first) == Alone(extracted, id, tree, 8 - first);
      var second := ACheckAnswersExactly(extracted, id, tree, Second(tree));
      TwiceTo(w, id, LookAtDirectory(Second(tree)), EnsureAbsent(tree));
      AloneAdds(extracted, id, tree, second, 8 - first - second);
      AnEnding(To(w, id, EnsureAbsent(tree)), id, tree, 8 - first - second);
      TwiceTo(w, id, EnsureAbsent(tree), Done(if w.root.Absent? then Ok(()) else Err(Corrupt)));
    }
  }

  /** What a failure says was so when its last call was made. */
  lemma FailuresHaveCauses(w: World, step: Step)
    requires Sound(w) && Enabled(w, step) && Apply(w, step).phases[step.id].Done?
    ensures match Apply(w, step).phases[step.id].outcome
      case Ok(_) => Complete(Apply(w, step).root)
      case Err(Corrupt) => !w.root.Absent?
      case Err(NotPublished) => step.Killed? || w.root.Absent?
      case Err(ExtractionFailed) => step.Advance? && !step.ok
  {
    assert PhaseSound(w, w.phases[step.id]);
  }

  /** How many calls a resolver still has ahead of it at most. */
  function Ahead(phase: Phase): nat {
    match phase
    case LookAtDirectory(check) => 3 + AheadOf(check)
    case ReadMarker(check) => 2 + AheadOf(check)
    case ReadManifest(check) => 1 + AheadOf(check)
    case Extract => 10
    case EnsureAbsent(_) => 6
    case Rename(_) => 5
    case BlameRoot => 1
    case Done(_) => 0
  }

  function AheadOf(check: Check): nat {
    match check
    case First => 10
    case Second(_) => 6
    case Third => 1
  }

  /** However the others interleave, a resolver returns after at most thirteen calls. */
  lemma {:induction false} EveryResolverReturns(w: World, steps: seq<Step>, id: nat)
    requires Schedule(w, steps) && id in w.phases
    ensures id in Run(w, steps).phases
    ensures Calls(steps, id) + Ahead(Run(w, steps).phases[id]) <= Ahead(w.phases[id]) <= 13
    decreases |steps|
  {
    if steps != [] {
      CallIsProgress(w, steps[0], id);
      EveryResolverReturns(Apply(w, steps[0]), steps[1..], id);
    }
  }

  lemma CallIsProgress(w: World, step: Step, id: nat)
    requires Enabled(w, step) && id in w.phases
    ensures id in Apply(w, step).phases
    ensures Ahead(Apply(w, step).phases[id]) + (if step.id == id then 1 else 0) <= Ahead(w.phases[id]) <= 13
  {
  }

  function Both(root: Root, a: Phase, b: Phase): World {
    World(root, map[0 := a, 1 := b])
  }

  /** Both resolvers past their own check: the second one loses. */
  lemma LateLoserFails(tree: Tree) returns (steps: seq<Step>)
    requires WellMade(tree)
    ensures var w := Both(Absent, EnsureAbsent(tree), EnsureAbsent(tree));
            Schedule(w, steps) && Run(w, steps) == Both(Directory(tree), Done(Ok(())), Done(Err(Corrupt)))
  {
    var a, b := Advance(0, true, tree), Advance(1, true, tree);
    var w := Both(Absent, EnsureAbsent(tree), EnsureAbsent(tree));
    var w1 := Apply(w, a);
    var w2 := Apply(w1, a);
    var w3 := Apply(w2, b);
    assert w3 == Both(Directory(tree), Done(Ok(())), Done(Err(Corrupt)));
    Prefixed(w2, b, []);
    Prefixed(w1, a, [b] + []);
    Prefixed(w, a, [a] + ([b] + []));
    steps := [a] + ([a] + ([b] + []));
  }

  /** Two resolvers of one package start on an absent root; the first publishes
      while the second has checked and not yet looked again: it fails over a
      complete root. */
  lemma NotEveryResolverSucceeds(tree: Tree) returns (steps: seq<Step>)
    requires WellMade(tree)
    ensures var w := Both(Absent, LookAtDirectory(First), LookAtDirectory(First));
            Initial(w) && Schedule(w, steps) && Run(w, steps) == Both(Directory(tree), Done(Ok(())), Done(Err(Corrupt)))
  {
    var a, b := Advance(0, true, tree), Advance(1, true, tree);
    var w := Both(Absent, LookAtDirectory(First), LookAtDirectory(First));
    var w1 := Apply(w, a);
    var w2 := Apply(w1, b);
    var w3 := Apply(w2, a);
    var w4 := Apply(w3, b);
    var w5 := Apply(w4, a);
    assert Apply(w5, b) == Both(Absent, EnsureAbsent(tree), EnsureAbsent(tree));
    var race := LateLoserFails(tree);
    Prefixed(w5, b, race);
    Prefixed(w4, a, [b] + race);
    Prefixed(w3, b, [a] + ([b] + race));
    Prefixed(w2, a, [b] + ([a] + ([b] + race)));
    Prefixed(w1, b, [a] + ([b] + ([a] + ([b] + race))));
    Prefixed(w, a, [b] + ([a] + ([b] + ([a] + ([b] + race)))));
    steps := [a] + ([b] + ([a] + ([b] + ([a] + ([b] + race)))));
  }
}
