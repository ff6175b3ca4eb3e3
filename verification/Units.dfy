/** The systemd units of a bundle and their regeneration
    (cli/src/application/units.rs, cli/src/application/installation.rs). */
module Units {
  import opened Wrappers

  const UNIT_MARKER := "# Managed by phoxal"
  const TARGET_UNIT := "phoxal.target"
  const SYSTEMD_UNIT := "phoxal-supervisor.service"

  datatype RobotRuntime = RobotRuntime(participantId: string, binary: string, role: string)

  /** The parts of a unit's text that the framework's launch encoder and the
      fixed paths supply; a runtime that cannot be launched under its id has none. */
  datatype Renderer = Renderer(runtimeBody: RobotRuntime -> Option<string>, targetHead: string, targetTail: string)

  type Files = map<string, string>

  type Unit = (string, string)

  // ------------------------------------------------------------------- units

  function RuntimeUnitName(participant: string): string {
    "phoxal-" + participant + ".service"
  }

  predicate StartsWith(text: string, prefix: string) {
    |prefix| <= |text| && text[..|prefix|] == prefix
  }

  predicate EndsWith(text: string, suffix: string) {
    |suffix| <= |text| && text[|text| - |suffix|..] == suffix
  }

  predicate IsGeneratedUnit(name: string) {
    name == TARGET_UNIT
    || (StartsWith(name, "phoxal-") && EndsWith(name, ".service") && name != SYSTEMD_UNIT)
  }

  function Wants(runtimes: seq<RobotRuntime>): string {
    if runtimes == [] then ""
    else "Wants=" + RuntimeUnitName(runtimes[0].participantId) + "\n" + Wants(runtimes[1..])
  }

  function RuntimeUnits(render: Renderer, runtimes: seq<RobotRuntime>): Option<seq<Unit>> {
    if runtimes == [] then Some([])
    else
      var rest := RuntimeUnits(render, runtimes[1..]);
      var body := render.runtimeBody(runtimes[0]);
      if body.None? || rest.None? then None
      else Some([(RuntimeUnitName(runtimes[0].participantId), UNIT_MARKER + "\n" + body.value)] + rest.value)
  }

  function BundleUnits(render: Renderer, runtimes: seq<RobotRuntime>): Option<seq<Unit>> {
    match RuntimeUnits(render, runtimes)
    case None => None
    case Some(units) =>
      Some(units + [(TARGET_UNIT, UNIT_MARKER + "\n" + render.targetHead + Wants(runtimes) + render.targetTail)])
  }

  /** The first line of a text, without its line ending. */
  function FirstLine(text: string): Option<string> {
    if text == "" then None
    else
      var end := LineEnd(text);
      if 0 < end < |text| && text[end - 1] == '\r' then Some(text[..end - 1]) else Some(text[..end])
  }

  /** The index of the first newline, or the length. */
  function LineEnd(text: string): (end: nat)
    ensures end <= |text|
    ensures forall i | 0 <= i < end :: text[i] != '\n'
    ensures end < |text| ==> text[end] == '\n'
  {
    if text == "" || text[0] == '\n' then 0 else 1 + LineEnd(text[1..])
  }

  predicate Marked(contents: string) {
    FirstLine(contents) == Some(UNIT_MARKER)
  }

  lemma FirstLineIs(contents: string, line: string)
    requires line != "" && forall c | c in line :: c != '\n' && c != '\r'
    ensures FirstLine(contents) == Some(line) <==>
      contents == line || StartsWith(contents, line + "\n") || StartsWith(contents, line + "\r\n")
  {
    var n, end := |line|, LineEnd(contents);
    if contents == line || StartsWith(contents, line + "\n") {
      assert contents[..n] == line;
      assert forall i | 0 <= i < n :: contents[i] == line[i] && line[i] in line;
      assert n < |contents| ==> contents[n] == (line + "\n")[n];
      assert end == n && contents[n - 1] != '\r';
    } else if StartsWith(contents, line + "\r\n") {
      assert contents[..n] == line && contents[n] == (line + "\r\n")[n] && contents[n + 1] == (line + "\r\n")[n + 1];
      assert forall i | 0 <= i < n :: contents[i] == line[i] && line[i] in line;
      assert end == n + 1;
    }
  }

  /** A file is this client's exactly when its first line is the marker. */
  lemma MarkedExactly(contents: string)
    ensures Marked(contents) <==>
      contents == UNIT_MARKER || StartsWith(contents, UNIT_MARKER + "\n") || StartsWith(contents, UNIT_MARKER + "\r\n")
  {
    FirstLineIs(contents, UNIT_MARKER);
  }

  lemma MarkerMarks(rest: string)
    ensures Marked(UNIT_MARKER + "\n" + rest)
  {
    var text := UNIT_MARKER + "\n" + rest;
    var n := |UNIT_MARKER|;
    assert text[n] == '\n' && text[..n] == UNIT_MARKER;
    assert forall i | 0 <= i < n :: UNIT_MARKER[i] != '\n';
    assert forall i | 0 <= i < n :: text[i] == UNIT_MARKER[i];
    assert LineEnd(text) == n;
    assert text[n - 1] == 'l';
  }

  /** A list of units as the files it leaves: a later unit of one name wins. */
  function UnitMap(units: seq<Unit>): Files {
    if units == [] then map[] else map[units[0].0 := units[0].1] + UnitMap(units[1..])
  }

  ghost predicate AllMarked(units: seq<Unit>) {
    forall i | 0 <= i < |units| :: Marked(units[i].1)
  }

  lemma {:induction false} UnitMapHolds(units: seq<Unit>)
    ensures forall name :: name in UnitMap(units) <==> exists i | 0 <= i < |units| :: units[i].0 == name
    ensures AllMarked(units) ==> forall name | name in UnitMap(units) :: Marked(UnitMap(units)[name])
  {
    if units == [] {
    } else {
      UnitMapHolds(units[1..]);
      forall name ensures name in UnitMap(units) <==> exists i | 0 <= i < |units| :: units[i].0 == name {
        if i :| 0 <= i < |units| && units[i].0 == name && i > 0 {
          assert units[1..][i - 1].0 == name;
        }
        if name in UnitMap(units[1..]) {
          var i :| 0 <= i < |units[1..]| && units[1..][i].0 == name;
          assert units[i + 1].0 == name;
        }
      }
    }
  }

  /** One marked unit per runtime, in order, exactly when every runtime can be
      launched. */
  lemma {:induction false} RuntimeUnitsAre(render: Renderer, runtimes: seq<RobotRuntime>)
    ensures RuntimeUnits(render, runtimes).Some? <==>
      forall i | 0 <= i < |runtimes| :: render.runtimeBody(runtimes[i]).Some?
    ensures RuntimeUnits(render, runtimes).Some? ==>
      var units := RuntimeUnits(render, runtimes).value;
      && AllMarked(units) && |units| == |runtimes|
      && forall i | 0 <= i < |units| ::
           units[i] == (RuntimeUnitName(runtimes[i].participantId),
                        UNIT_MARKER + "\n" + render.runtimeBody(runtimes[i]).value)
  {
    if runtimes == [] {
    } else {
      RuntimeUnitsAre(render, runtimes[1..]);
      if render.runtimeBody(runtimes[0]).Some? {
        MarkerMarks(render.runtimeBody(runtimes[0]).value);
      }
      assert forall i | 1 <= i < |runtimes| :: runtimes[i] == runtimes[1..][i - 1];
    }
  }

  lemma Regrouped(a: string, b: string, c: string, d: string)
    ensures a + (b + c + d) == (a + b) + c + d
  {
  }

  /** The target pulls in each runtime's unit, in order and nothing else. */
  lemma {:induction false} TheTargetWantsEveryRuntime(runtimes: seq<RobotRuntime>, i: nat)
    requires i < |runtimes|
    ensures Wants(runtimes) ==
      Wants(runtimes[..i]) + ("Wants=" + RuntimeUnitName(runtimes[i].participantId) + "\n") + Wants(runtimes[i + 1..])
  {
    if i == 0 {
      assert runtimes[..0] == [];
    } else {
      var head := "Wants=" + RuntimeUnitName(runtimes[0].participantId) + "\n";
      var line := "Wants=" + RuntimeUnitName(runtimes[i].participantId) + "\n";
      TheTargetWantsEveryRuntime(runtimes[1..], i - 1);
      assert runtimes[1..][..i - 1] == runtimes[..i][1..] && runtimes[1..][i..] == runtimes[i + 1..];
      Regrouped(head, Wants(runtimes[..i][1..]), line, Wants(runtimes[i + 1..]));
    }
  }

  lemma RuntimeNamesAreGenerated(participant: string)
    ensures RuntimeUnitName(participant) == SYSTEMD_UNIT <==> participant == "supervisor"
    ensures participant != "supervisor" ==> IsGeneratedUnit(RuntimeUnitName(participant))
    ensures RuntimeUnitName(participant) != TARGET_UNIT
  {
    var name := RuntimeUnitName(participant);
    assert name[6] == '-';
    assert name[7..|name| - 8] == participant;
    assert SYSTEMD_UNIT[7..|SYSTEMD_UNIT| - 8] == "supervisor";
  }

  /** The generated names are the target's and those of runtimes not named `supervisor`. */
  lemma GeneratedNamesAreExact(name: string)
    ensures IsGeneratedUnit(name) <==>
      name == TARGET_UNIT || exists participant :: participant != "supervisor" && name == RuntimeUnitName(participant)
  {
    if IsGeneratedUnit(name) && name != TARGET_UNIT {
      assert name[6] == '-' && name[|name| - 8] == '.';
      assert |name| >= 15 by {
        assert forall k | 0 <= k < 7 :: name[k] == "phoxal-"[k];
        assert forall k | 0 <= k < 8 :: name[|name| - 8 + k] == ".service"[k];
      }
      var participant := name[7..|name| - 8];
      assert name == name[..7] + participant + name[|name| - 8..];
      RuntimeNamesAreGenerated(participant);
      assert name == RuntimeUnitName(participant);
    }
    if participant :| participant != "supervisor" && name == RuntimeUnitName(participant) {
      RuntimeNamesAreGenerated(participant);
    }
  }

  /** Two runtimes share a unit only if they share their id. */
  lemma RuntimeNamesDiffer(a: string, b: string)
    ensures RuntimeUnitName(a) == RuntimeUnitName(b) ==> a == b
  {
    assert RuntimeUnitName(a)[7..|RuntimeUnitName(a)| - 8] == a;
    assert RuntimeUnitName(b)[7..|RuntimeUnitName(b)| - 8] == b;
  }

  ghost predicate NamesASupervisor(runtimes: seq<RobotRuntime>) {
    exists i | 0 <= i < |runtimes| :: runtimes[i].participantId == "supervisor"
  }

  /** The text of the target: its fixed parts around what it pulls in. */
  function TargetText(render: Renderer, wanted: string): string {
    UNIT_MARKER + "\n" + (render.targetHead + wanted + render.targetTail)
  }

  /** Unit `i` belongs to runtime `i`, and the last one is the target. */
  lemma BundleUnitsAre(render: Renderer, runtimes: seq<RobotRuntime>)
    requires BundleUnits(render, runtimes).Some?
    ensures var units := BundleUnits(render, runtimes).value;
            && AllMarked(units) && |units| == |runtimes| + 1
            && units[|runtimes|] == (TARGET_UNIT, TargetText(render, Wants(runtimes)))
            && forall i | 0 <= i < |runtimes| :: units[i].0 == RuntimeUnitName(runtimes[i].participantId)
  {
    RuntimeUnitsAre(render, runtimes);
    var target := render.targetHead + Wants(runtimes) + render.targetTail;
    assert UNIT_MARKER + "\n" + render.targetHead + Wants(runtimes) + render.targetTail == UNIT_MARKER + "\n" + target;
    MarkerMarks(target);
  }

  /** A later unit of one name wins. */
  lemma {:induction false} LastUnitWins(units: seq<Unit>, i: nat)
    requires i < |units| && forall j | i < j < |units| :: units[j].0 != units[i].0
    ensures units[i].0 in UnitMap(units) && UnitMap(units)[units[i].0] == units[i].1
  {
    UnitMapHolds(units[1..]);
    if i > 0 {
      assert units[1..][i - 1] == units[i];
      LastUnitWins(units[1..], i - 1);
    }
  }

  /** Every runtime's own text is installed under its own name, unless a later one
      has the same id, and the target pulls it in: its line stands between those of
      the runtimes before and after it. */
  lemma EveryRuntimeIsInstalled(render: Renderer, runtimes: seq<RobotRuntime>, i: nat)
    requires BundleUnits(render, runtimes).Some? && i < |runtimes|
    requires forall j | i < j < |runtimes| :: runtimes[j].participantId != runtimes[i].participantId
    ensures var files := UnitMap(BundleUnits(render, runtimes).value);
            var name := RuntimeUnitName(runtimes[i].participantId);
            && name in files && TARGET_UNIT in files && render.runtimeBody(runtimes[i]).Some?
            && files[name] == UNIT_MARKER + "\n" + render.runtimeBody(runtimes[i]).value
            && files[TARGET_UNIT] ==
                 TargetText(render, Wants(runtimes[..i]) + ("Wants=" + name + "\n") + Wants(runtimes[i + 1..]))
  {
    var units := BundleUnits(render, runtimes).value;
    BundleUnitsAre(render, runtimes);
    RuntimeUnitsAre(render, runtimes);
    forall j | i < j < |units| ensures units[j].0 != units[i].0 {
      if j < |runtimes| {
        RuntimeNamesDiffer(runtimes[j].participantId, runtimes[i].participantId);
      } else {
        RuntimeNamesAreGenerated(runtimes[i].participantId);
      }
    }
    LastUnitWins(units, i);
    LastUnitWins(units, |runtimes|);
    TheTargetWantsEveryRuntime(runtimes, i);
  }

  lemma NamesOfUnits(units: seq<Unit>, runtimes: seq<RobotRuntime>)
    requires |units| == |runtimes| + 1 && units[|runtimes|].0 == TARGET_UNIT
    requires forall i | 0 <= i < |runtimes| :: units[i].0 == RuntimeUnitName(runtimes[i].participantId)
    ensures forall i | 0 <= i < |units| :: units[i].0 != SYSTEMD_UNIT ==> IsGeneratedUnit(units[i].0)
    ensures (exists i | 0 <= i < |units| :: units[i].0 == SYSTEMD_UNIT) <==> NamesASupervisor(runtimes)
  {
    forall i | 0 <= i < |runtimes|
      ensures units[i].0 == SYSTEMD_UNIT <==> runtimes[i].participantId == "supervisor"
      ensures units[i].0 != SYSTEMD_UNIT ==> IsGeneratedUnit(units[i].0)
    {
      RuntimeNamesAreGenerated(runtimes[i].participantId);
    }
    if i :| 0 <= i < |runtimes| && runtimes[i].participantId == "supervisor" {
      assert units[i].0 == SYSTEMD_UNIT;
    }
  }

  /** Every unit of a bundle carries the marker and a generated name, and one of
      them is the supervisor's own if and only if some runtime is so named. */
  lemma BundleUnitsAreManaged(render: Renderer, runtimes: seq<RobotRuntime>)
    requires BundleUnits(render, runtimes).Some?
    ensures var files := UnitMap(BundleUnits(render, runtimes).value);
            && TARGET_UNIT in files
            && (forall name | name in files :: Marked(files[name]) && (name != SYSTEMD_UNIT ==> IsGeneratedUnit(name)))
            && (SYSTEMD_UNIT in files <==> NamesASupervisor(runtimes))
  {
    var units := BundleUnits(render, runtimes).value;
    BundleUnitsAre(render, runtimes);
    NamesOfUnits(units, runtimes);
    UnitMapHolds(units);
  }

  // ------------------------------------------------------------ regeneration

  /** A unit of an earlier bundle: generated name, this client's marker, readable. */
  predicate Stale(name: string, contents: string, unreadable: set<string>, keep: Files) {
    IsGeneratedUnit(name) && name !in keep && name !in unreadable && Marked(contents)
  }

  function Pruned(files: Files, unreadable: set<string>, keep: Files): Files {
    map name | name in files && !Stale(name, files[name], unreadable, keep) :: files[name]
  }

  function Regenerated(files: Files, unreadable: set<string>, units: Files): Files {
    Pruned(files + units, unreadable, units)
  }

  /** No unit would replace a file that somebody else wrote. */
  predicate Writable(files: Files, units: Files) {
    forall name | name in units && name in files :: Marked(files[name])
  }

  /** A regeneration cut short: each file is as before, or written, or pruned. */
  ghost predicate Between(before: Files, units: Files, after: Files) {
    && (forall name | name in after ::
          (name in before && after[name] == before[name]) || (name in units && Marked(after[name])))
    && (forall name | name in before && name !in after :: IsGeneratedUnit(name) && Marked(before[name]))
    && (forall name | name in before && !Marked(before[name]) :: name in after && after[name] == before[name])
  }

  /** Whatever is at the names of the units can be read. */
  predicate Legible(units: seq<Unit>, unreadable: set<string>) {
    forall i | 0 <= i < |units| :: units[i].0 !in unreadable
  }

  datatype RegenerateError = UnreadableBundle | NotALaunchIdentity | ForeignUnit | Io

  /** `files` is the unit directory without this process's own
      `.candidate-<pid>` files, which are in `scratch`. */
  class UnitRoot {
    var files: Files
    var scratch: Files
    const unreadable: set<string>
    /** How many calls the operating system has failed so far. */
    ghost var faults: nat

    constructor (files: Files, unreadable: set<string>)
      ensures this.files == files && scratch == map[] && this.unreadable == unreadable && faults == 0
    {
      this.faults := 0;
      this.files := files;
      this.scratch := map[];
      this.unreadable := unreadable;
    }

    /** A call that the operating system may fail. */
    method Attempt() returns (ok: bool)
      modifies this`faults
      ensures faults == old(faults) + if ok then 0 else 1
    {
      ok := *;
      if !ok {
        faults := faults + 1;
      }
    }

    /** Write one unit beside its name and rename it into place. */
    method WriteManagedUnit(name: string, contents: string) returns (result: Result<(), RegenerateError>)
      requires Marked(contents)
      modifies this
      ensures result.Ok? ==> files == old(files)[name := contents] && (name in old(files) ==> Marked(old(files)[name]))
      ensures result.Err? ==> files == old(files)
      ensures result.Err? ==> result.error in {ForeignUnit, Io}
      ensures result == Err(ForeignUnit) ==> name in files && !Marked(files[name])
      ensures old(faults) <= faults && (result.Ok? ==> faults == old(faults))
      ensures result == Err(Io) ==> old(faults) < faults || (name in files && name in unreadable)
    {
      if name in files {
        if name in unreadable {
          return Err(Io);
        }
        var current := files[name];
        if !Marked(current) {
          return Err(ForeignUnit);
        }
        if current == contents {
          return Ok(());
        }
      }
      var written: string := *;
      scratch := scratch[name := written];
      var ok := Attempt();
      if !ok {
        return Err(Io);
      }
      scratch := scratch[name := contents];
      ok := Attempt();
      if !ok {
        return Err(Io);
      }
      files := files[name := scratch[name]];
      scratch := scratch - {name};
      result := Ok(());
    }

    method WriteUnits(units: seq<Unit>) returns (result: Result<(), RegenerateError>)
      requires AllMarked(units)
      modifies this
      ensures result.Ok? ==> Writable(old(files), UnitMap(units)) && files == old(files) + UnitMap(units)
      ensures result.Err? ==> Between(old(files), UnitMap(units), files) && result.error in {ForeignUnit, Io}
      ensures result == Err(ForeignUnit) ==> !Writable(old(files), UnitMap(units))
      ensures old(faults) <= faults && (result.Ok? ==> faults == old(faults))
      ensures result == Err(Io) ==> old(faults) < faults || !Legible(units, unreadable)
    {
      for i := 0 to |units|
        invariant faults == old(faults)
        invariant files == old(files) + UnitMap(units[..i])
        invariant Writable(old(files), UnitMap(units[..i]))
      {
        PrefixIsBetween(old(files), units, i);
        PrefixGrows(old(files), units, i);
        BlockedByAForeignFile(old(files), units, i);
        result := WriteManagedUnit(units[i].0, units[i].1);
        if result.Err? {
          return;
        }
      }
      assert units[..|units|] == units;
      result := Ok(());
    }

    /** `bundle` is what reading the release's runtimes gave. */
    method RegenerateRuntimeUnits(render: Renderer, bundle: Option<seq<RobotRuntime>>)
      returns (result: Result<(), RegenerateError>)
      modifies this
      ensures result.Ok? ==>
        && bundle.Some? && BundleUnits(render, bundle.value).Some?
        && Writable(old(files), UnitMap(BundleUnits(render, bundle.value).value))
        && files == Regenerated(old(files), unreadable, UnitMap(BundleUnits(render, bundle.value).value))
      // Each refusal has its cause, and only a foreign file in the way is called one.
      ensures result == Err(UnreadableBundle) <==> bundle.None?
      ensures result == Err(NotALaunchIdentity) <==> bundle.Some? && BundleUnits(render, bundle.value).None?
      ensures result == Err(ForeignUnit) ==>
        bundle.Some? && !Writable(old(files), UnitMap(BundleUnits(render, bundle.value).value))
      ensures bundle.None? || BundleUnits(render, bundle.value).None? ==> files == old(files)
      // And without a cause it succeeds.
      ensures bundle.Some? && BundleUnits(render, bundle.value).Some? && faults == old(faults) ==>
        var units := BundleUnits(render, bundle.value).value;
        Writable(old(files), UnitMap(units)) && Legible(units, unreadable) ==> result.Ok?
      ensures old(faults) <= faults && (result.Ok? ==> faults == old(faults))
      ensures result.Err? && bundle.Some? && BundleUnits(render, bundle.value).Some? ==>
        Between(old(files), UnitMap(BundleUnits(render, bundle.value).value), files)
    {
      if bundle.None? {
        return Err(UnreadableBundle);
      }
      var generated := BundleUnits(render, bundle.value);
      if generated.None? {
        return Err(NotALaunchIdentity);
      }
      BundleUnitsAre(render, bundle.value);
      UnitMapHolds(generated.value);
      var created := Attempt();
      if !created {
        return Err(Io);
      }
      result := WriteUnits(generated.value);
      if result.Ok? {
        result := RemoveStaleUnits(UnitMap(generated.value));
      }
    }

    /** Visit every entry of the directory once, in any order. */
    method RemoveStaleUnits(keep: Files) returns (result: Result<(), RegenerateError>)
      modifies this
      ensures result.Ok? ==> files == Pruned(old(files), unreadable, keep)
      ensures result.Err? ==> result.error.Io?
      ensures old(faults) <= faults && (result.Ok? <==> faults == old(faults))
      ensures forall name | name in files :: name in old(files) && files[name] == old(files)[name]
      ensures forall name | name in old(files) && name !in files :: Stale(name, old(files)[name], unreadable, keep)
    {
      var entries := files.Keys;
      while entries != {}
        invariant entries <= files.Keys <= old(files).Keys && faults == old(faults)
        invariant forall name | name in files :: files[name] == old(files)[name]
        invariant forall name | name in old(files) && name !in entries ::
          name in files <==> !Stale(name, old(files)[name], unreadable, keep)
        decreases |entries|
      {
        var name :| name in entries;
        entries := entries - {name};
        if !IsGeneratedUnit(name) || name in keep {
          continue;
        }
        if name !in unreadable && Marked(files[name]) {
          var removed := Attempt();
          if !removed {
            return Err(Io);
          }
          files := files - {name};
        }
      }
      var synced := Attempt();
      if !synced {
        return Err(Io);
      }
      result := Ok(());
    }
  }

  lemma {:induction false} UnitMapExtends(units: seq<Unit>, i: nat)
    requires i < |units|
    ensures UnitMap(units[..i + 1]) == UnitMap(units[..i])[units[i].0 := units[i].1]
  {
    if i == 0 {
      assert units[..1][1..] == [];
    } else {
      assert units[..i + 1][1..] == units[1..][..i] && units[..i][1..] == units[1..][..i - 1];
      UnitMapExtends(units[1..], i - 1);
    }
  }

  lemma PrefixIsBetween(before: Files, units: seq<Unit>, i: nat)
    requires i <= |units| && AllMarked(units)
    requires Writable(before, UnitMap(units[..i]))
    ensures Between(before, UnitMap(units), before + UnitMap(units[..i]))
  {
    UnitMapHolds(units[..i]);
    UnitMapHolds(units);
    forall name | name in UnitMap(units[..i]) ensures name in UnitMap(units) {
      var k :| 0 <= k < i && units[..i][k].0 == name;
      assert units[k].0 == name;
    }
  }

  /** A file in the way of unit `i` is nobody's unit of this bundle: it was there before. */
  lemma BlockedByAForeignFile(before: Files, units: seq<Unit>, i: nat)
    requires i < |units| && AllMarked(units)
    ensures var (name, now) := (units[i].0, before + UnitMap(units[..i]));
            name in now && !Marked(now[name]) ==> !Writable(before, UnitMap(units))
  {
    UnitMapHolds(units);
    UnitMapHolds(units[..i]);
    assert AllMarked(units[..i]);
  }

  lemma PrefixGrows(before: Files, units: seq<Unit>, i: nat)
    requires i < |units|
    requires Writable(before, UnitMap(units[..i]))
    ensures var (name, contents) := units[i];
            var now := before + UnitMap(units[..i]);
            && now[name := contents] == before + UnitMap(units[..i + 1])
            && ((name in now ==> Marked(now[name])) ==> Writable(before, UnitMap(units[..i + 1])))
  {
    var (name, contents) := units[i];
    UnitMapExtends(units, i);
    assert (before + UnitMap(units[..i]))[name := contents] == before + UnitMap(units[..i])[name := contents];
  }

  // -------------------------------------------------- sequences of activations

  /** The directory after regenerating for each of `bundles` in turn. */
  ghost function RegeneratedAll(files: Files, unreadable: set<string>, bundles: seq<Files>): Files
    decreases |bundles|
  {
    if bundles == [] then files
    else Regenerated(RegeneratedAll(files, unreadable, bundles[..|bundles| - 1]), unreadable, bundles[|bundles| - 1])
  }

  /** Each regeneration met no foreign file at a name it needed. */
  ghost predicate AllWritable(files: Files, unreadable: set<string>, bundles: seq<Files>)
    decreases |bundles|
  {
    bundles == [] ||
    var earlier := bundles[..|bundles| - 1];
    && AllWritable(files, unreadable, earlier)
    && Writable(RegeneratedAll(files, unreadable, earlier), bundles[|bundles| - 1])
  }

  /** The units of some bundle without a runtime named `supervisor`. */
  ghost predicate OrdinaryUnits(units: Files) {
    forall name | name in units :: IsGeneratedUnit(name) && Marked(units[name])
  }

  lemma OrdinaryBundles(render: Renderer, runtimes: seq<RobotRuntime>)
    requires BundleUnits(render, runtimes).Some?
    ensures OrdinaryUnits(UnitMap(BundleUnits(render, runtimes).value)) <==> !NamesASupervisor(runtimes)
  {
    BundleUnitsAreManaged(render, runtimes);
  }

  /** After any sequence of regenerations the managed units are exactly the last
      bundle's, whatever came before. */
  lemma ManagedUnitsAreTheLastBundles(files: Files, unreadable: set<string>, bundles: seq<Files>)
    requires bundles != [] && OrdinaryUnits(bundles[|bundles| - 1])
    ensures var units, after := bundles[|bundles| - 1], RegeneratedAll(files, unreadable, bundles);
            && (forall name | name in units :: name in after && after[name] == units[name])
            && (forall name | name !in unreadable ::
                  name in units <==> name in after && IsGeneratedUnit(name) && Marked(after[name]))
  {
  }

  /** Nothing anybody else wrote is ever touched, and neither is the
      supervisor's own unit. */
  lemma {:induction false} ForeignFilesAreUntouched(
    files: Files, unreadable: set<string>, bundles: seq<Files>, name: string)
    requires AllWritable(files, unreadable, bundles)
    requires forall i | 0 <= i < |bundles| :: OrdinaryUnits(bundles[i])
    requires !IsGeneratedUnit(name) || (name in files && !Marked(files[name]))
    ensures var after := RegeneratedAll(files, unreadable, bundles);
            && (name in files <==> name in after)
            && (name in files ==> after[name] == files[name])
    decreases |bundles|
  {
    if bundles == [] {
    } else {
      ForeignFilesAreUntouched(files, unreadable, bundles[..|bundles| - 1], name);
    }
  }

  lemma RegeneratingTwiceIsOnce(files: Files, unreadable: set<string>, units: Files)
    ensures var once := Regenerated(files, unreadable, units);
            Regenerated(once, unreadable, units) == once
  {
    var once := Regenerated(files, unreadable, units);
    assert once + units == once;
  }

  /** A runtime with id `supervisor` is the one way to rewrite the supervisor's
      own unit: it keeps its text exactly when no such unit is generated, or one
      is with the same text. */
  lemma SupervisorUnitKeptExactly(files: Files, unreadable: set<string>, render: Renderer, runtimes: seq<RobotRuntime>)
    requires SYSTEMD_UNIT in files && BundleUnits(render, runtimes).Some?
    ensures var units := UnitMap(BundleUnits(render, runtimes).value);
            var after := Regenerated(files, unreadable, units);
            && SYSTEMD_UNIT in after
            && (SYSTEMD_UNIT in units <==> NamesASupervisor(runtimes))
            && (after[SYSTEMD_UNIT] == files[SYSTEMD_UNIT] <==>
                  SYSTEMD_UNIT !in units || units[SYSTEMD_UNIT] == files[SYSTEMD_UNIT])
  {
    BundleUnitsAreManaged(render, runtimes);
  }
}
