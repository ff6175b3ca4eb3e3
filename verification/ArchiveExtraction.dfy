/** Unpacking a verified package archive into a private directory
    (crates/project/src/registry_package.rs, `extract_checked_archive_with_limits`
    and `archive_relative`). */
module ArchiveExtraction {
  import opened Wrappers

  const U64_MAX: nat := 0xFFFF_FFFF_FFFF_FFFF
  const MANIFEST: Names := ["Cargo.toml"]

  datatype Component = Normal(name: string) | ParentDir | CurDir | RootDir

  type Names = seq<string>

  type Bytes = seq<bv8>

  datatype Kind = DirectoryEntry | FileEntry | OtherEntry

  /** An entry as the tar reader yields it: a header that does not parse is not
      `readable`, and `data` is `None` when the copy fails. */
  datatype Entry = Entry(readable: bool, path: Option<seq<Component>>, kind: Kind, size: nat, data: Option<Bytes>)

  datatype Error =
    | OutsideRoot | RootIsAFile | UnsafePath
    | TooManyEntries | Unreadable | InvalidPath | Unsupported | TooLarge | NotWritten | NoManifest | WrongIdentity

  // --------------------------------------------------------------------- paths

  function Rest(path: seq<Component>): (names: Result<Names, Error>)
    ensures names.Ok? <==> forall i | 0 <= i < |path| :: path[i].Normal?
    ensures names.Ok? ==> |names.value| == |path| && forall i | 0 <= i < |path| :: path[i] == Normal(names.value[i])
    ensures names.Err? ==> names.error == UnsafePath
  {
    if path == [] then Ok([])
    else
      var rest := Rest(path[1..]);
      if !path[0].Normal? || rest.Err? then Err(UnsafePath) else Ok([path[0].name] + rest.value)
  }

  function ArchiveRelative(path: seq<Component>, root: string, isDirectory: bool): Result<Names, Error> {
    if path == [] || path[0] != Normal(root) then Err(OutsideRoot)
    else if |path| == 1 && !isDirectory then Err(RootIsAFile)
    else Rest(path[1..])
  }

  /** Where a path leads from the directory `base`. */
  function Resolve(base: Names, path: seq<Component>): Names
    decreases |path|
  {
    if path == [] then base
    else
      match path[0]
      case Normal(name) => Resolve(base + [name], path[1..])
      case ParentDir => Resolve(if base == [] then [] else base[..|base| - 1], path[1..])
      case CurDir => Resolve(base, path[1..])
      case RootDir => Resolve([], path[1..])
  }

  lemma {:induction false} NormalPathsDescend(base: Names, path: seq<Component>, names: Names)
    requires |path| == |names| && forall i | 0 <= i < |path| :: path[i] == Normal(names[i])
    ensures Resolve(base, path) == base + names
    decreases |path|
  {
    if path != [] {
      NormalPathsDescend(base + [names[0]], path[1..], names[1..]);
      assert base + [names[0]] + names[1..] == base + names;
    }
  }

  /** An accepted entry is written below the destination, at the path the
      archive names below its own root. */
  lemma AcceptedPathsStayInside(destination: Names, path: seq<Component>, root: string, isDirectory: bool)
    requires ArchiveRelative(path, root, isDirectory).Ok?
    ensures Resolve(destination, path[1..]) == destination + ArchiveRelative(path, root, isDirectory).value
    ensures destination <= Resolve(destination, path[1..])
    ensures !isDirectory ==> destination < Resolve(destination, path[1..])
  {
    NormalPathsDescend(destination, path[1..], Rest(path[1..]).value);
  }

  function Normals(names: Names): (path: seq<Component>)
    ensures |path| == |names| && forall i | 0 <= i < |names| :: path[i] == Normal(names[i])
  {
    seq(|names|, i requires 0 <= i < |names| => Normal(names[i]))
  }

  /** What is accepted is the archive's own root followed by plain names, of which
      a file needs one, and each refusal says what is wrong with the path. */
  lemma PathsAreAcceptedExactly(path: seq<Component>, root: string, isDirectory: bool, names: Names)
    ensures ArchiveRelative(path, root, isDirectory) == Ok(names) <==>
      path == [Normal(root)] + Normals(names) && (names != [] || isDirectory)
    ensures ArchiveRelative(path, root, isDirectory) == Err(OutsideRoot) <==> path == [] || path[0] != Normal(root)
    ensures ArchiveRelative(path, root, isDirectory) == Err(RootIsAFile) <==> path == [Normal(root)] && !isDirectory
  {
    if path == [Normal(root)] + Normals(names) {
      assert path[1..] == Normals(names);
      assert Rest(path[1..]).value == names;
    }
    if path != [] && path[0] == Normal(root) {
      assert path == [path[0]] + path[1..];
      if Rest(path[1..]) == Ok(names) {
        assert path[1..] == Normals(names);
      }
    }
  }

  // ---------------------------------------------------------------- acceptance

  predicate EntryFits(e: Entry, root: string) {
    && e.readable && e.path.Some? && !e.kind.OtherEntry?
    && ArchiveRelative(e.path.value, root, e.kind.DirectoryEntry?).Ok?
    && (e.kind.FileEntry? ==> e.data.Some?)
  }

  predicate AllFit(entries: seq<Entry>, root: string) {
    forall i | 0 <= i < |entries| :: EntryFits(entries[i], root)
  }

  function Place(e: Entry, root: string): (names: Names)
    requires EntryFits(e, root)
    ensures e.kind.FileEntry? ==> names != []
  {
    ArchiveRelative(e.path.value, root, e.kind.DirectoryEntry?).value
  }

  /** `names` has to be a directory for the entry to be unpacked. */
  predicate NeedsDirectory(e: Entry, root: string, names: Names)
    requires EntryFits(e, root)
  {
    names <= Place(e, root) && (names != Place(e, root) || e.kind.DirectoryEntry?)
  }

  /** Some path is a file of one entry and a directory of another. */
  ghost predicate Clash(entries: seq<Entry>, root: string)
    requires AllFit(entries, root)
  {
    exists i, j | 0 <= i < |entries| && 0 <= j < |entries| ::
      entries[i].kind.FileEntry? && NeedsDirectory(entries[j], root, Place(entries[i], root))
  }

  /** The expanded size of the file entries. */
  function Total(entries: seq<Entry>): nat {
    if entries == [] then 0
    else
      var last := entries[|entries| - 1];
      Total(entries[..|entries| - 1]) + if last.kind.FileEntry? then last.size else 0
  }

  function Saturated(n: nat): nat {
    if n <= U64_MAX then n else U64_MAX
  }

  /** A limit below the top of the 64-bit range bounds the true size. */
  lemma LimitsAreExactBelowTheTop(entries: seq<Entry>, limit: nat)
    requires limit < U64_MAX
    ensures Saturated(Total(entries)) <= limit <==> Total(entries) <= limit
  {
  }

  /** What the last file entry at `names` holds. */
  ghost function LastContents(entries: seq<Entry>, root: string, names: Names): Option<Bytes>
    requires AllFit(entries, root)
  {
    if entries == [] then None
    else
      var last := entries[|entries| - 1];
      if last.kind.FileEntry? && Place(last, root) == names then last.data
      else LastContents(entries[..|entries| - 1], root, names)
  }

  datatype Limits = Limits(entries: nat, bytes: nat)

  ghost predicate Packed(entries: seq<Entry>, root: string, limits: Limits) {
    && |entries| <= limits.entries
    && AllFit(entries, root)
    && Saturated(Total(entries)) <= limits.bytes
    && !Clash(entries, root)
  }

  ghost predicate Acceptable(entries: seq<Entry>, root: string, limits: Limits, identified: Bytes -> bool) {
    && Packed(entries, root, limits)
    && LastContents(entries, root, MANIFEST).Some?
    && identified(LastContents(entries, root, MANIFEST).value)
  }

  // ----------------------------------------------------------------- directory

  datatype Node = Directory | File(data: Bytes)

  type Tree = map<Names, Node>

  /** Some entry is at `names` or below it. */
  ghost predicate Reached(entries: seq<Entry>, root: string, names: Names)
    requires AllFit(entries, root)
  {
    exists i | 0 <= i < |entries| :: names <= Place(entries[i], root)
  }

  /** The directory holds exactly the entries, the last one of a name winning,
      and the directories on the way to them. */
  ghost predicate Holds(tree: Tree, entries: seq<Entry>, root: string)
    requires AllFit(entries, root)
  {
    && (forall names :: names in tree <==> names == [] || Reached(entries, root, names))
    && (forall names | names in tree ::
          tree[names] == match LastContents(entries, root, names) case None => Directory case Some(data) => File(data))
  }

  /** `create_dir_all`: refused where a file is in the way. */
  function WithDirectories(tree: Tree, names: Names): Option<Tree> {
    if exists i | 0 <= i <= |names| :: names[..i] in tree && tree[names[..i]].File? then None
    else Some(tree + map i | 0 <= i <= |names| :: names[..i] := Directory)
  }

  function WithFile(tree: Tree, names: Names, data: Bytes): Option<Tree> {
    if names in tree && tree[names].Directory? then None else Some(tree[names := File(data)])
  }

  function Unpacked(tree: Tree, e: Entry, root: string): Option<Tree>
    requires EntryFits(e, root)
  {
    var names := Place(e, root);
    if e.kind.DirectoryEntry? then WithDirectories(tree, names)
    else
      match WithDirectories(tree, names[..|names| - 1])
      case None => None
      case Some(made) => WithFile(made, names, e.data.value)
  }

  lemma DirectoriesMade(tree: Tree, names: Names)
    ensures WithDirectories(tree, names).None? <==> exists p :: p <= names && p in tree && tree[p].File?
    ensures WithDirectories(tree, names).Some? ==>
      var made := WithDirectories(tree, names).value;
      && (forall p :: p in made <==> p in tree || p <= names)
      && (forall p | p in tree :: made[p] == tree[p])
      && (forall p | p <= names && p !in tree :: made[p] == Directory)
  {
    assert forall p: Names | p <= names :: p == names[..|p|];
    if WithDirectories(tree, names).Some? {
      var made := WithDirectories(tree, names).value;
      forall p: Names | p <= names ensures p in made {
        assert names[..|p|] in made;
      }
    } else {
      var i :| 0 <= i <= |names| && names[..i] in tree && tree[names[..i]].File?;
      assert names[..i] <= names;
    }
  }

  lemma {:induction false} ContentsComeFromAFile(entries: seq<Entry>, root: string, names: Names)
    requires AllFit(entries, root)
    ensures LastContents(entries, root, names).Some? <==>
      exists i | 0 <= i < |entries| :: entries[i].kind.FileEntry? && Place(entries[i], root) == names
  {
    if entries != [] {
      var n := |entries| - 1;
      ContentsComeFromAFile(entries[..n], root, names);
      if i :| 0 <= i < |entries| && entries[i].kind.FileEntry? && Place(entries[i], root) == names && i < n {
        assert entries[..n][i] == entries[i];
      }
      if entries[n].kind.FileEntry? && Place(entries[n], root) == names {
        assert LastContents(entries, root, names) == entries[n].data;
      }
    }
  }

  /** No two entries clash: a path with contents is nobody's directory. */
  ghost predicate Ordered(tree: Tree, done: seq<Entry>, root: string)
    requires AllFit(done, root)
  {
    Holds(tree, done, root) && !Clash(done, root)
  }

  lemma FileInTheWayClashes(tree: Tree, done: seq<Entry>, root: string, e: Entry, p: Names)
    requires AllFit(done, root) && EntryFits(e, root) && Ordered(tree, done, root)
    requires p in tree && tree[p].File? && NeedsDirectory(e, root, p)
    ensures Clash(done + [e], root)
  {
    ContentsComeFromAFile(done, root, p);
    var i :| 0 <= i < |done| && done[i].kind.FileEntry? && Place(done[i], root) == p;
    var all := done + [e];
    assert all[i] == done[i] && all[|done|] == e;
  }

  lemma DirectoryInTheWayClashes(tree: Tree, done: seq<Entry>, root: string, e: Entry)
    requires AllFit(done, root) && EntryFits(e, root) && Ordered(tree, done, root)
    requires e.kind.FileEntry? && Place(e, root) in tree && tree[Place(e, root)].Directory?
    ensures Clash(done + [e], root)
  {
    var p := Place(e, root);
    ContentsComeFromAFile(done, root, p);
    assert Reached(done, root, p);
    var j :| 0 <= j < |done| && p <= Place(done[j], root);
    assert NeedsDirectory(done[j], root, p);
    var all := done + [e];
    assert all[j] == done[j] && all[|done|] == e;
  }

  /** The directory an entry is put into, or is. */
  function Folder(e: Entry, root: string): Names
    requires EntryFits(e, root)
  {
    var names := Place(e, root);
    if e.kind.DirectoryEntry? then names else names[..|names| - 1]
  }

  lemma FolderPrefixes(e: Entry, root: string, p: Names)
    requires EntryFits(e, root)
    ensures NeedsDirectory(e, root, p) <==> p <= Folder(e, root)
    ensures p <= Place(e, root) <==> p <= Folder(e, root) || p == Place(e, root)
  {
    var names := Place(e, root);
    if p <= names {
      assert p == names[..|p|];
    }
  }

  lemma OldFileBlocks(tree: Tree, done: seq<Entry>, root: string, e: Entry, i: nat)
    requires AllFit(done, root) && EntryFits(e, root) && Ordered(tree, done, root)
    requires i < |done| && done[i].kind.FileEntry? && NeedsDirectory(e, root, Place(done[i], root))
    ensures Unpacked(tree, e, root).None?
  {
    var p := Place(done[i], root);
    ContentsComeFromAFile(done, root, p);
    assert Reached(done, root, p);
    FolderPrefixes(e, root, p);
    DirectoriesMade(tree, Folder(e, root));
  }

  lemma OldDirectoryBlocks(tree: Tree, done: seq<Entry>, root: string, e: Entry, j: nat)
    requires AllFit(done, root) && EntryFits(e, root) && Ordered(tree, done, root)
    requires j < |done| && e.kind.FileEntry? && NeedsDirectory(done[j], root, Place(e, root))
    ensures Unpacked(tree, e, root).None?
  {
    var p := Place(e, root);
    ContentsComeFromAFile(done, root, p);
    assert Reached(done, root, p);
    assert tree[p].Directory?;
    DirectoriesMade(tree, Folder(e, root));
  }

  /** The converse: a clash of a new entry is met by its unpacking. */
  lemma ClashIsMet(tree: Tree, done: seq<Entry>, root: string, e: Entry)
    requires AllFit(done, root) && EntryFits(e, root) && Ordered(tree, done, root)
    requires AllFit(done + [e], root) && Clash(done + [e], root)
    ensures Unpacked(tree, e, root).None?
  {
    var all := done + [e];
    var i, j :| 0 <= i < |all| && 0 <= j < |all|
      && all[i].kind.FileEntry? && NeedsDirectory(all[j], root, Place(all[i], root));
    if i < |done| {
      if j == |done| {
        OldFileBlocks(tree, done, root, e, i);
      }
    } else if j < |done| {
      OldDirectoryBlocks(tree, done, root, e, j);
    }
  }

  lemma DirectoryEntryHolds(tree: Tree, done: seq<Entry>, root: string, e: Entry)
    requires AllFit(done, root) && EntryFits(e, root) && Ordered(tree, done, root)
    requires e.kind.DirectoryEntry? && Unpacked(tree, e, root).Some?
    ensures Holds(Unpacked(tree, e, root).value, done + [e], root)
  {
    var made, all := Unpacked(tree, e, root).value, done + [e];
    DirectoriesMade(tree, Place(e, root));
    PlacesGrow(done, e, root);
    forall p | p in made
      ensures made[p] == match LastContents(all, root, p) case None => Directory case Some(data) => File(data)
    {
      ContentsAfter(done, e, root, p);
      ContentsComeFromAFile(done, root, p);
    }
  }

  lemma FileEntryHolds(tree: Tree, done: seq<Entry>, root: string, e: Entry)
    requires AllFit(done, root) && EntryFits(e, root) && Ordered(tree, done, root)
    requires e.kind.FileEntry? && Unpacked(tree, e, root).Some?
    ensures Holds(Unpacked(tree, e, root).value, done + [e], root)
  {
    var made, all := Unpacked(tree, e, root).value, done + [e];
    var folders := WithDirectories(tree, Folder(e, root)).value;
    DirectoriesMade(tree, Folder(e, root));
    assert made == folders[Place(e, root) := File(e.data.value)];
    PlacesGrow(done, e, root);
    forall p
      ensures p in made <==> p == [] || Reached(all, root, p)
    {
      FolderPrefixes(e, root, p);
    }
    forall p | p in made
      ensures made[p] == match LastContents(all, root, p) case None => Directory case Some(data) => File(data)
    {
      ContentsAfter(done, e, root, p);
      ContentsComeFromAFile(done, root, p);
    }
  }

  lemma ContentsAfter(done: seq<Entry>, e: Entry, root: string, p: Names)
    requires AllFit(done, root) && EntryFits(e, root)
    ensures AllFit(done + [e], root)
    ensures LastContents(done + [e], root, p) ==
      if e.kind.FileEntry? && Place(e, root) == p then e.data else LastContents(done, root, p)
  {
    assert (done + [e])[..|done|] == done;
  }

  lemma PlacesGrow(done: seq<Entry>, e: Entry, root: string)
    requires AllFit(done, root) && EntryFits(e, root)
    ensures AllFit(done + [e], root)
    ensures forall p :: Reached(done + [e], root, p) <==> Reached(done, root, p) || p <= Place(e, root)
  {
    var all := done + [e];
    forall p
      ensures Reached(all, root, p) <==> Reached(done, root, p) || p <= Place(e, root)
    {
      assert all[|done|] == e;
      if i :| 0 <= i < |done| && p <= Place(done[i], root) {
        assert p <= Place(all[i], root);
      }
    }
  }

  lemma ClashGrows(done: seq<Entry>, entries: seq<Entry>, root: string)
    requires AllFit(entries, root) && done <= entries
    ensures AllFit(done, root) && (Clash(done, root) ==> Clash(entries, root))
  {
    assert forall i | 0 <= i < |done| :: done[i] == entries[i];
  }

  /** One more entry is unpacked exactly when it clashes with none before it. */
  lemma EntryUnpacks(tree: Tree, done: seq<Entry>, root: string, e: Entry)
    requires AllFit(done, root) && EntryFits(e, root) && Ordered(tree, done, root)
    ensures AllFit(done + [e], root)
    ensures Unpacked(tree, e, root).Some? <==> !Clash(done + [e], root)
    ensures Unpacked(tree, e, root).Some? ==> Ordered(Unpacked(tree, e, root).value, done + [e], root)
  {
    PlacesGrow(done, e, root);
    if Unpacked(tree, e, root).Some? {
      if Clash(done + [e], root) {
        ClashIsMet(tree, done, root, e);
      }
      if e.kind.DirectoryEntry? {
        DirectoryEntryHolds(tree, done, root, e);
      } else {
        FileEntryHolds(tree, done, root, e);
      }
    } else {
      var folder := Folder(e, root);
      DirectoriesMade(tree, folder);
      if WithDirectories(tree, folder).None? {
        var p :| p <= folder && p in tree && tree[p].File?;
        FolderPrefixes(e, root, p);
        FileInTheWayClashes(tree, done, root, e, p);
      } else {
        DirectoryInTheWayClashes(tree, done, root, e);
      }
    }
  }

  lemma {:induction false} TotalGrows(entries: seq<Entry>, i: nat)
    requires i <= |entries|
    ensures Total(entries[..i]) <= Total(entries)
  {
    if i < |entries| {
      TotalGrows(entries[..|entries| - 1], i);
      assert entries[..|entries| - 1][..i] == entries[..i];
    } else {
      assert entries[..i] == entries;
    }
  }

  // ------------------------------------------------------------------ the loop

  method Examine(e: Entry, root: string) returns (relative: Result<Names, Error>)
    ensures relative.Ok? <==>
      && e.readable && e.path.Some? && !e.kind.OtherEntry?
      && ArchiveRelative(e.path.value, root, e.kind.DirectoryEntry?).Ok?
    ensures relative.Ok? ==> relative == ArchiveRelative(e.path.value, root, e.kind.DirectoryEntry?)
    ensures relative.Err? ==>
      match relative.error
      case Unreadable => !e.readable
      case InvalidPath => e.path.None?
      case Unsupported => e.kind.OtherEntry?
      case error =>
        e.path.Some? && ArchiveRelative(e.path.value, root, e.kind.DirectoryEntry?) == Err(error)
        && error in {OutsideRoot, RootIsAFile, UnsafePath}
  {
    if !e.readable {
      return Err(Unreadable);
    }
    if e.path.None? {
      return Err(InvalidPath);
    }
    relative := ArchiveRelative(e.path.value, root, e.kind.DirectoryEntry?);
    if relative.Ok? && e.kind.OtherEntry? {
      return Err(Unsupported);
    }
  }

  datatype Progress = Progress(tree: Tree, expanded: nat, sawManifest: bool)

  /** What the extraction knows after `i` entries. */
  ghost predicate Unpacking(p: Progress, entries: seq<Entry>, i: nat, root: string, limits: Limits)
    requires i <= |entries|
  {
    && i <= limits.entries && AllFit(entries[..i], root)
    && Ordered(p.tree, entries[..i], root)
    && p.expanded == Saturated(Total(entries[..i])) && p.expanded <= limits.bytes
    && (p.sawManifest <==> LastContents(entries[..i], root, MANIFEST).Some?)
  }

  /** One entry of the loop; what it refuses, no archive with that entry may hold. */
  method ExtractEntry(p: Progress, entries: seq<Entry>, i: nat, root: string, limits: Limits)
    returns (next: Result<Progress, Error>)
    requires i < |entries| && Unpacking(p, entries, i, root, limits)
    ensures next.Ok? ==> Unpacking(next.value, entries, i + 1, root, limits)
    ensures next.Err? ==> !Packed(entries, root, limits) && !next.error.NoManifest? && !next.error.WrongIdentity?
    ensures next == Err(TooManyEntries) ==> |entries| > limits.entries
    ensures next == Err(TooLarge) ==> Saturated(Total(entries)) > limits.bytes
  {
    ghost var done := entries[..i];
    var e := entries[i];
    assert entries[..i + 1] == done + [e] && (done + [e])[..i] == done;
    if i + 1 > limits.entries {
      return Err(TooManyEntries);
    }
    var relative := Examine(e, root);
    if relative.Err? {
      return Err(relative.error);
    }
    var expanded, sawManifest := p.expanded, p.sawManifest;
    if e.kind.FileEntry? {
      expanded := Saturated(expanded + e.size);
      if expanded > limits.bytes {
        TotalGrows(entries, i + 1);
        return Err(TooLarge);
      }
      if e.data.None? {
        return Err(NotWritten);
      }
      sawManifest := sawManifest || relative.value == MANIFEST;
    }
    EntryUnpacks(p.tree, done, root, e);
    ContentsAfter(done, e, root, MANIFEST);
    var unpacked := Unpacked(p.tree, e, root);
    if unpacked.None? {
      if AllFit(entries, root) {
        ClashGrows(done + [e], entries, root);
      }
      return Err(NotWritten);
    }
    next := Ok(Progress(unpacked.value, expanded, sawManifest));
  }

  /** The archive is unpacked exactly when it is acceptable as a whole, and then
      the directory holds it. */
  method ExtractCheckedArchive(entries: seq<Entry>, root: string, limits: Limits, identified: Bytes -> bool)
    returns (r: Result<Tree, Error>)
    ensures r.Ok? <==> Acceptable(entries, root, limits, identified)
    ensures r.Ok? ==> Holds(r.value, entries, root)
    ensures r == Err(TooManyEntries) ==> |entries| > limits.entries
    ensures r == Err(TooLarge) ==> Saturated(Total(entries)) > limits.bytes
    ensures r == Err(NoManifest) ==> Packed(entries, root, limits) && LastContents(entries, root, MANIFEST).None?
    ensures r == Err(WrongIdentity) ==>
      Packed(entries, root, limits) && LastContents(entries, root, MANIFEST).Some?
  {
    var p := Progress(map[[] := Directory], 0, false);
    for i := 0 to |entries|
      invariant Unpacking(p, entries, i, root, limits)
    {
      var next := ExtractEntry(p, entries, i, root, limits);
      if next.Err? {
        return Err(next.error);
      }
      p := next.value;
    }
    assert entries[..|entries|] == entries;
    if !p.sawManifest {
      return Err(NoManifest);
    }
    ContentsComeFromAFile(entries, root, MANIFEST);
    if !identified(p.tree[MANIFEST].data) {
      return Err(WrongIdentity);
    }
    r := Ok(p.tree);
  }
}
