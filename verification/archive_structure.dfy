// The structural checks on the list of archive entries, before anything is written.
module ArchiveStructure {
  import opened Results
  import opened ArchiveErrors
  import opened ArchivePaths

  const MAX_SYMLINK_HOPS: nat := 16
  const MAX_SINGLE_ENTRY_BYTES: nat := 0x4000_0000 // 1 GiB

  datatype MaterialKind = Directory | Regular | Symlink

  datatype EntrySpec = EntrySpec(path: Path, kind: MaterialKind, mode: nat, size: nat, linkTarget: Option<Path>)

  type Table = map<Path, EntrySpec>

  function ByPath(specs: seq<EntrySpec>): Table {
    if specs == [] then map[]
    else ByPath(specs[..|specs| - 1])[specs[|specs| - 1].path := specs[|specs| - 1]]
  }

  predicate EndsWithApp(name: Name) {
    |name| >= 4 && name[|name| - 4..] == ".app"
  }

  // ---- what is accepted ----

  ghost predicate InRoot(spec: EntrySpec) {
    && |spec.path| >= 1 && spec.path[0] == ROOT_NAME
    && (spec.path == [ROOT_NAME] ==> spec.kind.Directory?)
    && forall i :: 1 <= i < |spec.path| ==> !EndsWithApp(spec.path[i])
  }

  ghost predicate UniquePaths(specs: seq<EntrySpec>) {
    forall i, j :: 0 <= i < j < |specs| ==> specs[i].path != specs[j].path
  }

  // Explicit ancestors of an entry are directories.
  ghost predicate ParentsAreDirectories(path: Path, table: Table) {
    forall k :: 1 <= k < |path| && path[..k] in table ==> table[path[..k]].kind.Directory?
  }

  // Follows links by their lexical destinations: the first entry that is not a
  // link, and the number of links on the way.
  function Chase(table: Table, path: Path, budget: nat): Option<(Path, nat)>
    decreases budget
  {
    if path !in table then None
    else if !table[path].kind.Symlink? then Some((path, 0))
    else if budget == 0 || table[path].linkTarget.None? then None
    else
      match Destination(path, table[path].linkTarget.value)
      case None => None
      case Some(next) =>
        match Chase(table, next, budget - 1)
        case None => None
        case Some((end, hops)) => Some((end, hops + 1))
  }

  ghost predicate LinksResolve(specs: seq<EntrySpec>, table: Table) {
    forall i :: 0 <= i < |specs| && specs[i].kind.Symlink? ==>
      specs[i].linkTarget.Some? && Chase(table, specs[i].path, MAX_SYMLINK_HOPS).Some?
  }

  ghost predicate Accepted(specs: seq<EntrySpec>) {
    && (forall i :: 0 <= i < |specs| ==> InRoot(specs[i]))
    && UniquePaths(specs)
    && [ROOT_NAME] in ByPath(specs)
    && (forall i :: 0 <= i < |specs| ==> ParentsAreDirectories(specs[i].path, ByPath(specs)))
    && LinksResolve(specs, ByPath(specs))
  }

  // An entry of this kind stands above another one.
  ghost predicate KindAbove(specs: seq<EntrySpec>, table: Table, kind: MaterialKind) {
    exists i, k :: 0 <= i < |specs| && 1 <= k < |specs[i].path|
                   && specs[i].path[..k] in table && table[specs[i].path[..k]].kind == kind
  }

  // What each code tells about the entries.
  ghost predicate Misbuilt(specs: seq<EntrySpec>, error: ArchiveError) {
    match error
    case ArchiveRoot => (exists i :: 0 <= i < |specs| && !InRoot(specs[i])) || [ROOT_NAME] !in ByPath(specs)
    case ArchivePath => !UniquePaths(specs) || KindAbove(specs, ByPath(specs), Regular)
    case ArchiveSymlink => KindAbove(specs, ByPath(specs), Symlink) || !LinksResolve(specs, ByPath(specs))
    case _ => false
  }

  // What `inspect_entry` guarantees of every entry it lets through.
  ghost predicate Inspected(spec: EntrySpec) {
    ProperPath(spec.path) && (spec.linkTarget.Some? ==> ProperTarget(spec.linkTarget.value))
  }

  ghost predicate AllInspected(specs: seq<EntrySpec>) {
    forall i :: 0 <= i < |specs| ==> Inspected(specs[i])
  }

  // ---- the table ----

  lemma {:induction false} TableKeys(specs: seq<EntrySpec>, path: Path)
    ensures path in ByPath(specs) <==> exists i :: 0 <= i < |specs| && specs[i].path == path
    ensures path in ByPath(specs) ==> ByPath(specs)[path] in specs && ByPath(specs)[path].path == path
  {
    if specs != [] {
      var n := |specs| - 1;
      TableKeys(specs[..n], path);
      assert forall i :: 0 <= i < n ==> specs[..n][i] == specs[i];
      assert forall i :: 0 <= i < |specs| ==> i == n || specs[i] == specs[..n][i];
    }
  }

  lemma {:induction false} TableEntry(specs: seq<EntrySpec>, i: nat)
    requires UniquePaths(specs) && i < |specs|
    ensures specs[i].path in ByPath(specs) && ByPath(specs)[specs[i].path] == specs[i]
  {
    var n := |specs| - 1;
    if i < n {
      assert specs[..n][i] == specs[i];
      TableEntry(specs[..n], i);
    }
  }

  lemma AppSuffix(name: Name)
    ensures EndsWithApp(name) <==> exists stem :: name == stem + ".app"
  {
    if EndsWithApp(name) {
      assert name == name[..|name| - 4] + ".app";
    }
  }

  // What is accepted, without the table: where paths may be, that they are
  // distinct, that everything above an entry is a directory, and that links
  // come to an end within sixteen hops.
  lemma AcceptedMeaning(specs: seq<EntrySpec>)
    ensures Accepted(specs) <==>
              && (forall i :: 0 <= i < |specs| ==> IsPlaced(specs[i]))
              && UniquePaths(specs) && HasRoot(specs)
              && (forall i :: 0 <= i < |specs| ==> ListedAbove(specs, specs[i].path))
              && (forall i :: 0 <= i < |specs| && specs[i].kind.Symlink? ==>
                    specs[i].linkTarget.Some? && Chase(ByPath(specs), specs[i].path, 16).Some?)
  {
    forall i | 0 <= i < |specs| ensures IsPlaced(specs[i]) <==> InRoot(specs[i]) {
      PlacedInRoot(specs[i]);
    }
    TableKeys(specs, [ROOT_NAME]);
    if UniquePaths(specs) {
      forall i | 0 <= i < |specs|
        ensures ParentsAreDirectories(specs[i].path, ByPath(specs)) <==> ListedAbove(specs, specs[i].path)
      {
        AboveAreDirectories(specs, specs[i].path);
      }
    }
  }

  predicate HasRoot(specs: seq<EntrySpec>) {
    exists i :: 0 <= i < |specs| && specs[i].path == ["Cornell Method Notebook.app"]
  }

  predicate IsPlaced(spec: EntrySpec) {
    && |spec.path| >= 1 && spec.path[0] == "Cornell Method Notebook.app"
    && (|spec.path| == 1 ==> spec.kind.Directory?)
    && forall k :: 1 <= k < |spec.path| ==> !(|spec.path[k]| >= 4 && spec.path[k][|spec.path[k]| - 4..] == ".app")
  }

  lemma PlacedInRoot(spec: EntrySpec)
    ensures IsPlaced(spec) <==> InRoot(spec)
  {
    if |spec.path| >= 1 && spec.path[0] == ROOT_NAME {
      assert spec.path == [ROOT_NAME] <==> |spec.path| == 1;
    }
  }

  predicate ListedAbove(specs: seq<EntrySpec>, path: Path) {
    forall j :: 0 <= j < |specs| && specs[j].path < path && specs[j].path != [] ==> specs[j].kind.Directory?
  }

  lemma AboveAreDirectories(specs: seq<EntrySpec>, path: Path)
    requires UniquePaths(specs)
    ensures ParentsAreDirectories(path, ByPath(specs)) <==> ListedAbove(specs, path)
  {
    var table := ByPath(specs);
    if ParentsAreDirectories(path, table) {
      forall j | 0 <= j < |specs| && specs[j].path < path && specs[j].path != [] ensures specs[j].kind.Directory? {
        TableEntry(specs, j);
        assert path[..|specs[j].path|] == specs[j].path;
      }
    }
    if ListedAbove(specs, path) {
      forall k | 1 <= k < |path| && path[..k] in table ensures table[path[..k]].kind.Directory? {
        TableKeys(specs, path[..k]);
        var j :| 0 <= j < |specs| && specs[j].path == path[..k];
        TableEntry(specs, j);
        assert specs[j].path < path;
      }
    }
  }

  // ---- chasing links ----

  lemma {:induction false} ChaseIsDeterministic(table: Table, path: Path, b1: nat, b2: nat)
    requires Chase(table, path, b1).Some? && Chase(table, path, b2).Some?
    ensures Chase(table, path, b1) == Chase(table, path, b2)
    decreases b1
  {
    if table[path].kind.Symlink? {
      ChaseIsDeterministic(table, Destination(path, table[path].linkTarget.value).value, b1 - 1, b2 - 1);
    }
  }

  // Every path met while chasing, in order.
  function Trail(table: Table, path: Path, budget: nat): seq<Path>
    requires Chase(table, path, budget).Some?
    decreases budget
  {
    if !table[path].kind.Symlink? then [path]
    else [path] + Trail(table, Destination(path, table[path].linkTarget.value).value, budget - 1)
  }

  lemma {:induction false} TrailShape(table: Table, path: Path, budget: nat, i: nat)
    requires Chase(table, path, budget).Some?
    ensures var (end, hops) := Chase(table, path, budget).value;
            var trail := Trail(table, path, budget);
            && |trail| == hops + 1 && hops <= budget && trail[hops] == end
            && (i <= hops ==>
                && trail[i] in table
                && (table[trail[i]].kind.Symlink? <==> i < hops)
                && Chase(table, trail[i], budget - i) == Some((end, hops - i)))
    decreases budget
  {
    if table[path].kind.Symlink? {
      TrailShape(table, Destination(path, table[path].linkTarget.value).value, budget - 1, if i == 0 then 0 else i - 1);
    }
  }

  lemma TrailIsDistinct(table: Table, path: Path, budget: nat, a: nat, b: nat)
    requires Chase(table, path, budget).Some?
    requires a < b < |Trail(table, path, budget)|
    ensures Trail(table, path, budget)[a] != Trail(table, path, budget)[b]
  {
    var trail := Trail(table, path, budget);
    TrailShape(table, path, budget, a);
    TrailShape(table, path, budget, b);
    if trail[a] == trail[b] {
      ChaseIsDeterministic(table, trail[a], budget - a, budget - b);
      assert false;
    }
  }

  // The chain of an accepted link meets nothing twice, holds at most sixteen
  // links, ends in an entry that is no link, and stays in the application root.
  lemma AcceptedChain(specs: seq<EntrySpec>, i: nat)
    requires AllInspected(specs) && Accepted(specs) && i < |specs| && specs[i].kind.Symlink?
    ensures specs[i].path in ByPath(specs) && Chase(ByPath(specs), specs[i].path, MAX_SYMLINK_HOPS).Some?
    ensures var table := ByPath(specs);
            var trail := Trail(table, specs[i].path, MAX_SYMLINK_HOPS);
            && 2 <= |trail| <= 16 + 1
            && (forall a, b :: 0 <= a < b < |trail| ==> trail[a] != trail[b])
            && (forall a :: 0 <= a < |trail| ==>
                  trail[a] in table && [ROOT_NAME] <= trail[a] && (table[trail[a]].kind.Symlink? <==> a < |trail| - 1))
  {
    var table := ByPath(specs);
    TableEntry(specs, i);
    var trail := Trail(table, specs[i].path, MAX_SYMLINK_HOPS);
    TrailShape(table, specs[i].path, MAX_SYMLINK_HOPS, 0);
    forall a | 0 <= a < |trail|
      ensures trail[a] in table && [ROOT_NAME] <= trail[a] && (table[trail[a]].kind.Symlink? <==> a < |trail| - 1)
    {
      TrailShape(table, specs[i].path, MAX_SYMLINK_HOPS, a);
      InTableInRoot(specs, trail[a]);
    }
    forall a, b | 0 <= a < b < |trail| ensures trail[a] != trail[b] {
      TrailIsDistinct(table, specs[i].path, MAX_SYMLINK_HOPS, a, b);
    }
  }

  lemma InTableInRoot(specs: seq<EntrySpec>, path: Path)
    requires forall i :: 0 <= i < |specs| ==> InRoot(specs[i])
    requires path in ByPath(specs)
    ensures [ROOT_NAME] <= path
  {
    TableKeys(specs, path);
  }

  // ---- the checks as the program runs them ----

  // Where the link leads, `path` leads too, with `done` links fewer to go.
  ghost predicate Leads(table: Table, link: Path, path: Path, done: int) {
    && 0 <= done <= MAX_SYMLINK_HOPS
    && (Chase(table, link, MAX_SYMLINK_HOPS).Some? ==>
          && Chase(table, path, MAX_SYMLINK_HOPS - done).Some?
          && Chase(table, path, MAX_SYMLINK_HOPS - done).value.1 == Chase(table, link, MAX_SYMLINK_HOPS).value.1 - done)
  }

  ghost predicate OnTrail(table: Table, trail: seq<Path>, link: Path) {
    |trail| >= 1 && forall i :: 0 <= i < |trail| ==> Leads(table, link, trail[i], i)
  }

  // A path met again means that the link leads nowhere.
  lemma RevisitMeansCycle(table: Table, trail: seq<Path>, link: Path, i: nat)
    requires OnTrail(table, trail, link)
    requires i < |trail| - 1 && trail[i] == trail[|trail| - 1]
    ensures Chase(table, link, MAX_SYMLINK_HOPS).None?
  {
    var last := |trail| - 1;
    assert Leads(table, link, trail[i], i) && Leads(table, link, trail[last], last);
    if Chase(table, link, MAX_SYMLINK_HOPS).Some? {
      ChaseIsDeterministic(table, trail[i], MAX_SYMLINK_HOPS - i, MAX_SYMLINK_HOPS - last);
      assert false;
    }
  }

  lemma TrailExtends(table: Table, trail: seq<Path>, link: Path, next: Path)
    requires OnTrail(table, trail, link) && |trail| <= MAX_SYMLINK_HOPS
    requires var current := trail[|trail| - 1];
             && current in table && table[current].kind.Symlink? && table[current].linkTarget.Some?
             && Destination(current, table[current].linkTarget.value) == Some(next)
    ensures OnTrail(table, trail + [next], link)
    ensures var budget := MAX_SYMLINK_HOPS + 1 - |trail|;
            Chase(table, next, budget - 1).Some? ==> Chase(table, trail[|trail| - 1], budget).Some?
  {
    assert Leads(table, link, trail[|trail| - 1], |trail| - 1);
    assert Leads(table, link, next, |trail|);
  }

  // Follows one link with a set of visited paths and a hop counter.
  method ResolveSymlink(link: Path, target: Path, table: Table) returns (r: Result<(), ArchiveError>)
    requires link in table && table[link].kind.Symlink? && table[link].linkTarget == Some(target)
    requires forall p :: p in table ==> Inspected(table[p]) && table[p].path == p
    ensures r.Ok? <==> Chase(table, link, MAX_SYMLINK_HOPS).Some?
    ensures r.Err? ==> r.error == ArchiveSymlink
  {
    var current := link;
    var visited: set<Path> := {};
    var hops := 0;
    ghost var trail: seq<Path> := [link];
    while true
      invariant hops <= MAX_SYMLINK_HOPS && |trail| == hops + 1
      invariant current == trail[hops]
      invariant forall p :: p in visited ==> p in trail[..hops]
      invariant OnTrail(table, trail, link)
      invariant Chase(table, current, MAX_SYMLINK_HOPS - hops).Some? ==> Chase(table, link, MAX_SYMLINK_HOPS).Some?
      decreases MAX_SYMLINK_HOPS - hops
    {
      if current in visited {
        ghost var i: nat :| i < hops && trail[..hops][i] == current;
        RevisitMeansCycle(table, trail, link, i);
        return Err(ArchiveSymlink);
      }
      visited := visited + {current};
      assert Leads(table, link, trail[hops], hops);
      if current !in table {
        return Err(ArchiveSymlink);
      }
      var entry := table[current];
      if !entry.kind.Symlink? {
        return Ok(());
      }
      if hops >= MAX_SYMLINK_HOPS || (current != link && entry.linkTarget.None?) {
        return Err(ArchiveSymlink);
      }
      var step := if current == link then target else entry.linkTarget.value;
      var next := ResolveRelativeSymlinkPath(current, step);
      if next.Err? {
        return Err(ArchiveSymlink);
      }
      TrailExtends(table, trail, link, next.value);
      assert (trail + [next.value])[..hops + 1] == trail[..hops] + [current];
      trail := trail + [next.value];
      current := next.value;
      hops := hops + 1;
    }
  }

  // The three passes over the entries.
  method ValidateArchiveStructure(specs: seq<EntrySpec>) returns (r: Result<(), ArchiveError>)
    requires AllInspected(specs)
    ensures r.Ok? <==> Accepted(specs)
    ensures r.Err? ==> Misbuilt(specs, r.error)
    ensures (exists i :: 0 <= i < |specs| && !InRoot(specs[i])) && UniquePaths(specs) ==> r == Err(ArchiveRoot)
  {
    var table: Table := map[];
    for i := 0 to |specs|
      invariant table == ByPath(specs[..i]) && UniquePaths(specs[..i])
      invariant forall j :: 0 <= j < i ==> InRoot(specs[j])
    {
      var spec := specs[i];
      if spec.path[0] != ROOT_NAME {
        return Err(ArchiveRoot);
      }
      if spec.path == [ROOT_NAME] && spec.kind != Directory {
        return Err(ArchiveRoot);
      }
      if spec.path != [ROOT_NAME] && exists k :: 1 <= k < |spec.path| && EndsWithApp(spec.path[k]) {
        return Err(ArchiveRoot);
      }
      TableKeys(specs[..i], spec.path);
      if spec.path in table {
        return Err(ArchivePath);
      }
      table := table[spec.path := spec];
      assert specs[..i + 1][..i] == specs[..i];
    }
    assert specs[..|specs|] == specs;
    if [ROOT_NAME] !in table {
      return Err(ArchiveRoot);
    }
    TableKeys(specs, [ROOT_NAME]);
    if table[[ROOT_NAME]].kind != Directory {
      return Err(ArchiveRoot);
    }
    r := CheckParents(specs, table);
    if r.Ok? {
      r := CheckLinks(specs, table);
    }
  }

  method CheckParents(specs: seq<EntrySpec>, table: Table) returns (r: Result<(), ArchiveError>)
    ensures r.Ok? <==> forall i :: 0 <= i < |specs| ==> ParentsAreDirectories(specs[i].path, table)
    ensures r.Err? ==>
      || (r.error == ArchivePath && KindAbove(specs, table, Regular))
      || (r.error == ArchiveSymlink && KindAbove(specs, table, Symlink))
  {
    for i := 0 to |specs|
      invariant forall j :: 0 <= j < i ==> ParentsAreDirectories(specs[j].path, table)
    {
      var components := specs[i].path;
      var prefixLen := 1;
      while prefixLen < |components|
        invariant 1 <= prefixLen
        invariant forall k :: 1 <= k < prefixLen && k < |components| && components[..k] in table ==>
          table[components[..k]].kind.Directory?
      {
        var prefix := components[..prefixLen];
        if prefix in table {
          match table[prefix].kind
          case Directory =>
          case Symlink =>
            return Err(ArchiveSymlink);
          case Regular =>
            return Err(ArchivePath);
        }
        prefixLen := prefixLen + 1;
      }
    }
    r := Ok(());
  }

  method CheckLinks(specs: seq<EntrySpec>, table: Table) returns (r: Result<(), ArchiveError>)
    requires AllInspected(specs) && UniquePaths(specs) && table == ByPath(specs)
    ensures r.Ok? <==> LinksResolve(specs, table)
    ensures r.Err? ==> r.error == ArchiveSymlink
  {
    forall p | p in table ensures Inspected(table[p]) && table[p].path == p {
      TableKeys(specs, p);
    }
    for i := 0 to |specs|
      invariant forall j :: 0 <= j < i && specs[j].kind.Symlink? ==>
        specs[j].linkTarget.Some? && Chase(table, specs[j].path, MAX_SYMLINK_HOPS).Some?
    {
      var spec := specs[i];
      if !spec.kind.Symlink? {
        continue;
      }
      if spec.linkTarget.None? {
        return Err(ArchiveSymlink);
      }
      TableEntry(specs, i);
      var outcome := ResolveSymlink(spec.path, spec.linkTarget.value, table);
      if outcome.Err? {
        return outcome;
      }
    }
    r := Ok(());
  }
}
