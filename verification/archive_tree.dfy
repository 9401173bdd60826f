// The directory tree an archive stands for, and what following its links on
// that tree means compared with the lexical checks.
module ArchiveTree {
  import opened Results
  import opened ArchivePaths
  import opened ArchiveStructure

  const EXECUTABLE_MODE: nat := 448 // 0o700
  const PLAIN_MODE: nat := 384      // 0o600

  // `Special` is anything else a directory can hold: a socket, a device.
  datatype Node = Dir(mode: nat) | File(mode: nat, data: seq<Byte>) | Link(target: Path) | Special

  // Everything below the staging directory, which itself is the empty path.
  type Tree = map<Path, Node>

  datatype Entry = Entry(spec: EntrySpec, data: seq<Byte>)

  function Specs(entries: seq<Entry>): (r: seq<EntrySpec>)
    ensures |r| == |entries| && forall i :: 0 <= i < |r| ==> r[i] == entries[i].spec
  {
    seq(|entries|, i requires 0 <= i < |entries| => entries[i].spec)
  }

  function Contents(entries: seq<Entry>): map<Path, seq<Byte>> {
    if entries == [] then map[]
    else
      var last := entries[|entries| - 1];
      Contents(entries[..|entries| - 1])[last.spec.path := last.data]
  }

  predicate OwnerExecutable(mode: nat) {
    mode / 64 % 2 == 1
  }

  // The node an entry becomes, with the mode `set_safe_mode` gives it.
  function NodeOf(spec: EntrySpec, data: seq<Byte>): Node {
    match spec.kind
    case Directory => Dir(EXECUTABLE_MODE)
    case Regular => File(if OwnerExecutable(spec.mode) then EXECUTABLE_MODE else PLAIN_MODE, data)
    case Symlink => Link(if spec.linkTarget.Some? then spec.linkTarget.value else [])
  }

  // All paths that exist because some entry exists: the entries and their ancestors.
  ghost function Prefixes(specs: seq<EntrySpec>): set<Path> {
    set i, k | 0 <= i < |specs| && 1 <= k <= |specs[i].path| :: specs[i].path[..k]
  }

  // The tree of an archive: entries as they are, and directories for the
  // ancestors no entry mentions.
  ghost function Materialised(entries: seq<Entry>, createdMode: nat): Tree {
    var table := ByPath(Specs(entries));
    map p | p in Prefixes(Specs(entries)) ::
      if p in table && p in Contents(entries) then NodeOf(table[p], Contents(entries)[p]) else Dir(createdMode)
  }

  lemma {:induction false} ContentsEntry(entries: seq<Entry>, i: nat)
    requires UniquePaths(Specs(entries)) && i < |entries|
    ensures entries[i].spec.path in Contents(entries)
    ensures Contents(entries)[entries[i].spec.path] == entries[i].data
  {
    var n := |entries| - 1;
    if i < n {
      assert forall j :: 0 <= j < n ==> Specs(entries[..n])[j] == Specs(entries)[j];
      ContentsEntry(entries[..n], i);
      assert Specs(entries)[i].path != Specs(entries)[n].path;
    }
  }

  // An entry's node stands at its path.
  lemma MaterialisedEntry(entries: seq<Entry>, createdMode: nat, i: nat)
    requires UniquePaths(Specs(entries)) && i < |entries| && |entries[i].spec.path| >= 1
    ensures entries[i].spec.path in Materialised(entries, createdMode)
    ensures Materialised(entries, createdMode)[entries[i].spec.path] == NodeOf(entries[i].spec, entries[i].data)
  {
    var specs := Specs(entries);
    var path := specs[i].path;
    assert path[..|path|] == path;
    assert path in Prefixes(specs);
    TableEntry(specs, i);
    ContentsEntry(entries, i);
  }

  // The owner's execute bit, on the octal digits of a mode.
  lemma OwnerDigit(special: nat, owner: nat, group: nat, other: nat)
    requires special < 8 && owner < 8 && group < 8 && other < 8
    ensures OwnerExecutable(512 * special + 64 * owner + 8 * group + other) <==> owner in {1, 3, 5, 7}
  {
    var mode := 512 * special + 64 * owner + 8 * group + other;
    assert mode / 64 == 8 * special + owner;
  }

  // What stands at the path of an entry in the published tree: a directory of
  // mode 0700, a link with the entry's target, or a file with the entry's bytes
  // and mode 0700 or 0600 by the owner's digit of the entry's mode.
  lemma PublishedEntry(
      entries: seq<Entry>, createdMode: nat, i: nat, special: nat, owner: nat, group: nat, other: nat)
    requires UniquePaths(Specs(entries)) && i < |entries| && |entries[i].spec.path| >= 1
    requires special < 8 && owner < 8 && group < 8 && other < 8
    requires entries[i].spec.mode == 512 * special + 64 * owner + 8 * group + other
    requires entries[i].spec.kind.Symlink? ==> entries[i].spec.linkTarget.Some?
    ensures entries[i].spec.path in Materialised(entries, createdMode)
    ensures Materialised(entries, createdMode)[entries[i].spec.path] ==
            match entries[i].spec.kind
            case Directory => Dir(7 * 64)
            case Symlink => Link(entries[i].spec.linkTarget.value)
            case Regular => File(if owner in {1, 3, 5, 7} then 7 * 64 else 6 * 64, entries[i].data)
  {
    MaterialisedEntry(entries, createdMode, i);
    OwnerDigit(special, owner, group, other);
  }

  // The published tree holds the entries and their ancestors, and nothing else;
  // where no entry is there is a directory as the system made it.
  lemma PublishedPaths(entries: seq<Entry>, createdMode: nat, p: Path)
    ensures p in Materialised(entries, createdMode) <==>
              exists i, k :: 0 <= i < |entries| && 1 <= k <= |entries[i].spec.path| && p == entries[i].spec.path[..k]
    ensures p in Materialised(entries, createdMode)
            && (forall i :: 0 <= i < |entries| ==> entries[i].spec.path != p) ==>
              Materialised(entries, createdMode)[p] == Dir(createdMode)
  {
    var specs := Specs(entries);
    TableKeys(specs, p);
    if p in Prefixes(specs) {
      var i, k :| 0 <= i < |specs| && 1 <= k <= |specs[i].path| && p == specs[i].path[..k];
      assert p == entries[i].spec.path[..k];
    }
    if i, k :| 0 <= i < |entries| && 1 <= k <= |entries[i].spec.path| && p == entries[i].spec.path[..k] {
      assert p == specs[i].path[..k];
    }
  }

  predicate IsDirectory(tree: Tree, path: Path) {
    path == [] || (path in tree && tree[path].Dir?)
  }

  ghost predicate Ancestor(x: Path, path: Path) {
    |x| < |path| && x == path[..|x|]
  }

  // Ancestors of entries are directories in the tree.
  lemma MaterialisedAncestor(entries: seq<Entry>, createdMode: nat, i: nat, x: Path)
    requires Accepted(Specs(entries)) && i < |entries| && Ancestor(x, entries[i].spec.path)
    ensures IsDirectory(Materialised(entries, createdMode), x)
  {
    var specs := Specs(entries);
    if x != [] {
      assert x == specs[i].path[..|x|];
      assert x in Prefixes(specs);
      if x in ByPath(specs) {
        assert ParentsAreDirectories(specs[i].path, ByPath(specs));
        TableKeys(specs, x);
        var j :| 0 <= j < |specs| && specs[j].path == x;
        TableEntry(specs, j);
        MaterialisedEntry(entries, createdMode, j);
      }
    }
  }

  // ---- following links on the tree ----

  // Path resolution as the operating system does it: one component at a time,
  // links replaced by their targets wherever they are met, at most `budget` of them.
  function Walk(tree: Tree, at: Path, todo: Path, budget: nat): Option<Path>
    decreases budget, |todo|
  {
    if todo == [] then Some(at)
    else if !IsDirectory(tree, at) then None
    else if todo[0] == ".." then
      if at == [] then None else Walk(tree, at[..|at| - 1], todo[1..], budget)
    else
      var next := at + [todo[0]];
      if next !in tree then None
      else if tree[next].Link? then
        if budget == 0 then None else Walk(tree, at, tree[next].target + todo[1..], budget - 1)
      else Walk(tree, next, todo[1..], budget)
  }

  lemma {:induction false} WalkDown(tree: Tree, path: Path, k: nat, budget: nat)
    requires ProperPath(path) && k <= |path|
    requires forall j :: 0 <= j <= k ==> IsDirectory(tree, path[..j])
    ensures Walk(tree, [], path, budget) == Walk(tree, path[..k], path[k..], budget)
    decreases k
  {
    if k == 0 {
      assert path[..0] == [] && path[0..] == path;
    } else {
      WalkDown(tree, path, k - 1, budget);
      assert path[k - 1..][0] == path[k - 1] && path[k - 1..][1..] == path[k..];
      assert path[..k - 1] + [path[k - 1]] == path[..k];
      assert ProperName(path[k - 1]);
    }
  }

  // The directory reached after `i` components of a target.
  function After(link: Path, target: Path, i: nat): Option<Path>
    requires |link| >= 1 && i <= |target|
  {
    Climb(link[..|link| - 1], target[..i])
  }

  lemma AfterNext(link: Path, target: Path, i: nat)
    requires |link| >= 1 && i < |target| && After(link, target, i).Some? && ProperTarget(target)
    ensures After(link, target, i + 1) ==
            var x := After(link, target, i).value;
            if target[i] == ".." then (if |x| <= 1 then None else Some(x[..|x| - 1])) else Some(x + [target[i]])
  {
    var base := link[..|link| - 1];
    assert target[..i + 1] == target[..i] + [target[i]];
    ClimbConcat(base, target[..i], [target[i]]);
  }

  lemma AfterAll(link: Path, target: Path)
    requires |link| >= 2 && link[0] == ROOT_NAME && Destination(link, target).Some?
    ensures forall i :: 0 <= i <= |target| ==> After(link, target, i).Some?
    ensures After(link, target, |target|) == Destination(link, target)
  {
    assert target[..|target|] == target;
    forall i | 0 <= i <= |target| ensures After(link, target, i).Some? {
      ClimbConcat(link[..|link| - 1], target[..i], target[i..]);
      assert target[..i] + target[i..] == target;
    }
  }

  // As long as the lexical prefixes of a target are directories of the tree,
  // the walk goes through exactly those.
  lemma {:induction false} WalkTarget(tree: Tree, link: Path, target: Path, rest: Path, i: nat, budget: nat)
    requires |link| >= 2 && link[0] == ROOT_NAME && ProperTarget(target)
    requires i <= |target|
    requires forall j :: 0 <= j <= i ==> After(link, target, j).Some? && IsDirectory(tree, After(link, target, j).value)
    ensures Walk(tree, link[..|link| - 1], target + rest, budget)
         == Walk(tree, After(link, target, i).value, target[i..] + rest, budget)
    decreases i
  {
    if i == 0 {
      assert target[..0] == [] && target[0..] == target;
    } else {
      WalkTarget(tree, link, target, rest, i - 1, budget);
      AfterNext(link, target, i - 1);
      var todo := target[i - 1..] + rest;
      assert todo[0] == target[i - 1] && todo[1..] == target[i..] + rest;
      assert target[i - 1] == ".." || ProperName(target[i - 1]);
    }
  }

  ghost predicate SafeAt(link: Path, target: Path, end: Path, i: nat)
    requires |link| >= 1 && i <= |target|
  {
    && After(link, target, i).Some?
    && (Ancestor(After(link, target, i).value, link) || Ancestor(After(link, target, i).value, end))
  }

  // Every directory a target passes on its way is an ancestor of the link or
  // of the destination. A target whose `..` come first always is like that.
  ghost predicate SafeTarget(link: Path, target: Path) {
    && |link| >= 2 && Destination(link, target).Some?
    && forall i :: 1 <= i < |target| ==> SafeAt(link, target, Destination(link, target).value, i)
  }

  ghost predicate DotsFirst(target: Path) {
    forall i, j :: 0 <= i < j < |target| && target[j] == ".." ==> target[i] == ".."
  }

  lemma {:induction false} DotsClimb(link: Path, target: Path, i: nat)
    requires |link| >= 2 && link[0] == ROOT_NAME && ProperTarget(target) && Destination(link, target).Some?
    requires i <= |target| && forall j :: 0 <= j < i ==> target[j] == ".."
    ensures After(link, target, i).Some? && Ancestor(After(link, target, i).value, link)
    decreases i
  {
    if i == 0 {
      assert target[..0] == [];
    } else {
      DotsClimb(link, target, i - 1);
      AfterAll(link, target);
      AfterNext(link, target, i - 1);
    }
  }

  lemma {:induction false} NamesDescend(link: Path, target: Path, i: nat)
    requires |link| >= 2 && link[0] == ROOT_NAME && ProperTarget(target) && Destination(link, target).Some?
    requires i <= |target| && forall j :: i <= j < |target| ==> target[j] != ".."
    ensures After(link, target, i).Some?
    ensures Destination(link, target).value == After(link, target, i).value + target[i..]
    decreases |target| - i
  {
    AfterAll(link, target);
    if i < |target| {
      NamesDescend(link, target, i + 1);
      AfterNext(link, target, i);
    }
  }

  lemma DotsFirstIsSafe(link: Path, target: Path)
    requires |link| >= 2 && link[0] == ROOT_NAME && ProperTarget(target) && Destination(link, target).Some?
    requires DotsFirst(target)
    ensures SafeTarget(link, target)
  {
    AfterAll(link, target);
    forall i | 1 <= i < |target| ensures SafeAt(link, target, Destination(link, target).value, i) {
      if target[i - 1] == ".." {
        DotsClimb(link, target, i);
      } else {
        NamesDescend(link, target, i);
      }
    }
  }

  // An archive that passes the checks and holds this link.
  ghost predicate HoldsLink(entries: seq<Entry>, link: Path, target: Path) {
    && AllInspected(Specs(entries)) && Accepted(Specs(entries))
    && exists i :: 0 <= i < |entries| && entries[i].spec.path == link
                   && entries[i].spec.kind.Symlink? && entries[i].spec.linkTarget == Some(target)
  }

  // Walking the target from the link's directory is walking to the lexical destination.
  ghost predicate Agrees(entries: seq<Entry>, createdMode: nat, budget: nat, link: Path, target: Path)
    requires |link| >= 2 && Destination(link, target).Some?
  {
    var tree := Materialised(entries, createdMode);
    Walk(tree, link[..|link| - 1], target, budget) == Walk(tree, [], Destination(link, target).value, budget)
  }

  lemma LinkFacts(entries: seq<Entry>, link: Path, target: Path) returns (i: nat, d: nat)
    requires HoldsLink(entries, link, target)
    ensures |link| >= 2 && link[0] == ROOT_NAME && ProperPath(link) && ProperTarget(target)
    ensures Destination(link, target).Some?
    ensures i < |entries| && entries[i].spec.path == link
    ensures d < |entries| && entries[d].spec.path == Destination(link, target).value
    ensures Destination(link, target).value != link
  {
    var specs := Specs(entries);
    var table := ByPath(specs);
    i :| 0 <= i < |entries| && entries[i].spec.path == link
         && entries[i].spec.kind.Symlink? && entries[i].spec.linkTarget == Some(target);
    assert specs[i] == entries[i].spec && Inspected(specs[i]);
    TableEntry(specs, i);
    assert Chase(table, link, MAX_SYMLINK_HOPS).Some?;
    var end := Destination(link, target).value;
    assert Chase(table, end, MAX_SYMLINK_HOPS - 1).Some?;
    TableKeys(specs, end);
    d :| 0 <= d < |specs| && specs[d].path == end;
    if end == link {
      ChaseIsDeterministic(table, link, MAX_SYMLINK_HOPS, MAX_SYMLINK_HOPS - 1);
      assert false;
    }
  }

  lemma SafePrefixesAreDirectories(entries: seq<Entry>, createdMode: nat, link: Path, target: Path, j: nat)
    requires HoldsLink(entries, link, target) && SafeTarget(link, target) && j < |target|
    ensures |link| >= 2 && After(link, target, j).Some?
    ensures IsDirectory(Materialised(entries, createdMode), After(link, target, j).value)
    ensures SafeAt(link, target, Destination(link, target).value, j)
  {
    var i, d := LinkFacts(entries, link, target);
    AfterAll(link, target);
    assert target[..0] == [];
    var x := After(link, target, j).value;
    assert SafeAt(link, target, Destination(link, target).value, j);
    if j == 0 || Ancestor(x, link) {
      MaterialisedAncestor(entries, createdMode, i, x);
    } else {
      MaterialisedAncestor(entries, createdMode, d, x);
    }
  }

  // Walking to an ancestor of an entry, or to a name in such an ancestor.
  lemma WalkToAncestor(entries: seq<Entry>, createdMode: nat, i: nat, x: Path, budget: nat)
    requires AllInspected(Specs(entries)) && Accepted(Specs(entries)) && i < |entries|
    requires Ancestor(x, entries[i].spec.path) && x != []
    ensures Walk(Materialised(entries, createdMode), [], x, budget) == Some(x)
  {
    var tree := Materialised(entries, createdMode);
    assert Inspected(Specs(entries)[i]);
    forall j | 0 <= j <= |x| ensures IsDirectory(tree, x[..j]) {
      MaterialisedAncestor(entries, createdMode, i, x[..j]);
    }
    WalkDown(tree, x, |x|, budget);
    assert x[|x|..] == [] && x[..|x|] == x;
  }

  lemma WalkToName(entries: seq<Entry>, createdMode: nat, d: nat, budget: nat)
    requires AllInspected(Specs(entries)) && Accepted(Specs(entries)) && d < |entries|
    ensures var end := entries[d].spec.path;
            |end| >= 1 && Walk(Materialised(entries, createdMode), [], end, budget)
                       == Walk(Materialised(entries, createdMode), end[..|end| - 1], [end[|end| - 1]], budget)
  {
    var tree := Materialised(entries, createdMode);
    var end := entries[d].spec.path;
    assert Inspected(Specs(entries)[d]);
    var n := |end| - 1;
    forall j | 0 <= j <= n ensures IsDirectory(tree, end[..j]) {
      MaterialisedAncestor(entries, createdMode, d, end[..j]);
    }
    WalkDown(tree, end, n, budget);
    assert end[n..] == [end[n]];
  }

  // A safe target is walked as the checks understand it, in every archive.
  lemma SafeTargetAgrees(entries: seq<Entry>, createdMode: nat, budget: nat, link: Path, target: Path)
    requires HoldsLink(entries, link, target) && SafeTarget(link, target)
    ensures Agrees(entries, createdMode, budget, link, target)
  {
    var tree := Materialised(entries, createdMode);
    var i, d := LinkFacts(entries, link, target);
    var end := Destination(link, target).value;
    var n := |target| - 1;
    AfterAll(link, target);
    forall j | 0 <= j <= n ensures IsDirectory(tree, After(link, target, j).value) {
      SafePrefixesAreDirectories(entries, createdMode, link, target, j);
    }
    WalkTarget(tree, link, target, [], n, budget);
    assert target + [] == target && target[n..] + [] == [target[n]];
    AfterNext(link, target, n);
    var x := After(link, target, n).value;
    assert target[n] == ".." || ProperName(target[n]);
    if target[n] == ".." {
      SafePrefixesAreDirectories(entries, createdMode, link, target, n);
      assert !Ancestor(x, end);
      assert Ancestor(end, link);
      WalkToAncestor(entries, createdMode, i, end, budget);
    } else {
      assert end == x + [target[n]];
      WalkToName(entries, createdMode, d, budget);
    }
  }

  // ---- whole chains ----

  // The walk to an entry reaches its directory and looks the last name up there.
  lemma WalkToEntry(entries: seq<Entry>, createdMode: nat, i: nat, budget: nat)
    requires AllInspected(Specs(entries)) && Accepted(Specs(entries)) && i < |entries|
    ensures var path := entries[i].spec.path;
            var tree := Materialised(entries, createdMode);
            if !entries[i].spec.kind.Symlink? then Walk(tree, [], path, budget) == Some(path)
            else
              && entries[i].spec.linkTarget.Some?
              && Walk(tree, [], path, budget) ==
                 if budget == 0 then None
                 else Walk(tree, path[..|path| - 1], entries[i].spec.linkTarget.value, budget - 1)
  {
    var specs := Specs(entries);
    var path := specs[i].path;
    var tree := Materialised(entries, createdMode);
    var n := |path| - 1;
    assert Inspected(specs[i]);
    MaterialisedEntry(entries, createdMode, i);
    forall j | 0 <= j <= n ensures IsDirectory(tree, path[..j]) {
      MaterialisedAncestor(entries, createdMode, i, path[..j]);
    }
    WalkDown(tree, path, n, budget);
    assert path[n..] == [path[n]] && path[..n] + [path[n]] == path && ProperName(path[n]);
    assert [path[n]][1..] == [];
    assert tree[path].Link? ==> tree[path].target + [] == tree[path].target;
  }

  ghost predicate SafeLink(table: Table, path: Path) {
    path in table && table[path].linkTarget.Some? && SafeTarget(path, table[path].linkTarget.value)
  }

  ghost predicate SafeTrail(table: Table, trail: seq<Path>) {
    forall a :: 0 <= a < |trail| - 1 ==> SafeLink(table, trail[a])
  }

  lemma EntryAt(specs: seq<EntrySpec>, path: Path) returns (i: nat)
    requires UniquePaths(specs) && path in ByPath(specs)
    ensures i < |specs| && specs[i].path == path && ByPath(specs)[path] == specs[i]
  {
    TableKeys(specs, path);
    i :| 0 <= i < |specs| && specs[i].path == path;
    TableEntry(specs, i);
  }

  lemma WalkThroughSafeLink(entries: seq<Entry>, createdMode: nat, i: nat, budget: nat)
    requires AllInspected(Specs(entries)) && Accepted(Specs(entries))
    requires i < |entries| && entries[i].spec.kind.Symlink? && budget > 0
    requires entries[i].spec.linkTarget.Some? ==> SafeTarget(entries[i].spec.path, entries[i].spec.linkTarget.value)
    ensures entries[i].spec.linkTarget.Some?
    ensures Destination(entries[i].spec.path, entries[i].spec.linkTarget.value).Some?
    ensures Walk(Materialised(entries, createdMode), [], entries[i].spec.path, budget)
         == Walk(Materialised(entries, createdMode), [],
                 Destination(entries[i].spec.path, entries[i].spec.linkTarget.value).value, budget - 1)
  {
    WalkToEntry(entries, createdMode, i, budget);
    assert HoldsLink(entries, entries[i].spec.path, entries[i].spec.linkTarget.value);
    SafeTargetAgrees(entries, createdMode, budget - 1, entries[i].spec.path, entries[i].spec.linkTarget.value);
  }

  lemma NextOnChase(table: Table, path: Path, hops: nat) returns (next: Path)
    requires Chase(table, path, hops).Some? && table[path].kind.Symlink?
    ensures hops > 0 && table[path].linkTarget.Some? && Destination(path, table[path].linkTarget.value) == Some(next)
    ensures Chase(table, next, hops - 1).Some? && Chase(table, path, hops).value.1 > 0
    ensures Chase(table, next, hops - 1).value
         == (Chase(table, path, hops).value.0, Chase(table, path, hops).value.1 - 1)
  {
    next := Destination(path, table[path].linkTarget.value).value;
  }

  lemma SafeTrailTail(table: Table, path: Path, hops: nat)
    requires Chase(table, path, hops).Some? && table[path].kind.Symlink?
    requires SafeTrail(table, Trail(table, path, hops))
    ensures SafeLink(table, path)
    ensures SafeTrail(table, Trail(table, Destination(path, table[path].linkTarget.value).value, hops - 1))
  {
    var trail := Trail(table, path, hops);
    var next := Destination(path, table[path].linkTarget.value).value;
    var tail := Trail(table, next, hops - 1);
    TrailShape(table, next, hops - 1, 0);
    assert trail == [path] + tail;
    assert SafeLink(table, trail[0]);
    forall a | 0 <= a < |tail| - 1 ensures SafeLink(table, tail[a]) {
      assert SafeLink(table, trail[a + 1]);
    }
  }

  // A way of following links that takes a safe link to its lexical
  // destination, and stays where there is no link.
  ghost predicate FollowsLink(table: Table, follow: (Path, nat) -> Option<Path>, path: Path, budget: nat) {
    path in table ==>
      if !table[path].kind.Symlink? then follow(path, budget) == Some(path)
      else SafeLink(table, path) && budget > 0 ==>
        && table[path].linkTarget.Some? && Destination(path, table[path].linkTarget.value).Some?
        && follow(path, budget) == follow(Destination(path, table[path].linkTarget.value).value, budget - 1)
  }

  lemma {:induction false} FollowsChain(
      table: Table, follow: (Path, nat) -> Option<Path>, path: Path, hops: nat, budget: nat)
    requires forall p, b: nat :: FollowsLink(table, follow, p, b)
    requires Chase(table, path, hops).Some? && Chase(table, path, hops).value.1 <= budget
    requires SafeTrail(table, Trail(table, path, hops))
    ensures follow(path, budget) == Some(Chase(table, path, hops).value.0)
    decreases hops
  {
    assert FollowsLink(table, follow, path, budget);
    if table[path].kind.Symlink? {
      var next := NextOnChase(table, path, hops);
      SafeTrailTail(table, path, hops);
      FollowsChain(table, follow, next, hops - 1, budget - 1);
    }
  }

  // The walk on the tree is such a way.
  ghost function WalkOn(entries: seq<Entry>, createdMode: nat): (Path, nat) -> Option<Path> {
    (path: Path, budget: nat) => Walk(Materialised(entries, createdMode), [], path, budget)
  }

  lemma WalkFollowsLink(entries: seq<Entry>, createdMode: nat, path: Path, budget: nat)
    requires AllInspected(Specs(entries)) && Accepted(Specs(entries))
    ensures FollowsLink(ByPath(Specs(entries)), WalkOn(entries, createdMode), path, budget)
  {
    var table := ByPath(Specs(entries));
    if path in table {
      var i := EntryAt(Specs(entries), path);
      if !table[path].kind.Symlink? {
        WalkToEntry(entries, createdMode, i, budget);
      } else if SafeLink(table, path) && budget > 0 {
        WalkThroughSafeLink(entries, createdMode, i, budget);
      }
    }
  }

  // Following an accepted link on the tree, step by step, ends at the entry
  // where the lexical chain ends, provided every link of the chain is safe.
  lemma WalkFollowsChase(entries: seq<Entry>, createdMode: nat, path: Path, hops: nat, budget: nat)
    requires AllInspected(Specs(entries)) && Accepted(Specs(entries))
    requires Chase(ByPath(Specs(entries)), path, hops).Some?
    requires Chase(ByPath(Specs(entries)), path, hops).value.1 <= budget
    requires SafeTrail(ByPath(Specs(entries)), Trail(ByPath(Specs(entries)), path, hops))
    ensures Walk(Materialised(entries, createdMode), [], path, budget)
         == Some(Chase(ByPath(Specs(entries)), path, hops).value.0)
  {
    forall p, b: nat ensures FollowsLink(ByPath(Specs(entries)), WalkOn(entries, createdMode), p, b) {
      WalkFollowsLink(entries, createdMode, p, b);
    }
    FollowsChain(ByPath(Specs(entries)), WalkOn(entries, createdMode), path, hops, budget);
  }

  // The usual case: archives whose link targets put their `..` first.
  lemma AcceptedLinksWalk(entries: seq<Entry>, createdMode: nat, i: nat, budget: nat)
    requires AllInspected(Specs(entries)) && Accepted(Specs(entries))
    requires i < |entries| && entries[i].spec.kind.Symlink? && budget >= MAX_SYMLINK_HOPS
    requires forall j :: 0 <= j < |entries| && entries[j].spec.kind.Symlink? ==>
               DotsFirst(entries[j].spec.linkTarget.value)
    ensures entries[i].spec.path in ByPath(Specs(entries))
    ensures Chase(ByPath(Specs(entries)), entries[i].spec.path, MAX_SYMLINK_HOPS).Some?
    ensures var (end, hops) := Chase(ByPath(Specs(entries)), entries[i].spec.path, MAX_SYMLINK_HOPS).value;
            var tree := Materialised(entries, createdMode);
            && Walk(tree, [], entries[i].spec.path, budget) == Some(end)
            && [ROOT_NAME] <= end && end in tree && !tree[end].Link?
  {
    var specs := Specs(entries);
    var table := ByPath(specs);
    var link := specs[i].path;
    AcceptedChain(specs, i);
    var trail := Trail(table, link, MAX_SYMLINK_HOPS);
    forall a | 0 <= a < |trail| - 1 ensures SafeLink(table, trail[a]) {
      DotsFirstLinkIsSafe(entries, trail[a]);
    }
    TrailShape(table, link, MAX_SYMLINK_HOPS, |trail| - 1);
    WalkFollowsChase(entries, createdMode, link, MAX_SYMLINK_HOPS, budget);
    var j := EntryAt(specs, trail[|trail| - 1]);
    MaterialisedEntry(entries, createdMode, j);
  }

  lemma DotsFirstLinkIsSafe(entries: seq<Entry>, path: Path)
    requires AllInspected(Specs(entries)) && Accepted(Specs(entries))
    requires forall j :: 0 <= j < |entries| && entries[j].spec.kind.Symlink? ==>
               DotsFirst(entries[j].spec.linkTarget.value)
    requires path in ByPath(Specs(entries)) && ByPath(Specs(entries))[path].kind.Symlink?
    ensures SafeLink(ByPath(Specs(entries)), path)
  {
    var j := EntryAt(Specs(entries), path);
    var target := entries[j].spec.linkTarget.value;
    assert HoldsLink(entries, path, target);
    var x, y := LinkFacts(entries, path, target);
    DotsFirstIsSafe(path, target);
  }
}
