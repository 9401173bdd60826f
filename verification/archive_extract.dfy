// Writing an accepted archive into a fresh staging directory.
module ArchiveExtract {
  import opened Results
  import opened ArchiveErrors
  import opened ArchivePaths
  import opened ArchiveStructure
  import opened ArchiveTree
  import opened TarTrailer

  const MAX_MATERIAL_ENTRIES: nat := 250_000
  const IO_BUFFER_BYTES: nat := 0x1_0000

  ghost predicate ParentsPresent(tree: Tree, path: Path) {
    forall k :: 0 <= k < |path| ==> IsDirectory(tree, path[..k])
  }

  // Something that is no directory is above the path.
  predicate Blocked(tree: Tree, path: Path) {
    exists k :: 1 <= k < |path| && path[..k] in tree && !tree[path[..k]].Dir?
  }

  predicate CrossesLink(tree: Tree, path: Path) {
    exists k :: 1 <= k < |path| && path[..k] in tree && tree[path[..k]].Link?
  }

  // ---- reading entries ----

  // What the operating system does not do: make anything at some paths, take
  // all of some files (writing breaks off after so many bytes, and flushing
  // fails in any case), or set some modes.
  datatype Disk = Disk(refused: set<Path>, breaks: map<Path, nat>, fixedModes: set<Path>)

  function RoomFor(disk: Disk, path: Path): Option<nat> {
    if path in disk.breaks then Some(disk.breaks[path]) else None
  }

  predicate Takes(room: Option<nat>, bytes: nat) {
    room.Some? ==> bytes <= room.value
  }

  class OutputFile {
    var data: seq<Byte>
    const room: Option<nat>

    constructor (room: Option<nat>)
      ensures data == [] && this.room == room
    {
      data := [];
      this.room := room;
    }

    // Appends the bytes, or as many of them as there is room for.
    method WriteAll(bytes: seq<Byte>) returns (r: Result<(), ArchiveError>)
      modifies this
      ensures r == if Takes(room, |old(data)| + |bytes|) then Ok(()) else Err(StagingWrite)
      ensures old(data) <= data <= old(data) + bytes && (r.Ok? ==> data == old(data) + bytes)
    {
      if !Takes(room, |data| + |bytes|) {
        var n := if room.value > |data| then room.value - |data| else 0;
        data := data + bytes[..n];
        return Err(StagingWrite);
      }
      data := data + bytes;
      r := Ok(());
    }

    method Flush() returns (r: Result<(), ArchiveError>)
      ensures r == if room.None? then Ok(()) else Err(StagingWrite)
    {
      r := if room.None? then Ok(()) else Err(StagingWrite);
    }
  }

  // The sizes `consume_entry` lets through.
  predicate Fits(spec: EntrySpec, data: seq<Byte>, expanded: nat) {
    spec.kind == Regular ==>
      |data| <= spec.size && |data| <= MAX_SINGLE_ENTRY_BYTES && expanded + |data| <= MAX_EXPANDED_BYTES
  }

  // Whether the file takes the entry.
  predicate Fills(spec: EntrySpec, data: seq<Byte>, output: OutputFile?)
    reads output
  {
    output != null && spec.kind == Regular && data != [] ==> Takes(output.room, |output.data| + |data|)
  }

  // Copies one entry, in reads of any size, while counting against the limits.
  method ConsumeEntry(spec: EntrySpec, data: seq<Byte>, output: OutputFile?, expanded: nat)
      returns (r: Result<nat, ArchiveError>, total: nat)
    requires expanded <= MAX_EXPANDED_BYTES
    modifies output
    ensures r.Ok? <==> Fits(spec, data, expanded) && old(Fills(spec, data, output))
    ensures r.Ok? ==> r.value == (if spec.kind == Regular then |data| else 0) && total == expanded + r.value
    ensures r.Ok? && output != null && spec.kind == Regular ==> output.data == old(output.data) + data
    ensures output != null ==> old(output.data) <= output.data <= old(output.data) + data
    ensures r.Err? ==>
      if r.error.StagingWrite? then !old(Fills(spec, data, output))
      else r.error == ArchiveLimit && !Fits(spec, data, expanded)
  {
    total := expanded;
    if spec.kind != Regular {
      return Ok(0), total;
    }
    var actual := 0;
    while actual < |data|
      invariant actual <= |data| && total == expanded + actual
      invariant Fits(spec, data[..actual], expanded)
      invariant output != null ==>
        output.data == old(output.data) + data[..actual] && (actual > 0 ==> Takes(output.room, |output.data|))
    {
      var bytesRead: nat :| 0 < bytesRead <= IO_BUFFER_BYTES && actual + bytesRead <= |data|;
      var chunk := data[actual..actual + bytesRead];
      assert data[..actual] + chunk == data[..actual + bytesRead];
      actual := actual + bytesRead;
      if actual > spec.size || actual > MAX_SINGLE_ENTRY_BYTES {
        return Err(ArchiveLimit), total;
      }
      total := total + bytesRead;
      if total > MAX_EXPANDED_BYTES {
        return Err(ArchiveLimit), total;
      }
      if output != null {
        var written := output.WriteAll(chunk);
        if written.Err? {
          return Err(written.error), total;
        }
      }
    }
    assert data[..|data|] == data;
    r := Ok(actual);
  }

  function Expanded(entries: seq<Entry>): nat {
    if entries == [] then 0
    else
      var last := entries[|entries| - 1];
      Expanded(entries[..|entries| - 1]) + if last.spec.kind == Regular then |last.data| else 0
  }

  ghost predicate SizesMatch(entries: seq<Entry>) {
    forall i :: 0 <= i < |entries| && entries[i].spec.kind == Regular ==>
      |entries[i].data| == entries[i].spec.size <= MAX_SINGLE_ENTRY_BYTES
  }

  ghost predicate Sized(entries: seq<Entry>) {
    SizesMatch(entries) && Expanded(entries) <= MAX_EXPANDED_BYTES
  }

  ghost predicate WithinLimits(entries: seq<Entry>) {
    |entries| <= MAX_MATERIAL_ENTRIES && Sized(entries)
  }

  lemma {:induction false} ExpandedGrows(entries: seq<Entry>, i: nat)
    requires i <= |entries|
    ensures Expanded(entries[..i]) <= Expanded(entries)
    decreases |entries| - i
  {
    if i == |entries| {
      assert entries[..i] == entries;
    } else {
      ExpandedGrows(entries, i + 1);
      assert entries[..i + 1][..i] == entries[..i];
    }
  }

  lemma LastMatches(entries: seq<Entry>, i: nat)
    requires i < |entries|
    ensures SizesMatch(entries[..i + 1]) <==>
            SizesMatch(entries[..i])
            && (entries[i].spec.kind == Regular ==> |entries[i].data| == entries[i].spec.size <= MAX_SINGLE_ENTRY_BYTES)
    ensures SizesMatch(entries) ==> SizesMatch(entries[..i + 1])
  {
    var init := entries[..i + 1];
    assert init == entries[..i] + [entries[i]];
    if SizesMatch(init) {
      assert forall j :: 0 <= j < i ==> entries[..i][j] == init[j];
      assert init[i] == entries[i];
    }
  }

  lemma LastSizes(entries: seq<Entry>, i: nat)
    requires i < |entries|
    ensures SizesMatch(entries[..i + 1]) <==>
            SizesMatch(entries[..i])
            && (entries[i].spec.kind == Regular ==> |entries[i].data| == entries[i].spec.size <= MAX_SINGLE_ENTRY_BYTES)
    ensures Expanded(entries[..i + 1]) ==
            Expanded(entries[..i]) + if entries[i].spec.kind == Regular then |entries[i].data| else 0
    ensures SizesMatch(entries) ==> SizesMatch(entries[..i + 1])
    ensures Expanded(entries[..i + 1]) <= Expanded(entries)
  {
    LastMatches(entries, i);
    assert entries[..i + 1][..i] == entries[..i];
    ExpandedGrows(entries, i + 1);
  }

  // What each code tells about the sizes of the entries.
  ghost predicate Missized(entries: seq<Entry>, error: ArchiveError) {
    match error
    case ArchiveTar =>
      exists i :: 0 <= i < |entries| && entries[i].spec.kind.Regular? && |entries[i].data| < entries[i].spec.size
    case ArchiveLimit =>
      || Expanded(entries) > MAX_EXPANDED_BYTES
      || exists i :: 0 <= i < |entries| && entries[i].spec.kind.Regular?
                     && (|entries[i].data| > entries[i].spec.size || |entries[i].data| > MAX_SINGLE_ENTRY_BYTES)
    case _ => false
  }

  // The sizes of all entries, against the declared sizes and the limits.
  method MeasureEntries(entries: seq<Entry>) returns (r: Result<seq<EntrySpec>, ArchiveError>)
    ensures r.Ok? <==> WithinLimits(entries)
    ensures r.Ok? ==> r.value == Specs(entries)
    ensures r.Err? ==>
      Missized(entries, r.error) || (r.error == ArchiveLimit && |entries| > MAX_MATERIAL_ENTRIES)
  {
    var specs: seq<EntrySpec> := [];
    var expanded := 0;
    for i := 0 to |entries|
      invariant specs == Specs(entries)[..i] && i <= MAX_MATERIAL_ENTRIES
      invariant expanded == Expanded(entries[..i]) <= MAX_EXPANDED_BYTES
      invariant SizesMatch(entries[..i])
    {
      if |specs| >= MAX_MATERIAL_ENTRIES {
        return Err(ArchiveLimit);
      }
      var entry := entries[i];
      LastSizes(entries, i);
      var consumed, total := ConsumeEntry(entry.spec, entry.data, null, expanded);
      if consumed.Err? {
        return Err(ArchiveLimit);
      }
      if entry.spec.kind == Regular && consumed.value != entry.spec.size {
        return Err(ArchiveTar);
      }
      expanded := total;
      specs := specs + [entry.spec];
    }
    assert entries[..|entries|] == entries;
    assert Specs(entries)[..|entries|] == Specs(entries);
    r := Ok(specs);
  }

  // A package: its entries, and the stream they are read from.
  datatype Package = Package(entries: seq<Entry>, stream: Stream)

  // What both passes ask of a package.
  ghost predicate Acceptable(package: Package) {
    WithinLimits(package.entries) && Accepted(Specs(package.entries)) && EndsWell(package.stream)
  }

  // What each code of the first pass tells about the package.
  ghost predicate Unacceptable(package: Package, error: ArchiveError) {
    || Missized(package.entries, error)
    || (error == ArchiveLimit && |package.entries| > MAX_MATERIAL_ENTRIES)
    || Misbuilt(Specs(package.entries), error)
    || EndsBadly(package.stream, error)
  }

  // The same with the limits written out: 250000 entries, 1 GiB each, 8 GiB in
  // all, and the end of the stream.
  lemma AcceptableMeaning(package: Package)
    ensures Acceptable(package) <==>
              && |package.entries| <= 250_000
              && (forall i :: 0 <= i < |package.entries| && package.entries[i].spec.kind.Regular? ==>
                    |package.entries[i].data| == package.entries[i].spec.size <= 1_073_741_824)
              && Expanded(package.entries) <= 8_589_934_592
              && Accepted(Specs(package.entries))
              && !package.stream.decoderFails && package.stream.rest == []
              && TrailerVerdict(package.stream.entries, package.stream.trailer, false).Ok?
  {
  }

  lemma ExpandedMeaning(entries: seq<Entry>, entry: Entry)
    ensures Expanded([]) == 0
    ensures Expanded(entries + [entry]) == Expanded(entries) + if entry.spec.kind.Regular? then |entry.data| else 0
  {
    assert (entries + [entry])[..|entries|] == entries;
  }

  // The first pass over the package: sizes, limits, structure and the end of
  // the stream, nothing written.
  method PreflightArchive(package: Package) returns (r: Result<seq<EntrySpec>, ArchiveError>)
    requires AllInspected(Specs(package.entries))
    ensures r.Ok? <==> Acceptable(package)
    ensures r.Ok? ==> r.value == Specs(package.entries)
    ensures r.Err? ==> Unacceptable(package, r.error)
  {
    var start, reader := OpenArchive(package.stream, IO_BUFFER_BYTES);
    if start.Err? {
      return Err(start.error);
    }
    r := MeasureEntries(package.entries);
    if r.Err? {
      return;
    }
    var structure := ValidateArchiveStructure(r.value);
    if structure.Err? {
      return Err(structure.error);
    }
    var closed := CloseArchive(reader, package.stream, IO_BUFFER_BYTES);
    if closed.Err? {
      r := Err(closed.error);
    }
  }

  // What the second pass asks of the package: the entries of the first pass,
  // within the limits, and the end of the stream.
  ghost predicate SamePackage(package: Package, expected: seq<EntrySpec>) {
    Specs(package.entries) == expected && Sized(package.entries) && EndsWell(package.stream)
  }

  // What each code of the second pass tells.
  ghost predicate Unextracted(package: Package, expected: seq<EntrySpec>, disk: Disk, error: ArchiveError) {
    || Missized(package.entries, error)
    || EndsBadly(package.stream, error)
    || (error == ArchiveTar && Specs(package.entries) != expected)
    || (error == StagingWrite && !(WritesAll(disk, expected) && SetsModes(disk, expected)))
  }

  // What a code tells of is indeed refused.
  lemma CausesRefuse(package: Package, expected: seq<EntrySpec>, disk: Disk, error: ArchiveError)
    ensures Unacceptable(package, error) ==> !Acceptable(package)
    ensures Unextracted(package, expected, disk, error) ==>
              !(SamePackage(package, expected) && WritesAll(disk, expected) && SetsModes(disk, expected))
  {
    var specs := Specs(package.entries);
    if KindAbove(specs, ByPath(specs), Regular) || KindAbove(specs, ByPath(specs), Symlink) {
      var i, k :| 0 <= i < |specs| && 1 <= k < |specs[i].path| && specs[i].path[..k] in ByPath(specs)
                  && !ByPath(specs)[specs[i].path[..k]].kind.Directory?;
      assert !ParentsAreDirectories(specs[i].path, ByPath(specs));
    }
  }

  // The first `done` entries have the expected specifications.
  ghost predicate Matches(entries: seq<Entry>, expected: seq<EntrySpec>, done: nat) {
    done <= |entries| && done <= |expected| && forall j :: 0 <= j < done ==> entries[j].spec == expected[j]
  }

  lemma SameSpecs(entries: seq<Entry>, expected: seq<EntrySpec>)
    requires Matches(entries, expected, |entries|)
    ensures Specs(entries) == expected <==> |entries| == |expected|
  {
    if |entries| == |expected| {
      assert Specs(entries) == expected;
    }
  }

  // ---- the staging directory ----

  // Directories that `prepare_directory_tree` makes for an entry: its
  // ancestors, and itself if it is a directory.
  ghost predicate Needs(spec: EntrySpec, path: Path) {
    && 1 <= |path| <= |spec.path|
    && path == spec.path[..|path|]
    && (|path| < |spec.path| || spec.kind.Directory?)
  }

  ghost predicate NeededBy(specs: seq<EntrySpec>, path: Path) {
    exists j :: 0 <= j < |specs| && Needs(specs[j], path)
  }

  ghost predicate MakesDirectories(disk: Disk, specs: seq<EntrySpec>) {
    forall p :: NeededBy(specs, p) ==> p !in disk.refused
  }

  // The operating system makes this entry, takes its bytes and sets its mode.
  predicate Writes(disk: Disk, spec: EntrySpec) {
    match spec.kind
    case Directory => true
    case Symlink => spec.path !in disk.refused
    case Regular => spec.path !in disk.refused && spec.path !in disk.breaks && spec.path !in disk.fixedModes
  }

  predicate WritesAll(disk: Disk, specs: seq<EntrySpec>) {
    forall i :: 0 <= i < |specs| ==> Writes(disk, specs[i])
  }

  predicate SetsModes(disk: Disk, specs: seq<EntrySpec>) {
    forall i :: 0 <= i < |specs| && specs[i].kind == Directory ==> specs[i].path !in disk.fixedModes
  }

  lemma NeedsMeaning(spec: EntrySpec)
    ensures forall p :: Needs(spec, p) <==>
              (1 <= |p| < |spec.path| && p == spec.path[..|p|])
              || (p == spec.path && p != [] && spec.kind == Directory)
    ensures forall k :: 1 <= k < |spec.path| ==> Needs(spec, spec.path[..k])
  {
    assert spec.path[..|spec.path|] == spec.path;
  }

  lemma NeedsRefused(disk: Disk, specs: seq<EntrySpec>, i: nat)
    requires i < |specs| && exists p :: Needs(specs[i], p) && p in disk.refused
    ensures !MakesDirectories(disk, specs)
  {
    var p :| Needs(specs[i], p) && p in disk.refused;
    assert NeededBy(specs, p);
  }

  // One of the first `done` entries stands at the path, and is no directory.
  ghost predicate Stands(specs: seq<EntrySpec>, path: Path, done: nat) {
    exists j :: 0 <= j < |specs| && j < done && specs[j].path == path && !specs[j].kind.Directory?
  }

  // The staging tree after the directories are made and the first `done`
  // entries of the package are written.
  ghost predicate Staged(tree: Tree, specs: seq<EntrySpec>, entries: seq<Entry>, createdMode: nat, done: nat) {
    && (forall p :: p in tree <==> NeededBy(specs, p) || Stands(specs, p, done))
    && (forall p :: p in tree && !Stands(specs, p, done) ==> tree[p] == Dir(createdMode))
    && (forall j :: 0 <= j < |specs| && j < |entries| && j < done && !specs[j].kind.Directory? ==>
          tree[specs[j].path] == NodeOf(specs[j], entries[j].data))
  }

  // What a new entry finds: its place is free and its parents are directories.
  lemma PlaceIsFree(tree: Tree, specs: seq<EntrySpec>, entries: seq<Entry>, createdMode: nat, i: nat)
    requires AllInspected(specs) && Accepted(specs) && i < |specs| && i <= |entries|
    requires Staged(tree, specs, entries, createdMode, i)
    ensures ParentsPresent(tree, specs[i].path)
    ensures if specs[i].kind.Directory? then specs[i].path in tree && tree[specs[i].path].Dir?
            else specs[i].path !in tree
  {
    var path := specs[i].path;
    TableEntry(specs, i);
    assert path[..|path|] == path && Inspected(specs[i]);
    if specs[i].kind.Directory? {
      assert Needs(specs[i], path);
      assert !Stands(specs, path, i);
    } else {
      forall j | 0 <= j < |specs| ensures !Needs(specs[j], path) {
        assert ParentsAreDirectories(specs[j].path, ByPath(specs));
        assert specs[j].path[..|specs[j].path|] == specs[j].path;
      }
    }
    forall k | 0 <= k < |path| ensures IsDirectory(tree, path[..k]) {
      if k > 0 {
        assert Needs(specs[i], path[..k]);
        AncestorIsNoEntry(specs, i, path[..k]);
      }
    }
  }

  lemma AncestorIsNoEntry(specs: seq<EntrySpec>, i: nat, x: Path)
    requires Accepted(specs) && i < |specs| && Ancestor(x, specs[i].path) && x != []
    ensures !Stands(specs, x, |specs|)
  {
    assert ParentsAreDirectories(specs[i].path, ByPath(specs));
    assert x == specs[i].path[..|x|];
    forall j | 0 <= j < |specs| && specs[j].path == x ensures specs[j].kind.Directory? {
      TableEntry(specs, j);
    }
  }

  // Writing one more entry.
  lemma StagedOneMore(tree: Tree, tree': Tree, specs: seq<EntrySpec>, entries: seq<Entry>, createdMode: nat, i: nat)
    requires UniquePaths(specs) && i < |specs| && i < |entries|
    requires Staged(tree, specs, entries, createdMode, i)
    requires tree' ==
             if specs[i].kind.Directory? then tree else tree[specs[i].path := NodeOf(specs[i], entries[i].data)]
    ensures Staged(tree', specs, entries, createdMode, i + 1)
  {
    forall p ensures Stands(specs, p, i + 1) <==>
                     Stands(specs, p, i) || (p == specs[i].path && !specs[i].kind.Directory?)
    {
    }
  }

  // The tree that `SetDirectoryModes` leaves.
  ghost predicate ModesSet(tree: Tree, tree': Tree, table: Table) {
    && tree'.Keys == tree.Keys
    && (forall p :: p in tree && p in table && table[p].kind.Directory? ==> tree'[p] == Dir(EXECUTABLE_MODE))
    && (forall p :: p in tree && (p !in table || !table[p].kind.Directory?) ==> tree'[p] == tree[p])
  }

  // The staged tree with the safe modes on its explicit directories is the
  // tree the archive stands for.
  lemma StagedIsMaterialised(tree: Tree, tree': Tree, entries: seq<Entry>, createdMode: nat)
    requires AllInspected(Specs(entries)) && Accepted(Specs(entries))
    requires Staged(tree, Specs(entries), entries, createdMode, |entries|)
    requires ModesSet(tree, tree', ByPath(Specs(entries)))
    ensures tree' == Materialised(entries, createdMode)
  {
    KeysAgree(tree, entries, createdMode);
    NodesAgree(tree, tree', entries, createdMode);
  }

  lemma NodesAgree(tree: Tree, tree': Tree, entries: seq<Entry>, createdMode: nat)
    requires AllInspected(Specs(entries)) && Accepted(Specs(entries))
    requires Staged(tree, Specs(entries), entries, createdMode, |entries|)
    requires ModesSet(tree, tree', ByPath(Specs(entries)))
    ensures forall p :: p in tree' && p in Materialised(entries, createdMode) ==>
              tree'[p] == Materialised(entries, createdMode)[p]
  {
    forall p | p in tree' && p in Materialised(entries, createdMode)
      ensures tree'[p] == Materialised(entries, createdMode)[p]
    {
      NodeAgrees(tree, tree', entries, createdMode, p);
    }
  }

  lemma NodeAgrees(tree: Tree, tree': Tree, entries: seq<Entry>, createdMode: nat, p: Path)
    requires AllInspected(Specs(entries)) && Accepted(Specs(entries))
    requires Staged(tree, Specs(entries), entries, createdMode, |entries|)
    requires ModesSet(tree, tree', ByPath(Specs(entries)))
    requires p in tree' && p in Materialised(entries, createdMode)
    ensures tree'[p] == Materialised(entries, createdMode)[p]
  {
    var specs := Specs(entries);
    if p in ByPath(specs) {
      var j := EntryAt(specs, p);
      assert Inspected(specs[j]);
      MaterialisedEntry(entries, createdMode, j);
      assert ByPath(specs)[p] == specs[j];
    } else {
      NotStanding(specs, p);
      assert tree[p] == Dir(createdMode);
    }
  }

  lemma NotStanding(specs: seq<EntrySpec>, p: Path)
    requires UniquePaths(specs) && p !in ByPath(specs)
    ensures !Stands(specs, p, |specs|)
  {
    forall j | 0 <= j < |specs| ensures specs[j].path != p {
      TableEntry(specs, j);
    }
  }

  lemma KeysAgree(tree: Tree, entries: seq<Entry>, createdMode: nat)
    requires AllInspected(Specs(entries))
    requires Staged(tree, Specs(entries), entries, createdMode, |entries|)
    ensures tree.Keys == Prefixes(Specs(entries))
  {
    var specs := Specs(entries);
    forall p ensures p in tree <==> p in Prefixes(specs) {
      NeededIsPrefix(specs, p);
    }
  }

  lemma NeededIsPrefix(specs: seq<EntrySpec>, p: Path)
    requires AllInspected(specs)
    ensures NeededBy(specs, p) || Stands(specs, p, |specs|) <==> p in Prefixes(specs)
  {
    if p in Prefixes(specs) {
      var j, k :| 0 <= j < |specs| && 1 <= k <= |specs[j].path| && p == specs[j].path[..k];
      assert specs[j].path[..|specs[j].path|] == specs[j].path;
      assert Needs(specs[j], p) || (specs[j].path == p && !specs[j].kind.Directory?);
    }
    if Stands(specs, p, |specs|) {
      var j :| 0 <= j < |specs| && specs[j].path == p;
      assert Inspected(specs[j]) && p == specs[j].path[..|p|];
    }
    if NeededBy(specs, p) {
      var j :| 0 <= j < |specs| && Needs(specs[j], p);
      assert p == specs[j].path[..|p|];
    }
  }

  class StagingTree {
    var nodes: Tree
    // Set when an operating system call met a link in the middle of its path.
    var crossedLink: bool
    const createdMode: nat
    const disk: Disk
    // Whether the temporary directory exists, and what is published.
    var temporary: bool
    var ready: Option<Tree>

    constructor (createdMode: nat, disk: Disk, ready: Option<Tree>)
      ensures nodes == map[] && !crossedLink && this.createdMode == createdMode && this.disk == disk
      ensures !temporary && this.ready == ready
    {
      nodes := map[];
      crossedLink := false;
      temporary := false;
      this.ready := ready;
      this.createdMode := createdMode;
      this.disk := disk;
    }

    // Looks the parents of a path up the way every call does.
    method Locate(path: Path) returns (found: bool)
      requires |path| >= 1
      modifies this`crossedLink
      ensures found <==> ParentsPresent(nodes, path)
      ensures crossedLink == (old(crossedLink) || CrossesLink(nodes, path))
    {
      crossedLink := crossedLink || CrossesLink(nodes, path);
      found := forall k :: 0 <= k < |path| ==> IsDirectory(nodes, path[..k]);
    }

    // Makes a directory, or accepts the one that is there.
    method EnsureDirectoryNoFollow(path: Path) returns (r: Result<(), ArchiveError>)
      requires |path| >= 1
      modifies this`nodes, this`crossedLink
      ensures ParentsPresent(old(nodes), path) ==>
        && crossedLink == old(crossedLink)
        && (if path in old(nodes) then nodes == old(nodes) && r == if nodes[path].Dir? then Ok(()) else Err(StagingPath)
            else if path in disk.refused then r == Err(StagingWrite) && nodes == old(nodes)
            else r.Ok? && nodes == old(nodes)[path := Dir(createdMode)])
      ensures !ParentsPresent(old(nodes), path) ==>
        nodes == old(nodes) && r == Err(if Blocked(nodes, path) then StagingRead else StagingWrite)
    {
      var found := Locate(path);
      if !found {
        return Err(if Blocked(nodes, path) then StagingRead else StagingWrite);
      }
      if path in nodes {
        return if nodes[path].Dir? then Ok(()) else Err(StagingPath);
      }
      if path in disk.refused {
        return Err(StagingWrite);
      }
      nodes := nodes[path := Dir(createdMode)];
      r := Ok(());
    }

    // Only directories so far, each with its parents.
    ghost predicate OnlyDirectories()
      reads this
    {
      forall p :: p in nodes ==>
        nodes[p] == Dir(createdMode) && |p| >= 1 && ParentsPresent(nodes, p) && p !in disk.refused
    }

    method EnsureParentDirectories(path: Path) returns (r: Result<(), ArchiveError>)
      requires |path| >= 1 && OnlyDirectories()
      modifies this`nodes, this`crossedLink
      ensures OnlyDirectories() && crossedLink == old(crossedLink)
      ensures r.Ok? <==> forall k :: 1 <= k < |path| ==> path[..k] !in disk.refused
      ensures r.Err? ==> r.error == StagingWrite
      ensures r.Ok? ==> ParentsPresent(nodes, path)
      ensures r.Ok? ==> forall p :: p in nodes <==> p in old(nodes) || (1 <= |p| < |path| && p == path[..|p|])
    {
      for k := 1 to |path|
        invariant OnlyDirectories() && crossedLink == old(crossedLink)
        invariant forall p :: p in nodes <==> p in old(nodes) || (1 <= |p| < k && p == path[..|p|])
        invariant ParentsPresent(nodes, path[..k])
      {
        r := EnsureDirectoryNoFollow(path[..k]);
        if r.Err? {
          return;
        }
        PrefixOfPrefix(path, k);
        PrefixOfPrefix(path, k + 1);
      }
      assert path[..|path|] == path;
      r := Ok(());
    }

    method PrepareEntry(spec: EntrySpec) returns (r: Result<(), ArchiveError>)
      requires |spec.path| >= 1 && OnlyDirectories()
      modifies this`nodes, this`crossedLink
      ensures OnlyDirectories() && crossedLink == old(crossedLink)
      ensures r.Ok? <==> forall p :: Needs(spec, p) ==> p !in disk.refused
      ensures r.Err? ==> r.error == StagingWrite
      ensures r.Ok? ==> forall p :: p in nodes <==> p in old(nodes) || Needs(spec, p)
    {
      NeedsMeaning(spec);
      r := EnsureParentDirectories(spec.path);
      if r.Ok? && spec.kind == Directory {
        r := EnsureDirectoryNoFollow(spec.path);
      }
    }

    // What `PrepareDirectoryTree` leaves.
    ghost predicate Prepared(specs: seq<EntrySpec>)
      reads this
    {
      && (forall p :: p in nodes <==> NeededBy(specs, p))
      && (forall p :: p in nodes ==> nodes[p] == Dir(createdMode))
    }

    // Makes every directory the entries need.
    method PrepareDirectoryTree(specs: seq<EntrySpec>) returns (r: Result<(), ArchiveError>)
      requires AllInspected(specs) && nodes == map[] && !crossedLink
      modifies this`nodes, this`crossedLink
      ensures !crossedLink && (r.Ok? <==> MakesDirectories(disk, specs))
      ensures r.Err? ==> r.error == StagingWrite
      ensures r.Ok? ==> Prepared(specs)
    {
      for i := 0 to |specs|
        invariant OnlyDirectories() && !crossedLink
        invariant forall p :: p in nodes <==> NeededBy(specs[..i], p)
      {
        assert Inspected(specs[i]);
        r := PrepareEntry(specs[i]);
        if r.Err? {
          NeedsRefused(disk, specs, i);
          return;
        }
        forall p ensures p in nodes <==> NeededBy(specs[..i + 1], p) {
          NeededByOneMore(specs, i, p);
        }
      }
      assert specs[..|specs|] == specs;
      r := Ok(());
    }

    method OpenNewRegularFile(path: Path) returns (r: Result<(), ArchiveError>)
      requires |path| >= 1
      modifies this`nodes, this`crossedLink
      ensures r == if !ParentsPresent(old(nodes), path) then Err(StagingWrite)
                   else if path in old(nodes) then Err(StagingPath)
                   else if path in disk.refused then Err(StagingWrite) else Ok(())
      ensures nodes == if r.Ok? then old(nodes)[path := File(PLAIN_MODE, [])] else old(nodes)
      ensures ParentsPresent(old(nodes), path) ==> crossedLink == old(crossedLink)
    {
      var found := Locate(path);
      if !found {
        return Err(StagingWrite);
      }
      if path in nodes {
        return Err(StagingPath);
      }
      if path in disk.refused {
        return Err(StagingWrite);
      }
      nodes := nodes[path := File(PLAIN_MODE, [])];
      r := Ok(());
    }

    method CreateSymlink(target: Path, path: Path) returns (r: Result<(), ArchiveError>)
      requires |path| >= 1
      modifies this`nodes, this`crossedLink
      ensures r == if ParentsPresent(old(nodes), path) && path !in old(nodes) && path !in disk.refused then Ok(())
                   else Err(StagingWrite)
      ensures nodes == if r.Ok? then old(nodes)[path := Link(target)] else old(nodes)
      ensures ParentsPresent(old(nodes), path) ==> crossedLink == old(crossedLink)
    {
      var found := Locate(path);
      if !found || path in nodes || path in disk.refused {
        return Err(StagingWrite);
      }
      nodes := nodes[path := Link(target)];
      r := Ok(());
    }

    method SetSafeMode(path: Path, mode: nat, kind: MaterialKind) returns (r: Result<(), ArchiveError>)
      modifies this`nodes
      ensures kind == Symlink ==> r.Ok? && nodes == old(nodes)
      ensures kind != Symlink && path in old(nodes) && path !in disk.fixedModes ==>
        r.Ok? && nodes == old(nodes)[path := WithSafeMode(old(nodes)[path], mode, kind)]
      ensures kind != Symlink && (path !in old(nodes) || path in disk.fixedModes) ==>
        r == Err(StagingWrite) && nodes == old(nodes)
    {
      if kind == Symlink {
        return Ok(());
      }
      if path !in nodes || path in disk.fixedModes {
        return Err(StagingWrite);
      }
      nodes := nodes[path := WithSafeMode(nodes[path], mode, kind)];
      r := Ok(());
    }

    // What an entry that could not be written leaves: nothing, or a file with
    // the first bytes of its contents.
    twostate predicate HalfWritten(spec: EntrySpec, data: seq<Byte>)
      reads this
    {
      || nodes == old(nodes)
      || (&& spec.kind.Regular? && spec.path !in old(nodes) && spec.path in nodes
          && nodes == old(nodes)[spec.path := nodes[spec.path]]
          && nodes[spec.path].File? && nodes[spec.path].data <= data)
    }

    // What each code tells about an entry.
    ghost predicate Unwritten(spec: EntrySpec, data: seq<Byte>, expanded: nat, error: ArchiveError) {
      match error
      case ArchiveTar => spec.kind.Regular? && |data| < spec.size
      case ArchiveLimit => !Fits(spec, data, expanded)
      case StagingWrite => !Writes(disk, spec)
      case _ => false
    }

    // Writes one entry into its place.
    method WriteEntry(spec: EntrySpec, data: seq<Byte>, expanded: nat)
        returns (r: Result<(), ArchiveError>, total: nat)
      requires |spec.path| >= 1 && expanded <= MAX_EXPANDED_BYTES
      requires spec.kind.Symlink? ==> spec.linkTarget.Some?
      requires ParentsPresent(nodes, spec.path)
      requires if spec.kind.Directory? then spec.path in nodes && nodes[spec.path].Dir? else spec.path !in nodes
      modifies this`nodes, this`crossedLink
      ensures crossedLink == old(crossedLink)
      ensures r.Ok? <==>
        Fits(spec, data, expanded) && (spec.kind == Regular ==> |data| == spec.size) && Writes(disk, spec)
      ensures r.Ok? ==>
        && total == expanded + (if spec.kind == Regular then |data| else 0)
        && nodes == if spec.kind.Directory? then old(nodes) else old(nodes)[spec.path := NodeOf(spec, data)]
      ensures r.Err? ==> HalfWritten(spec, data) && Unwritten(spec, data, expanded, r.error)
    {
      total := expanded;
      match spec.kind
      case Directory =>
        r := EnsureDirectoryNoFollow(spec.path);
      case Symlink =>
        r := CreateSymlink(spec.linkTarget.value, spec.path);
      case Regular =>
        r, total := WriteRegular(spec, data, expanded);
    }

    method WriteRegular(spec: EntrySpec, data: seq<Byte>, expanded: nat)
        returns (r: Result<(), ArchiveError>, total: nat)
      requires |spec.path| >= 1 && expanded <= MAX_EXPANDED_BYTES && spec.kind == Regular
      requires ParentsPresent(nodes, spec.path) && spec.path !in nodes
      modifies this`nodes, this`crossedLink
      ensures crossedLink == old(crossedLink)
      ensures r.Ok? <==> Fits(spec, data, expanded) && |data| == spec.size && Writes(disk, spec)
      ensures r.Ok? ==> total == expanded + |data| && nodes == old(nodes)[spec.path := NodeOf(spec, data)]
      ensures r.Err? ==> HalfWritten(spec, data) && Unwritten(spec, data, expanded, r.error)
    {
      total := expanded;
      r := OpenNewRegularFile(spec.path);
      if r.Err? {
        return;
      }
      var output := new OutputFile(RoomFor(disk, spec.path));
      var consumed: Result<nat, ArchiveError>;
      consumed, total := ConsumeEntry(spec, data, output, expanded);
      nodes := nodes[spec.path := File(PLAIN_MODE, output.data)];
      assert nodes == old(nodes)[spec.path := File(PLAIN_MODE, output.data)] && output.data <= data;
      if consumed.Err? {
        return Err(consumed.error), total;
      }
      if consumed.value != spec.size {
        return Err(ArchiveTar), total;
      }
      r := output.Flush();
      if r.Err? {
        return;
      }
      assert output.data == data;
      r := SetSafeMode(spec.path, spec.mode, spec.kind);
      if r.Ok? {
        assert nodes == old(nodes)[spec.path := NodeOf(spec, data)];
      }
    }

    // The second pass over the package. It succeeds exactly when the package
    // still holds the entries of the first pass and still ends well, and the
    // system writes them; the tree is then the tree of the archive, and no call
    // went through a link.
    method ExtractArchive(package: Package, expected: seq<EntrySpec>) returns (r: Result<(), ArchiveError>)
      requires AllInspected(expected) && Accepted(expected) && Prepared(expected)
      modifies this`nodes, this`crossedLink
      ensures crossedLink == old(crossedLink)
      ensures r.Ok? <==> SamePackage(package, expected) && WritesAll(disk, expected) && SetsModes(disk, expected)
      ensures r.Err? ==> Unextracted(package, expected, disk, r.error)
      ensures r.Ok? ==> nodes == Materialised(package.entries, createdMode)
    {
      var reader: LimitedArchiveReader;
      r, reader := OpenArchive(package.stream, IO_BUFFER_BYTES);
      if r.Err? {
        return;
      }
      r := WriteEntries(package.entries, expected);
      if r.Err? {
        return;
      }
      r := CloseArchive(reader, package.stream, IO_BUFFER_BYTES);
      if r.Err? {
        return;
      }
      ghost var staged := nodes;
      DirectoriesStand(staged, package.entries, createdMode);
      r := SetDirectoryModes(expected);
      if r.Ok? {
        StagedIsMaterialised(staged, nodes, package.entries, createdMode);
      }
    }

    method WriteEntries(entries: seq<Entry>, expected: seq<EntrySpec>) returns (r: Result<(), ArchiveError>)
      requires AllInspected(expected) && Accepted(expected) && Prepared(expected)
      modifies this`nodes, this`crossedLink
      ensures crossedLink == old(crossedLink)
      ensures r.Ok? <==> Specs(entries) == expected && Sized(entries) && WritesAll(disk, expected)
      ensures r.Ok? ==> Staged(nodes, expected, entries, createdMode, |entries|)
      ensures r.Err? ==>
        || Missized(entries, r.error)
        || (r.error == ArchiveTar && Specs(entries) != expected)
        || (r.error == StagingWrite && !WritesAll(disk, expected))
    {
      var expanded := 0;
      NothingStaged(nodes, expected, entries, createdMode);
      for i := 0 to |entries|
        invariant crossedLink == old(crossedLink)
        invariant Matches(entries, expected, i)
        invariant Staged(nodes, expected, entries, createdMode, i)
        invariant Sized(entries[..i]) && expanded == Expanded(entries[..i])
        invariant forall j :: 0 <= j < i ==> Writes(disk, expected[j])
      {
        if i >= |expected| || entries[i].spec != expected[i] {
          assert Specs(entries)[i] == entries[i].spec;
          return Err(ArchiveTar);
        }
        r, expanded := WriteNext(entries, expected, i, expanded);
        if r.Err? {
          return;
        }
      }
      assert entries[..|entries|] == entries;
      r := if |entries| == |expected| then Ok(()) else Err(ArchiveTar);
      SameSpecs(entries, expected);
    }

    // The body of the loop over the entries.
    method WriteNext(entries: seq<Entry>, expected: seq<EntrySpec>, i: nat, expanded: nat)
        returns (r: Result<(), ArchiveError>, total: nat)
      requires AllInspected(expected) && Accepted(expected)
      requires i < |entries| && i < |expected| && entries[i].spec == expected[i]
      requires Staged(nodes, expected, entries, createdMode, i)
      requires Sized(entries[..i]) && expanded == Expanded(entries[..i])
      modifies this`nodes, this`crossedLink
      ensures crossedLink == old(crossedLink)
      ensures r.Ok? <==> Sized(entries[..i + 1]) && Writes(disk, expected[i])
      ensures r.Ok? ==> total == Expanded(entries[..i + 1]) && Staged(nodes, expected, entries, createdMode, i + 1)
      ensures r.Err? ==> !Sized(entries) || !Writes(disk, expected[i])
      ensures r.Err? ==> HalfWritten(expected[i], entries[i].data)
      ensures r.Err? ==>
        Missized(entries, r.error) || (r.error == StagingWrite && !Writes(disk, expected[i]))
    {
      PlaceIsFree(nodes, expected, entries, createdMode, i);
      LinkTargetKnown(expected, i);
      LastSizes(entries, i);
      SizesOf(entries, i, expanded);
      ghost var before := nodes;
      r, total := WriteEntry(entries[i].spec, entries[i].data, expanded);
      if r.Ok? {
        StagedOneMore(before, nodes, expected, entries, createdMode, i);
      }
    }

    method SetDirectoryModes(specs: seq<EntrySpec>) returns (r: Result<(), ArchiveError>)
      requires UniquePaths(specs) && DirectoriesIn(nodes, ByPath(specs))
      modifies this`nodes
      ensures r.Ok? <==> SetsModes(disk, specs)
      ensures r.Err? ==> r.error == StagingWrite
      ensures r.Ok? ==> ModesSet(old(nodes), nodes, ByPath(specs))
    {
      ghost var table := ByPath(specs);
      for i := 0 to |specs|
        invariant nodes.Keys == old(nodes).Keys && DirectoriesIn(nodes, table) && SetsModes(disk, specs[..i])
        invariant forall p :: p in nodes && p in table && table[p].kind.Directory? && p in ByPath(specs[..i]) ==>
          nodes[p] == Dir(EXECUTABLE_MODE)
        invariant forall p :: p in nodes && (p !in table || !table[p].kind.Directory?) ==> nodes[p] == old(nodes)[p]
      {
        TableEntry(specs, i);
        assert specs[..i + 1][..i] == specs[..i];
        if specs[i].kind == Directory {
          r := SetSafeMode(specs[i].path, specs[i].mode, specs[i].kind);
          if r.Err? {
            return;
          }
        }
      }
      assert specs[..|specs|] == specs;
      r := Ok(());
    }

    // Everything between the first pass and publishing: the temporary
    // directory is filled from the package as it is `again`.
    method FillTemporary(again: Package, specs: seq<EntrySpec>, checks: Checks) returns (r: Result<(), ArchiveError>)
      requires AllInspected(specs) && Accepted(specs) && temporary && nodes == map[] && !crossedLink
      modifies this`nodes, this`crossedLink
      ensures r.Ok? <==>
        && checks.path.Ok? && checks.still.Ok? && SamePackage(again, specs)
        && MakesDirectories(disk, specs) && WritesAll(disk, specs) && SetsModes(disk, specs)
      ensures r.Ok? ==> nodes == Materialised(again.entries, createdMode)
      ensures r.Err? ==>
        || r == checks.path || r == checks.still || Unextracted(again, specs, disk, r.error)
        || (r.error == StagingWrite && !MakesDirectories(disk, specs))
      ensures !crossedLink
    {
      r := PrepareDirectoryTree(specs);
      if r.Err? {
        return;
      }
      if checks.path.Err? {
        return checks.path;
      }
      r := ExtractArchive(again, specs);
      if r.Ok? {
        r := checks.still;
      }
    }

    // Removes the temporary directory, or as much of it as the system lets it.
    method CleanUpTemporary(error: ArchiveError, checks: Checks) returns (e: ArchiveError)
      modifies this`nodes, this`temporary
      ensures if checks.removes then e == error && nodes == map[] && !temporary
              else e == StagingWrite && nodes.Items <= old(nodes).Items && temporary == old(temporary)
    {
      if !checks.removes {
        var left: set<Path> :| left <= nodes.Keys;
        nodes := map p | p in left :: nodes[p];
        return StagingWrite;
      }
      nodes := map[];
      temporary := false;
      e := error;
    }

    // The whole extraction. The package is read twice, and may have changed in
    // between. It is published, in full and in one step, exactly when it is
    // acceptable and still the same, every check of the handle holds, the places
    // are free and the system writes all of it. No call goes through a link, and
    // an error publishes nothing and leaves nothing, unless what was half
    // written could not be removed.
    method ExtractVerifiedArchive(package: Package, again: Package, checks: Checks)
        returns (r: Result<(), ArchiveError>)
      requires AllInspected(Specs(package.entries)) && !crossedLink && (!temporary ==> nodes == map[])
      modifies this
      ensures r.Ok? <==>
        && Acceptable(package) && SamePackage(again, Specs(package.entries))
        && old(ready).None? && !old(temporary) && AllHold(checks)
        && MakesDirectories(disk, Specs(package.entries)) && WritesAll(disk, Specs(package.entries))
        && SetsModes(disk, Specs(package.entries))
      ensures r.Ok? ==>
        ready == Some(Materialised(again.entries, createdMode)) && !temporary && nodes == map[]
      ensures r.Err? ==> ready == old(ready)
      ensures r.Err? ==>
        || (temporary == old(temporary) && nodes == old(nodes))
        || (r.error == StagingWrite && !checks.removes && temporary)
      ensures r.Err? ==>
        var specs := Specs(package.entries);
        || r == checks.handle || r == checks.path || r == checks.still
        || Unacceptable(package, r.error) || Unextracted(again, specs, disk, r.error)
        || (r.error == StagingPath && old(temporary))
        || (r.error == StagingRename && (old(ready).Some? || !checks.renames))
        || (r.error == StagingWrite && !(checks.creates && checks.removes && MakesDirectories(disk, specs)))
      ensures !crossedLink
    {
      if checks.handle.Err? {
        return checks.handle;
      }
      var preflight := PreflightArchive(package);
      if preflight.Err? {
        return Err(preflight.error);
      }
      if ready.Some? {
        return Err(StagingRename);
      }
      if temporary || !checks.creates {
        return Err(if temporary then StagingPath else StagingWrite);
      }
      temporary := true;
      r := FillTemporary(again, preflight.value, checks);
      if r.Ok? && !checks.renames {
        r := Err(StagingRename);
      }
      if r.Err? {
        var e := CleanUpTemporary(r.error, checks);
        return Err(e);
      }
      ready, nodes, temporary := Some(nodes), map[], false;
    }
  }

  // What the checks around the passes find: the package handle and the
  // directories before, its path before the second pass and its contents after
  // it, and whether the system makes, renames and removes directories.
  datatype Checks = Checks(
    handle: Result<(), ArchiveError>, creates: bool, path: Result<(), ArchiveError>, still: Result<(), ArchiveError>,
    renames: bool, removes: bool)

  predicate AllHold(checks: Checks) {
    checks.handle.Ok? && checks.creates && checks.path.Ok? && checks.still.Ok? && checks.renames
  }

  function WithSafeMode(node: Node, mode: nat, kind: MaterialKind): Node {
    var safe := if kind == Directory || OwnerExecutable(mode) then EXECUTABLE_MODE else PLAIN_MODE;
    match node
    case Dir(_) => Dir(safe)
    case File(_, data) => File(safe, data)
    case _ => node
  }

  ghost predicate DirectoriesIn(tree: Tree, table: Table) {
    forall p :: p in table && table[p].kind.Directory? ==> p in tree && tree[p].Dir?
  }

  lemma DirectoriesStand(tree: Tree, entries: seq<Entry>, createdMode: nat)
    requires AllInspected(Specs(entries)) && Accepted(Specs(entries))
    requires Staged(tree, Specs(entries), entries, createdMode, |entries|)
    ensures DirectoriesIn(tree, ByPath(Specs(entries)))
  {
    var specs := Specs(entries);
    forall p | p in ByPath(specs) && ByPath(specs)[p].kind.Directory? ensures p in tree && tree[p].Dir? {
      var j := EntryAt(specs, p);
      assert Inspected(specs[j]) && specs[j].path[..|specs[j].path|] == specs[j].path;
      assert Needs(specs[j], p);
      assert !Stands(specs, p, |entries|);
    }
  }

  lemma NothingStaged(tree: Tree, specs: seq<EntrySpec>, entries: seq<Entry>, createdMode: nat)
    requires forall p :: p in tree <==> NeededBy(specs, p)
    requires forall p :: p in tree ==> tree[p] == Dir(createdMode)
    ensures Staged(tree, specs, entries, createdMode, 0)
  {
  }

  // The entry's own sizes decide whether the totals stay in bounds.
  lemma SizesOf(entries: seq<Entry>, i: nat, expanded: nat)
    requires i < |entries| && Sized(entries[..i]) && expanded == Expanded(entries[..i])
    ensures var spec, data := entries[i].spec, entries[i].data;
            Fits(spec, data, expanded) && (spec.kind == Regular ==> |data| == spec.size)
            <==> Sized(entries[..i + 1])
    ensures Sized(entries) ==> Sized(entries[..i + 1])
  {
    LastSizes(entries, i);
  }

  lemma LinkTargetKnown(specs: seq<EntrySpec>, i: nat)
    requires AllInspected(specs) && Accepted(specs) && i < |specs|
    ensures specs[i].kind.Symlink? ==> specs[i].linkTarget.Some?
    ensures |specs[i].path| >= 1
  {
    assert Inspected(specs[i]);
  }

  lemma PrefixOfPrefix(path: Path, k: nat)
    requires k <= |path|
    ensures forall j :: 0 <= j <= k ==> path[..k][..j] == path[..j]
  {
  }

  lemma NeededByOneMore(specs: seq<EntrySpec>, i: nat, p: Path)
    requires i < |specs|
    ensures NeededBy(specs[..i + 1], p) <==> NeededBy(specs[..i], p) || Needs(specs[i], p)
  {
    var init := specs[..i + 1];
    assert forall j :: 0 <= j < i ==> init[j] == specs[..i][j];
    assert init[i] == specs[i];
  }
}
