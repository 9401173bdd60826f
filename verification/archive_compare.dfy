// Comparing an extracted tree with the archive it came from.
module ArchiveCompare {
  import opened Results
  import opened ArchiveErrors
  import opened ArchivePaths
  import opened ArchiveStructure
  import opened ArchiveTree
  import opened ArchiveExtract
  import opened TarTrailer

  // Directories are listed by walking down, so every node has its ancestors.
  ghost predicate WellFormedTree(tree: Tree) {
    forall p :: p in tree ==> |p| >= 1 && ParentsPresent(tree, p)
  }

  // The tree of exactly the entries.
  function ExpectedTree(entries: seq<Entry>): Tree {
    var table, contents := ByPath(Specs(entries)), Contents(entries);
    map p | p in table && p in contents :: NodeOf(table[p], contents[p])
  }

  // ---- listing ----

  function Children(tree: Tree, directory: Path): set<Path> {
    set p | p in tree && |p| == |directory| + 1 && p[..|directory|] == directory
  }

  function Below(tree: Tree, directory: Path): set<Path> {
    set p | p in tree && |p| > |directory| && p[..|directory|] == directory
  }

  // What lies below a directory lies below or at one of its children.
  lemma BelowThroughChild(tree: Tree, directory: Path, p: Path)
    requires WellFormedTree(tree) && p in Below(tree, directory)
    ensures p[..|directory| + 1] in Children(tree, directory)
    ensures p == p[..|directory| + 1] || (p in Below(tree, p[..|directory| + 1]) && tree[p[..|directory| + 1]].Dir?)
  {
    var c := p[..|directory| + 1];
    assert c[..|directory|] == directory;
    assert ParentsPresent(tree, p) && p[..|p|] == p;
    if |p| > |c| {
      assert IsDirectory(tree, p[..|c|]);
    }
  }

  lemma BelowChild(tree: Tree, directory: Path, child: Path)
    requires child in Children(tree, directory)
    ensures Below(tree, child) < Below(tree, directory)
    ensures forall p :: p in Below(tree, child) ==> p[..|directory| + 1] == child
  {
    forall p | p in Below(tree, child) ensures p in Below(tree, directory) && p[..|directory| + 1] == child {
      assert p[..|directory|] == p[..|child|][..|directory|];
    }
    assert child in Below(tree, directory) && child !in Below(tree, child);
  }

  // The paths found so far while the children in `todo` are still to be listed.
  ghost predicate Listed(tree: Tree, directory: Path, todo: set<Path>, before: set<Path>, found: set<Path>) {
    forall p :: p in found <==> p in before || (p in Below(tree, directory) && p[..|directory| + 1] !in todo)
  }

  predicate NoSpecial(tree: Tree, paths: set<Path>) {
    forall p :: p in paths && p in tree ==> !tree[p].Special?
  }

  // Lists a directory recursively, stopping at the first path not expected.
  method CollectExtractedTreePaths(tree: Tree, directory: Path, expected: set<Path>, before: set<Path>)
      returns (r: Result<set<Path>, ArchiveError>)
    requires WellFormedTree(tree) && before !! Below(tree, directory)
    ensures r.Ok? <==> Below(tree, directory) <= expected && NoSpecial(tree, Below(tree, directory))
    ensures r.Err? ==> r.error == ArchiveError.ArchiveTree
    ensures r.Ok? ==> r.value == before + Below(tree, directory)
    decreases Below(tree, directory)
  {
    var todo := Children(tree, directory);
    var actual := before;
    AllStillToDo(tree, directory, before);
    while todo != {}
      invariant todo <= Children(tree, directory)
      invariant Listed(tree, directory, todo, before, actual)
      invariant actual <= before + expected && NoSpecial(tree, actual - before)
    {
      var p :| p in todo;
      NotYetListed(tree, directory, todo, before, actual, p);
      if p !in expected || p in actual {
        return Err(ArchiveError.ArchiveTree);
      }
      ghost var known := actual;
      actual := actual + {p};
      if tree[p].Dir? {
        var inner := CollectExtractedTreePaths(tree, p, expected, actual);
        if inner.Err? {
          return inner;
        }
        actual := inner.value;
      } else if tree[p].Special? {
        return Err(ArchiveError.ArchiveTree);
      }
      OneMoreListed(tree, directory, todo, before, known, p);
      todo := todo - {p};
    }
    EverythingListed(tree, directory, before, actual);
    r := Ok(actual);
  }

  lemma AllStillToDo(tree: Tree, directory: Path, before: set<Path>)
    requires WellFormedTree(tree)
    ensures Listed(tree, directory, Children(tree, directory), before, before)
  {
    forall p | p in Below(tree, directory) ensures p[..|directory| + 1] in Children(tree, directory) {
      BelowThroughChild(tree, directory, p);
    }
  }

  lemma NotYetListed(tree: Tree, directory: Path, todo: set<Path>, before: set<Path>, found: set<Path>, p: Path)
    requires todo <= Children(tree, directory) && p in todo && before !! Below(tree, directory)
    requires Listed(tree, directory, todo, before, found)
    ensures p in Below(tree, directory) && p !in found
    ensures Below(tree, p) < Below(tree, directory)
    ensures found + {p} !! Below(tree, p)
  {
    BelowChild(tree, directory, p);
    assert p[..|directory| + 1] == p;
  }

  lemma OneMoreListed(tree: Tree, directory: Path, todo: set<Path>, before: set<Path>, found: set<Path>, p: Path)
    requires WellFormedTree(tree) && todo <= Children(tree, directory) && p in todo
    requires Listed(tree, directory, todo, before, found)
    ensures tree[p].Dir? ==> Listed(tree, directory, todo - {p}, before, found + {p} + Below(tree, p))
    ensures !tree[p].Dir? ==> Listed(tree, directory, todo - {p}, before, found + {p})
  {
    BelowChild(tree, directory, p);
    assert p[..|directory| + 1] == p;
    forall q | q in Below(tree, directory) && q[..|directory| + 1] == p
      ensures q == p || (q in Below(tree, p) && tree[p].Dir?)
    {
      BelowThroughChild(tree, directory, q);
    }
  }

  lemma EverythingListed(tree: Tree, directory: Path, before: set<Path>, found: set<Path>)
    requires Listed(tree, directory, {}, before, found)
    ensures found == before + Below(tree, directory)
  {
  }

  // ---- shape ----

  predicate ShapeMatches(spec: EntrySpec, node: Node) {
    match spec.kind
    case Directory => node == Dir(EXECUTABLE_MODE)
    case Regular =>
      && node.File? && |node.data| == spec.size
      && node.mode == (if OwnerExecutable(spec.mode) then EXECUTABLE_MODE else PLAIN_MODE)
    case Symlink => node.Link? && spec.linkTarget == Some(node.target)
  }

  // The tree has exactly the entries' paths, each with the shape of its entry.
  ghost predicate SameShape(tree: Tree, specs: seq<EntrySpec>) {
    && tree.Keys == (set i | 0 <= i < |specs| :: specs[i].path)
    && forall i :: 0 <= i < |specs| ==> specs[i].path in tree && ShapeMatches(specs[i], tree[specs[i].path])
  }

  method CompareExtractedTreeShape(tree: Tree, specs: seq<EntrySpec>) returns (r: Result<(), ArchiveError>)
    requires WellFormedTree(tree)
    ensures r == if SameShape(tree, specs) then Ok(()) else Err(ArchiveError.ArchiveTree)
  {
    var expected := set i | 0 <= i < |specs| :: specs[i].path;
    var listed := CollectExtractedTreePaths(tree, [], expected, {});
    assert Below(tree, []) == tree.Keys;
    if listed.Err? || listed.value != expected {
      return Err(ArchiveError.ArchiveTree);
    }
    for i := 0 to |specs|
      invariant forall j :: 0 <= j < i ==> specs[j].path in tree && ShapeMatches(specs[j], tree[specs[j].path])
    {
      assert specs[i].path in expected;
      if !ShapeMatches(specs[i], tree[specs[i].path]) {
        return Err(ArchiveError.ArchiveTree);
      }
    }
    r := Ok(());
  }

  // ---- contents ----

  // Compares one archive entry with one file, in reads of any sizes on both sides.
  method CompareRegularEntry(data: seq<Byte>, expectedSize: nat, node: Node) returns (r: Result<(), ArchiveError>)
    ensures r.Ok? <==> node.File? && node.data == data && |data| == expectedSize
    ensures r == if !node.File? then Err(StagingRead)
                 else if !(data <= node.data) then Err(ArchiveError.ArchiveTree)
                 else if |data| != expectedSize then Err(ArchiveTar)
                 else if |node.data| > |data| then Err(ArchiveError.ArchiveTree)
                 else Ok(())
  {
    if !node.File? {
      return Err(StagingRead);
    }
    var read := 0;
    while read < |data|
      invariant read <= |data| && data[..read] <= node.data
    {
      var bytesRead: nat :| 0 < bytesRead <= IO_BUFFER_BYTES && read + bytesRead <= |data|;
      var same := CompareChunk(data, node.data, read, read + bytesRead);
      if !same {
        return Err(ArchiveError.ArchiveTree);
      }
      read := read + bytesRead;
    }
    assert data[..|data|] == data;
    if |data| != expectedSize {
      return Err(ArchiveTar);
    }
    if |node.data| != |data| {
      return Err(ArchiveError.ArchiveTree);
    }
    r := Ok(());
  }

  // Reads the file until the archive buffer, bytes `from` up to `to`, is compared.
  method CompareChunk(data: seq<Byte>, file: seq<Byte>, from: nat, to: nat) returns (same: bool)
    requires from <= to <= |data| && data[..from] <= file
    ensures same <==> data[..to] <= file
  {
    var offset := from;
    while offset < to
      invariant from <= offset <= to && data[..offset] <= file
    {
      var available := if |file| - offset < to - offset then |file| - offset else to - offset;
      if available == 0 {
        return false;
      }
      var bytesRead: nat :| 0 < bytesRead <= available;
      if file[offset..offset + bytesRead] != data[offset..offset + bytesRead] {
        return false;
      }
      ChunkAgrees(data, file, offset, bytesRead);
      offset := offset + bytesRead;
    }
    same := true;
  }

  lemma ChunkAgrees(data: seq<Byte>, file: seq<Byte>, offset: nat, n: nat)
    requires offset + n <= |data| && offset + n <= |file| && data[..offset] <= file
    requires file[offset..offset + n] == data[offset..offset + n]
    ensures data[..offset + n] <= file
  {
    assert data[..offset + n] == data[..offset] + data[offset..offset + n];
    assert file[..offset + n] == file[..offset] + file[offset..offset + n];
  }

  ghost predicate FilesMatch(entries: seq<Entry>, tree: Tree) {
    forall i :: 0 <= i < |entries| && entries[i].spec.kind.Regular? ==>
      && entries[i].spec.path in tree && |entries[i].data| == entries[i].spec.size
      && tree[entries[i].spec.path].File? && tree[entries[i].spec.path].data == entries[i].data
  }

  // What each code tells about the contents.
  ghost predicate FilesDiffer(entries: seq<Entry>, specs: seq<EntrySpec>, tree: Tree, error: ArchiveError) {
    match error
    case ArchiveTar =>
      || Specs(entries) != specs
      || exists i :: 0 <= i < |entries| && entries[i].spec.kind.Regular? && |entries[i].data| != entries[i].spec.size
    case StagingRead =>
      exists i :: 0 <= i < |entries| && entries[i].spec.kind.Regular?
                  && (entries[i].spec.path !in tree || !tree[entries[i].spec.path].File?)
    case ArchiveTree =>
      exists i :: 0 <= i < |entries| && entries[i].spec.kind.Regular?
                  && entries[i].spec.path in tree && tree[entries[i].spec.path].File?
                  && tree[entries[i].spec.path].data != entries[i].data
    case _ => false
  }

  method CompareEntriesToExtractedTree(entries: seq<Entry>, specs: seq<EntrySpec>, tree: Tree)
      returns (r: Result<(), ArchiveError>)
    ensures r.Ok? <==> Specs(entries) == specs && FilesMatch(entries, tree)
    ensures r.Err? ==> FilesDiffer(entries, specs, tree, r.error)
  {
    for i := 0 to |entries|
      invariant i <= |specs| && FilesMatch(entries[..i], tree)
      invariant forall j :: 0 <= j < i ==> entries[j].spec == specs[j]
    {
      assert Specs(entries)[i] == entries[i].spec;
      if i >= |specs| || entries[i].spec != specs[i] {
        return Err(ArchiveTar);
      }
      var spec := entries[i].spec;
      if spec.kind == Regular {
        if spec.path !in tree {
          return Err(StagingRead);
        }
        r := CompareRegularEntry(entries[i].data, spec.size, tree[spec.path]);
        if r.Err? {
          return;
        }
      }
    }
    if |entries| != |specs| {
      return Err(ArchiveTar);
    }
    assert Specs(entries) == specs && entries[..|entries|] == entries;
    r := Ok(());
  }

  method CompareArchiveToExtractedTree(package: Package, specs: seq<EntrySpec>, tree: Tree)
      returns (r: Result<(), ArchiveError>)
    ensures r.Ok? <==> Specs(package.entries) == specs && FilesMatch(package.entries, tree) && EndsWell(package.stream)
    ensures r.Err? ==> FilesDiffer(package.entries, specs, tree, r.error) || EndsBadly(package.stream, r.error)
  {
    var reader: LimitedArchiveReader;
    r, reader := OpenArchive(package.stream, IO_BUFFER_BYTES);
    if r.Err? {
      return;
    }
    r := CompareEntriesToExtractedTree(package.entries, specs, tree);
    if r.Err? {
      return;
    }
    r := CloseArchive(reader, package.stream, IO_BUFFER_BYTES);
  }

  // ---- the whole comparison ----

  // What the checks around the comparison find: the package handle before and
  // after it, and the record of the extraction.
  datatype HandleChecks = HandleChecks(
    before: Result<(), ArchiveError>, recordMatches: bool, after: Result<(), ArchiveError>)

  // The package is read twice and the tree is looked at three times: its shape,
  // its contents as they are `during` the comparison, and its shape again
  // `after` it. When nothing changes in between, a tree is accepted exactly when
  // the checks hold and it is there and is the tree of the package's entries:
  // the same paths, kinds, safe modes, link targets and file contents.
  method RevalidateExtractedArchiveTree(
      package: Package, again: Package, tree: Option<Tree>, during: Tree, after: Tree, checks: HandleChecks)
      returns (r: Result<(), ArchiveError>)
    requires AllInspected(Specs(package.entries))
    requires (tree.Some? ==> WellFormedTree(tree.value)) && WellFormedTree(after)
    ensures r.Ok? <==>
      && checks.before.Ok? && checks.recordMatches && checks.after.Ok? && Acceptable(package)
      && tree.Some? && SameShape(tree.value, Specs(package.entries))
      && Specs(again.entries) == Specs(package.entries) && FilesMatch(again.entries, during) && EndsWell(again.stream)
      && SameShape(after, Specs(package.entries))
    ensures again == package && tree == Some(during) && after == during ==>
      (r.Ok? <==>
       && checks.before.Ok? && checks.recordMatches && checks.after.Ok?
       && Acceptable(package) && tree == Some(ExpectedTree(package.entries)))
    ensures r.Err? ==>
      var specs := Specs(package.entries);
      || r == checks.before || r == checks.after
      || Unacceptable(package, r.error)
      || FilesDiffer(again.entries, specs, during, r.error) || EndsBadly(again.stream, r.error)
      || (r.error == ArchiveError.ArchiveTree
          && !(checks.recordMatches && tree.Some? && SameShape(tree.value, specs) && SameShape(after, specs)))
  {
    if checks.before.Err? {
      return checks.before;
    }
    if !checks.recordMatches || tree.None? {
      return Err(ArchiveError.ArchiveTree);
    }
    var preflight := PreflightArchive(package);
    if preflight.Err? {
      return Err(preflight.error);
    }
    AcceptedTreeIsExpected(package.entries, tree.value);
    r := CompareExtractedTreeShape(tree.value, preflight.value);
    if r.Err? {
      return;
    }
    r := CompareArchiveToExtractedTree(again, preflight.value, during);
    if r.Err? {
      return;
    }
    r := CompareExtractedTreeShape(after, preflight.value);
    if r.Ok? {
      r := checks.after;
    }
  }

  lemma ExpectedNode(entries: seq<Entry>, i: nat)
    requires UniquePaths(Specs(entries)) && i < |entries|
    ensures entries[i].spec.path in ExpectedTree(entries)
    ensures ExpectedTree(entries)[entries[i].spec.path] == NodeOf(entries[i].spec, entries[i].data)
  {
    TableEntry(Specs(entries), i);
    ContentsEntry(entries, i);
  }

  lemma ExpectedKeys(entries: seq<Entry>)
    requires UniquePaths(Specs(entries))
    ensures ExpectedTree(entries).Keys == (set i | 0 <= i < |Specs(entries)| :: Specs(entries)[i].path)
  {
    var specs := Specs(entries);
    forall i | 0 <= i < |specs| ensures specs[i].path in ExpectedTree(entries) {
      ExpectedNode(entries, i);
    }
    forall p | p in ExpectedTree(entries) ensures exists i :: 0 <= i < |specs| && specs[i].path == p {
      TableKeys(specs, p);
    }
  }

  // Shape and contents together are the node.
  lemma NodeMatches(spec: EntrySpec, data: seq<Byte>, node: Node)
    requires spec.kind.Symlink? ==> spec.linkTarget.Some?
    requires spec.kind.Regular? ==> |data| == spec.size
    ensures node == NodeOf(spec, data) <==>
            ShapeMatches(spec, node) && (spec.kind.Regular? ==> node.File? && node.data == data)
  {
  }

  lemma AcceptedTreeIsExpected(entries: seq<Entry>, tree: Tree)
    requires AllInspected(Specs(entries)) && Accepted(Specs(entries)) && SizesMatch(entries)
    ensures tree == ExpectedTree(entries) <==> SameShape(tree, Specs(entries)) && FilesMatch(entries, tree)
  {
    var specs := Specs(entries);
    ExpectedKeys(entries);
    forall i | 0 <= i < |entries| && specs[i].path in tree
      ensures specs[i].path in ExpectedTree(entries)
      ensures tree[specs[i].path] == ExpectedTree(entries)[specs[i].path] <==>
              && ShapeMatches(specs[i], tree[specs[i].path])
              && (specs[i].kind.Regular? ==>
                    tree[specs[i].path].File? && tree[specs[i].path].data == entries[i].data)
    {
      ExpectedNode(entries, i);
      LinkTargetKnown(specs, i);
      NodeMatches(specs[i], entries[i].data, tree[specs[i].path]);
    }
  }

  // ---- extract, then compare ----

  ghost predicate AllParentsExplicit(specs: seq<EntrySpec>) {
    forall p :: p in Prefixes(specs) ==> p in ByPath(specs)
  }

  // The extracted tree is a tree, and the comparison finds it equal to the
  // expected one exactly when the archive lists every parent directory.
  lemma ExtractThenCompare(entries: seq<Entry>, createdMode: nat)
    requires AllInspected(Specs(entries)) && Accepted(Specs(entries))
    ensures WellFormedTree(Materialised(entries, createdMode))
    ensures Materialised(entries, createdMode) == ExpectedTree(entries) <==> AllParentsExplicit(Specs(entries))
  {
    MaterialisedIsWellFormed(entries, createdMode);
    var specs, full, expected := Specs(entries), Materialised(entries, createdMode), ExpectedTree(entries);
    assert full.Keys == Prefixes(specs);
    forall p | p in ByPath(specs) ensures p in full && p in expected && full[p] == expected[p] {
      var i := EntryAt(specs, p);
      assert Inspected(specs[i]);
      MaterialisedEntry(entries, createdMode, i);
      ExpectedNode(entries, i);
    }
  }

  lemma MaterialisedIsWellFormed(entries: seq<Entry>, createdMode: nat)
    requires AllInspected(Specs(entries)) && Accepted(Specs(entries))
    ensures WellFormedTree(Materialised(entries, createdMode))
  {
    var specs, full := Specs(entries), Materialised(entries, createdMode);
    forall p | p in full ensures |p| >= 1 && ParentsPresent(full, p) {
      var i, k :| 0 <= i < |specs| && 1 <= k <= |specs[i].path| && p == specs[i].path[..k];
      forall j | 0 <= j < |p| ensures IsDirectory(full, p[..j]) {
        assert p[..j] == specs[i].path[..j];
        MaterialisedAncestor(entries, createdMode, i, p[..j]);
      }
    }
  }

  // An archive with a file below a directory it does not list is accepted and
  // extracted, and its own tree is then refused.
  lemma ImplicitParentExample(name: Name, mode: nat, createdMode: nat)
    requires ProperPath([ROOT_NAME, name, name]) && !EndsWithApp(name)
    ensures var root := Entry(EntrySpec([ROOT_NAME], Directory, 493, 0, None), []);
            var file := Entry(EntrySpec([ROOT_NAME, name, name], Regular, mode, 0, None), []);
            && Accepted(Specs([root, file]))
            && Materialised([root, file], createdMode) != ExpectedTree([root, file])
  {
    var root := Entry(EntrySpec([ROOT_NAME], Directory, 493, 0, None), []);
    var file := Entry(EntrySpec([ROOT_NAME, name, name], Regular, mode, 0, None), []);
    var entries := [root, file];
    var specs := Specs(entries);
    ImplicitParentAccepted(specs, root.spec, file.spec);
    assert AllInspected(specs) by {
      ImplicitParentInspected(root.spec.path, file.spec.path);
    }
    ExtractThenCompare(entries, createdMode);
    var parent := file.spec.path[..2];
    assert parent == specs[1].path[..2] && parent in Prefixes(specs);
    TableKeys(specs, parent);
  }

  lemma ImplicitParentInspected(root: Path, path: Path)
    requires ProperPath(path) && |path| >= 1 && root == path[..1]
    ensures ProperPath(root)
  {
  }

  lemma ImplicitParentAccepted(specs: seq<EntrySpec>, root: EntrySpec, file: EntrySpec)
    requires specs == [root, file] && root.path == [ROOT_NAME] && root.kind.Directory?
    requires |file.path| == 3 && file.path[0] == ROOT_NAME && file.kind.Regular?
    requires !EndsWithApp(file.path[1]) && !EndsWithApp(file.path[2])
    ensures Accepted(specs)
  {
    assert specs[0] == root && specs[1] == file;
    assert UniquePaths(specs);
    TableEntry(specs, 0);
    TableEntry(specs, 1);
    forall i, k | 0 <= i < |specs| && 1 <= k < |specs[i].path| && specs[i].path[..k] in ByPath(specs)
      ensures ByPath(specs)[specs[i].path[..k]].kind.Directory?
    {
      TableKeys(specs, specs[i].path[..k]);
    }
  }
}
