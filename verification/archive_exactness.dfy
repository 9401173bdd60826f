// Exactly which link targets the lexical checks understand correctly: the ones
// that pass only ancestors of the link and of the destination. Any other
// accepted target is walked differently in some accepted archive.
module ArchiveExactness {
  import opened Results
  import opened ArchivePaths
  import opened ArchiveStructure
  import opened ArchiveTree

  function Plain(path: Path, kind: MaterialKind): Entry {
    Entry(EntrySpec(path, kind, 420, 0, None), [])
  }

  // The smallest archive that holds a given link: the root, the destination
  // (a file unless it has to be a directory) and the link.
  ghost function Witness(link: Path, target: Path, end: Path): seq<Entry> {
    [Plain([ROOT_NAME], Directory)]
    + (if end == [ROOT_NAME] then [] else [Plain(end, if Ancestor(end, link) then Directory else Regular)])
    + [Entry(EntrySpec(link, Symlink, 511, 0, Some(target)), [])]
  }

  ghost predicate NoApp(path: Path) {
    forall i :: 1 <= i < |path| ==> !EndsWithApp(path[i])
  }

  // What an archive that holds the link tells about the link and its destination.
  ghost predicate Plausible(link: Path, target: Path, end: Path) {
    && ProperPath(link) && ProperTarget(target) && ProperPath(end)
    && |link| >= 2 && link[0] == ROOT_NAME && end[0] == ROOT_NAME
    && Destination(link, target) == Some(end)
    && end != link && !Ancestor(link, end)
    && NoApp(link) && NoApp(end)
  }

  lemma HeldLinkIsPlausible(entries: seq<Entry>, link: Path, target: Path)
    requires HoldsLink(entries, link, target)
    ensures Destination(link, target).Some? && Plausible(link, target, Destination(link, target).value)
  {
    var specs := Specs(entries);
    var i, d := LinkFacts(entries, link, target);
    var end := Destination(link, target).value;
    var l :| 0 <= l < |entries| && entries[l].spec.path == link && entries[l].spec.kind.Symlink?;
    assert Inspected(specs[d]) && InRoot(specs[d]) && InRoot(specs[l]);
    TableEntry(specs, l);
    assert ParentsAreDirectories(specs[d].path, ByPath(specs));
    if Ancestor(link, end) {
      assert false;
    }
  }

  lemma WitnessTable(link: Path, target: Path, end: Path)
    requires Plausible(link, target, end)
    ensures var table := ByPath(Specs(Witness(link, target, end)));
            && table.Keys == {[ROOT_NAME], end, link}
            && table[[ROOT_NAME]].kind.Directory?
            && table[end].kind == (if Ancestor(end, link) then Directory else Regular)
            && table[link] == EntrySpec(link, Symlink, 511, 0, Some(target))
  {
    var specs := Specs(Witness(link, target, end));
    if end == [ROOT_NAME] {
      assert Ancestor(end, link);
      assert specs == [Plain(end, Directory).spec, EntrySpec(link, Symlink, 511, 0, Some(target))];
      assert specs[..1] == [specs[0]] && specs[..1][..0] == [];
      assert ByPath(specs[..1]) == map[[ROOT_NAME] := specs[0]];
      assert ByPath(specs) == map[[ROOT_NAME] := specs[0], link := specs[1]];
    } else {
      var kind := if Ancestor(end, link) then Directory else Regular;
      assert specs == [Plain([ROOT_NAME], Directory).spec, Plain(end, kind).spec,
                       EntrySpec(link, Symlink, 511, 0, Some(target))];
      assert specs[..2] == [specs[0], specs[1]] && specs[..2][..1] == [specs[0]] && specs[..2][..1][..0] == [];
      assert ByPath([specs[0]]) == map[[ROOT_NAME] := specs[0]];
      assert ByPath(specs[..2]) == map[[ROOT_NAME] := specs[0], end := specs[1]];
      assert ByPath(specs) == map[[ROOT_NAME] := specs[0], end := specs[1], link := specs[2]];
    }
  }

  lemma WitnessIsAccepted(link: Path, target: Path, end: Path)
    requires Plausible(link, target, end)
    ensures HoldsLink(Witness(link, target, end), link, target)
  {
    var entries := Witness(link, target, end);
    var specs := Specs(entries);
    var table := ByPath(specs);
    WitnessTable(link, target, end);
    assert UniquePaths(specs);
    assert Chase(table, end, MAX_SYMLINK_HOPS - 1) == Some((end, 0));
    assert Chase(table, link, MAX_SYMLINK_HOPS) == Some((end, 1));
    forall i | 0 <= i < |specs| ensures ParentsAreDirectories(specs[i].path, table) {
      var path := specs[i].path;
      forall k | 1 <= k < |path| && path[..k] in table ensures table[path[..k]].kind.Directory? {
        assert Ancestor(path[..k], path);
      }
    }
    assert entries[|entries| - 1].spec == EntrySpec(link, Symlink, 511, 0, Some(target));
  }

  lemma WitnessKey(link: Path, target: Path, end: Path, x: Path) returns (i: nat)
    requires Plausible(link, target, end) && x in Prefixes(Specs(Witness(link, target, end)))
    requires !Ancestor(x, link) && !Ancestor(x, end)
    ensures i < |Witness(link, target, end)| && Specs(Witness(link, target, end))[i].path == x
    ensures x in {end, link}
  {
    var specs := Specs(Witness(link, target, end));
    var j, k :| 0 <= j < |specs| && 1 <= k <= |specs[j].path| && x == specs[j].path[..k];
    i := j;
    assert specs[j].path in {[ROOT_NAME], end, link};
    assert k < |specs[j].path| ==> Ancestor(x, specs[j].path);
    assert specs[j].path[..|specs[j].path|] == specs[j].path;
    assert Ancestor([ROOT_NAME], link);
  }

  // What stands at a path of the witness tree that is no ancestor of the link or its destination.
  lemma WitnessElsewhere(link: Path, target: Path, end: Path, createdMode: nat, x: Path)
    requires Plausible(link, target, end)
    requires !Ancestor(x, link) && !Ancestor(x, end)
    ensures var tree := Materialised(Witness(link, target, end), createdMode);
            x in tree ==> (x == link && tree[x] == Link(target)) || (x == end && tree[x].File?)
  {
    var entries := Witness(link, target, end);
    if x in Materialised(entries, createdMode) {
      var i := WitnessKey(link, target, end, x);
      WitnessTable(link, target, end);
      WitnessIsAccepted(link, target, end);
      TableEntry(Specs(entries), i);
      MaterialisedEntry(entries, createdMode, i);
    }
  }

  lemma FirstUnsafe(link: Path, target: Path, end: Path) returns (i: nat)
    requires Plausible(link, target, end) && !SafeTarget(link, target)
    ensures 1 <= i < |target| && !SafeAt(link, target, end, i)
    ensures forall j :: 0 <= j < i ==> SafeAt(link, target, end, j)
  {
    assert target[..0] == [];
    assert SafeAt(link, target, end, 0);
    var k: nat :| 1 <= k < |target| && !SafeAt(link, target, end, k);
    i := 1;
    while SafeAt(link, target, end, i)
      invariant 1 <= i <= k
      invariant forall j :: 0 <= j < i ==> SafeAt(link, target, end, j)
      decreases k - i
    {
      i := i + 1;
    }
  }

  lemma WalkOneName(tree: Tree, x: Path, name: Name, tail: Path, budget: nat)
    requires IsDirectory(tree, x) && name != ".." && tail != []
    ensures var next := x + [name];
            && (next !in tree || tree[next].File? ==> Walk(tree, x, [name] + tail, budget) == None)
            && (next in tree && tree[next].Link? ==>
                  Walk(tree, x, [name] + tail, budget)
                  == if budget == 0 then None else Walk(tree, x, tree[next].target + tail, budget - 1))
  {
    var todo := [name] + tail;
    assert todo[0] == name && todo[1..] == tail;
  }

  // A walk that always comes back to a missing name, to a file it should
  // descend into, or to the link itself, never ends anywhere.
  lemma {:induction false} LoopingWalkFails(
      tree: Tree, base: Path, target: Path, x: Path, i: nat, rest: Path, budget: nat)
    requires 1 <= i < |target| && target[i - 1] != ".." && IsDirectory(tree, x)
    requires var next := x + [target[i - 1]];
             next in tree ==> tree[next].File? || (tree[next] == Link(target) && x == base)
    requires forall r: Path, b: nat :: Walk(tree, base, target + r, b) == Walk(tree, x, target[i - 1..] + r, b)
    ensures Walk(tree, base, target + rest, budget) == None
    decreases budget
  {
    var tail := target[i..] + rest;
    assert target[i - 1..] + rest == [target[i - 1]] + tail;
    WalkOneName(tree, x, target[i - 1], tail, budget);
    if budget > 0 {
      LoopingWalkFails(tree, base, target, x, i, tail, budget - 1);
    }
  }

  // Walking an unsafe target in the witness goes nowhere.
  lemma UnsafeWalkFails(link: Path, target: Path, end: Path, createdMode: nat, i: nat, budget: nat)
    requires Plausible(link, target, end)
    requires 1 <= i < |target| && !SafeAt(link, target, end, i)
    requires forall j :: 0 <= j < i ==> SafeAt(link, target, end, j)
    ensures Walk(Materialised(Witness(link, target, end), createdMode), link[..|link| - 1], target, budget) == None
  {
    var tree := Materialised(Witness(link, target, end), createdMode);
    var base := link[..|link| - 1];
    assert SafeAt(link, target, end, i - 1);
    BeforeUnsafe(link, target, end, i);
    WalkUpToUnsafe(link, target, end, createdMode, i - 1, [], budget);
    var x := After(link, target, i - 1).value;
    forall r: Path, b: nat
      ensures Walk(tree, base, target + r, b) == Walk(tree, x, target[i - 1..] + r, b)
    {
      WalkUpToUnsafe(link, target, end, createdMode, i - 1, r, b);
    }
    WitnessElsewhere(link, target, end, createdMode, x + [target[i - 1]]);
    LoopingWalkFails(tree, base, target, x, i, [], budget);
    assert target + [] == target;
  }

  lemma ParentOfAncestor(x: Path, path: Path)
    ensures |x| >= 1 && Ancestor(x, path) ==> Ancestor(x[..|x| - 1], path)
  {
  }

  lemma BeforeUnsafe(link: Path, target: Path, end: Path, i: nat)
    requires Plausible(link, target, end)
    requires 1 <= i < |target| && !SafeAt(link, target, end, i) && SafeAt(link, target, end, i - 1)
    ensures target[i - 1] != ".."
    ensures var next := After(link, target, i - 1).value + [target[i - 1]];
            !Ancestor(next, link) && !Ancestor(next, end)
  {
    AfterAll(link, target);
    AfterNext(link, target, i - 1);
    var x := After(link, target, i - 1).value;
    ParentOfAncestor(x, link);
    ParentOfAncestor(x, end);
  }

  lemma WalkUpToUnsafe(
      link: Path, target: Path, end: Path, createdMode: nat, i: nat, rest: Path, budget: nat)
    requires Plausible(link, target, end) && i <= |target|
    requires forall j :: 0 <= j <= i ==> SafeAt(link, target, end, j)
    ensures var tree := Materialised(Witness(link, target, end), createdMode);
            && After(link, target, i).Some?
            && IsDirectory(tree, After(link, target, i).value)
            && Walk(tree, link[..|link| - 1], target + rest, budget)
               == Walk(tree, After(link, target, i).value, target[i..] + rest, budget)
  {
    var tree := Materialised(Witness(link, target, end), createdMode);
    forall j | 0 <= j <= i ensures After(link, target, j).Some? && IsDirectory(tree, After(link, target, j).value) {
      assert SafeAt(link, target, end, j);
      WitnessDirectory(link, target, end, createdMode, After(link, target, j).value);
    }
    WalkTarget(tree, link, target, rest, i, budget);
  }

  lemma WitnessDirectory(link: Path, target: Path, end: Path, createdMode: nat, x: Path)
    requires Plausible(link, target, end)
    requires Ancestor(x, link) || Ancestor(x, end)
    ensures IsDirectory(Materialised(Witness(link, target, end), createdMode), x)
  {
    var entries := Witness(link, target, end);
    WitnessIsAccepted(link, target, end);
    var i, d := LinkFacts(entries, link, target);
    if Ancestor(x, link) {
      MaterialisedAncestor(entries, createdMode, i, x);
    } else {
      MaterialisedAncestor(entries, createdMode, d, x);
    }
  }

  // A held link whose target leads nowhere leads nowhere.
  lemma LinkToNowhere(entries: seq<Entry>, link: Path, target: Path, budget: nat)
    requires HoldsLink(entries, link, target) && |link| >= 1
    requires budget > 0 ==> Walk(Materialised(entries, 0), link[..|link| - 1], target, budget - 1) == None
    ensures Walk(Materialised(entries, 0), [], link, budget) == None
  {
    var i :| 0 <= i < |entries| && entries[i].spec.path == link
             && entries[i].spec.kind.Symlink? && entries[i].spec.linkTarget == Some(target);
    WalkToEntry(entries, 0, i, budget);
  }

  // In its witness an unsafe link leads nowhere at all.
  lemma UnsafeLinkFails(link: Path, target: Path, end: Path, budget: nat)
    requires Plausible(link, target, end) && !SafeTarget(link, target)
    ensures HoldsLink(Witness(link, target, end), link, target)
    ensures Walk(Materialised(Witness(link, target, end), 0), [], link, budget) == None
  {
    var i := FirstUnsafe(link, target, end);
    WitnessIsAccepted(link, target, end);
    if budget > 0 {
      UnsafeWalkFails(link, target, end, 0, i, budget - 1);
    }
    LinkToNowhere(Witness(link, target, end), link, target, budget);
  }

  // A target is understood correctly by the lexical checks in every archive
  // they accept exactly when it is safe.
  lemma SafeTargetsAreExact(sample: seq<Entry>, link: Path, target: Path)
    requires HoldsLink(sample, link, target)
    ensures |link| >= 2 && Destination(link, target).Some?
    ensures SafeTarget(link, target) <==>
            forall entries, createdMode: nat, budget: nat ::
              HoldsLink(entries, link, target) ==> Agrees(entries, createdMode, budget, link, target)
  {
    HeldLinkIsPlausible(sample, link, target);
    var end := Destination(link, target).value;
    if SafeTarget(link, target) {
      forall entries, createdMode: nat, budget: nat | HoldsLink(entries, link, target)
        ensures Agrees(entries, createdMode, budget, link, target)
      {
        SafeTargetAgrees(entries, createdMode, budget, link, target);
      }
    } else {
      var entries := Witness(link, target, end);
      var i := FirstUnsafe(link, target, end);
      WitnessIsAccepted(link, target, end);
      UnsafeWalkFails(link, target, end, 0, i, 0);
      var l, d := LinkFacts(entries, link, target);
      WitnessTable(link, target, end);
      TableEntry(Specs(entries), d);
      WalkToEntry(entries, 0, d, 0);
      assert !Agrees(entries, 0, 0, link, target);
    }
  }

  const EXAMPLE_LINK: Path := [ROOT_NAME, "link"]
  const EXAMPLE_TARGET: Path := ["x", "..", "file"]
  const EXAMPLE_END: Path := [ROOT_NAME, "file"]

  lemma ExampleFacts()
    ensures Plausible(EXAMPLE_LINK, EXAMPLE_TARGET, EXAMPLE_END)
    ensures After(EXAMPLE_LINK, EXAMPLE_TARGET, 1) == Some([ROOT_NAME, "x"])
    ensures !Ancestor([ROOT_NAME, "x"], EXAMPLE_LINK) && !Ancestor([ROOT_NAME, "x"], EXAMPLE_END)
  {
    var base := [ROOT_NAME];
    assert EXAMPLE_LINK[..1] == base && [ROOT_NAME, "x"][..1] == base;
    assert EXAMPLE_TARGET[1..] == ["..", "file"] && EXAMPLE_TARGET[1..][1..] == ["file"] && ["file"][1..] == [];
    assert base + ["x"] == [ROOT_NAME, "x"] && base + ["file"] == EXAMPLE_END;
    assert Climb(base, EXAMPLE_TARGET) == Climb([ROOT_NAME, "x"], ["..", "file"]);
    assert Climb([ROOT_NAME, "x"], ["..", "file"]) == Climb(base, ["file"]);
    assert Climb(base, ["file"]) == Some(EXAMPLE_END);
    assert "link"[0] != "file"[0];
    assert EXAMPLE_TARGET[..1] == ["x"] && ["x"][1..] == [];
    assert Climb(base, ["x"]) == Some([ROOT_NAME, "x"]);
  }

  // One such target: `x/../file` passes every check in an archive without `x`,
  // and leads nowhere on the extracted tree.
  lemma UnsafeTargetExample()
    ensures HoldsLink(Witness(EXAMPLE_LINK, EXAMPLE_TARGET, EXAMPLE_END), EXAMPLE_LINK, EXAMPLE_TARGET)
    ensures var tree := Materialised(Witness(EXAMPLE_LINK, EXAMPLE_TARGET, EXAMPLE_END), 0);
            Walk(tree, [], EXAMPLE_LINK, MAX_SYMLINK_HOPS) == None
  {
    ExampleFacts();
    assert !SafeAt(EXAMPLE_LINK, EXAMPLE_TARGET, EXAMPLE_END, 1);
    UnsafeLinkFails(EXAMPLE_LINK, EXAMPLE_TARGET, EXAMPLE_END, MAX_SYMLINK_HOPS);
  }
}
