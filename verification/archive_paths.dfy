// Paths and link targets of archive entries: the textual checks, and the
// lexical resolution of one link.
module ArchivePaths {
  import opened Results
  import opened ArchiveErrors
  import Text

  const ROOT_NAME: string := "Cornell Method Notebook.app"
  const MAX_PATH_BYTES: nat := 1024

  // A path is the list of its components below the staging directory.
  type Name = string
  type Path = seq<Name>

  datatype SymlinkError = InvalidTarget | EscapesRoot

  // UTF-8 length of a text.
  function ByteLength(text: string): nat {
    if text == [] then 0
    else
      var c := text[0] as int;
      (if c < 0x80 then 1 else if c < 0x800 then 2 else if c < 0x1_0000 then 3 else 4) + ByteLength(text[1..])
  }

  // Backslashes, ASCII controls and the C1 controls.
  predicate Forbidden(c: char) {
    c == '\\' || c as int < 0x20 || 0x7F <= c as int < 0xA0
  }

  predicate CleanText(text: string) {
    && text != []
    && ByteLength(text) <= MAX_PATH_BYTES
    && (forall i :: 0 <= i < |text| ==> !Forbidden(text[i]))
    && text[0] != '/'
  }

  predicate ProperName(name: Name) {
    name != "" && name != "." && name != ".." && '/' !in name
  }

  predicate ProperPath(path: Path) {
    |path| >= 1 && forall i :: 0 <= i < |path| ==> ProperName(path[i])
  }

  // A target may also climb.
  predicate ProperTarget(target: Path) {
    |target| >= 1 && forall i :: 0 <= i < |target| ==> target[i] == ".." || ProperName(target[i])
  }

  // `normalize_archive_path` on text that is valid UTF-8: the components, and
  // whether the raw path ended in a slash.
  function NormalizeArchivePath(text: string): (r: Result<(Path, bool), ArchiveError>) {
    if !CleanText(text) then Err(ArchivePath)
    else
      var hadTrailingSlash := text[|text| - 1] == '/';
      var trimmed := if hadTrailingSlash then text[..|text| - 1] else text;
      var components := Text.Split(trimmed, '/');
      if !ProperPath(components) then Err(ArchivePath)
      else Ok((components, hadTrailingSlash))
  }

  // A target keeps its `..` components.
  function NormalizeLinkTarget(text: string): (r: Result<Path, SymlinkError>) {
    if !CleanText(text) then Err(InvalidTarget)
    else
      var components := Text.Split(text, '/');
      if !ProperTarget(components) then Err(InvalidTarget)
      else Ok(components)
  }

  // UTF-8 lengths, and the characters that are refused: the controls and the
  // backslash.
  lemma {:induction false} ByteLengthMeaning(a: string, b: string)
    ensures ByteLength("") == 0 && ByteLength(a + b) == ByteLength(a) + ByteLength(b)
  {
    if a == "" {
      assert a + b == b;
    } else {
      ByteLengthMeaning(a[1..], b);
      assert (a + b)[1..] == a[1..] + b;
    }
  }

  lemma OneCharacter(c: char)
    ensures ByteLength([c]) ==
            if c as int <= 127 then 1 else if c as int <= 2047 then 2 else if c as int <= 65535 then 3 else 4
    ensures Forbidden(c) <==> 0 <= c as int <= 31 || c as int == 92 || 127 <= c as int <= 159
  {
    assert [c][1..] == [];
    assert '\\' as int == 92;
  }

  predicate IsClean(text: string) {
    && |text| >= 1 && text[0] != '/' && ByteLength(text) <= 1024
    && forall c :: c in text ==> !(0 <= c as int <= 31) && c as int != 92 && !(127 <= c as int <= 159)
  }

  lemma CleanMeaning(text: string)
    ensures CleanText(text) <==> IsClean(text)
  {
    forall i | 0 <= i < |text|
      ensures Forbidden(text[i]) <==>
                0 <= text[i] as int <= 31 || text[i] as int == 92 || 127 <= text[i] as int <= 159
    {
      OneCharacter(text[i]);
    }
    if IsClean(text) {
      assert forall i :: 0 <= i < |text| ==> text[i] in text;
    }
  }

  // Exactly which texts are accepted as paths, and what becomes of them.
  lemma PathsExactly(text: string, path: Path, slash: bool)
    ensures NormalizeArchivePath(text) == Ok((path, slash)) <==>
              && IsClean(text) && text == Text.Join(path, '/') + (if slash then "/" else "") && |path| >= 1
              && forall i :: 0 <= i < |path| ==>
                   path[i] != "" && path[i] != "." && path[i] != ".." && '/' !in path[i]
  {
    CleanMeaning(text);
    if NormalizeArchivePath(text) == Ok((path, slash)) {
      NormalizedPathIsProper(text);
    } else if |path| >= 1 && ProperPath(path) && text == Text.Join(path, '/') + (if slash then "/" else "") {
      Text.SplitAfterJoin(path, '/');
      JoinEndsInName(path);
      assert slash ==> text[..|text| - 1] == Text.Join(path, '/');
      assert !slash ==> text == Text.Join(path, '/');
    }
  }

  lemma {:induction false} JoinEndsInName(path: Path)
    requires ProperPath(path)
    ensures var text := Text.Join(path, '/'); text != "" && text[|text| - 1] != '/'
  {
    if |path| == 1 {
      assert path[0][|path[0]| - 1] in path[0];
    } else {
      JoinEndsInName(path[1..]);
    }
  }

  // And as targets, which may climb.
  lemma TargetsExactly(text: string, target: Path)
    ensures NormalizeLinkTarget(text) == Ok(target) <==>
              && IsClean(text) && text == Text.Join(target, '/') && |target| >= 1
              && forall i :: 0 <= i < |target| ==> target[i] != "" && target[i] != "." && '/' !in target[i]
  {
    CleanMeaning(text);
    if NormalizeLinkTarget(text) == Ok(target) {
      NormalizedTargetIsProper(text);
      assert forall i :: 0 <= i < |target| ==> target[i] == ".." || ProperName(target[i]);
    } else if |target| >= 1 && text == Text.Join(target, '/')
              && forall i :: 0 <= i < |target| ==> target[i] != "" && target[i] != "." && '/' !in target[i] {
      Text.SplitAfterJoin(target, '/');
    }
  }

  // Accepted texts and proper component lists are the same thing: the text is
  // recovered from the components, and a path has no `..` to climb with.
  lemma NormalizedPathIsProper(text: string)
    requires NormalizeArchivePath(text).Ok?
    ensures var (path, slash) := NormalizeArchivePath(text).value;
            ProperPath(path) && text == Text.Join(path, '/') + if slash then "/" else ""
  {
    var (path, slash) := NormalizeArchivePath(text).value;
    var trimmed := if slash then text[..|text| - 1] else text;
    Text.SplitIsFree(trimmed, '/');
    Text.JoinAfterSplit(trimmed, '/');
    assert path == Text.Split(trimmed, '/');
    assert slash ==> text == trimmed + "/";
  }

  lemma NormalizedTargetIsProper(text: string)
    requires NormalizeLinkTarget(text).Ok?
    ensures ProperTarget(NormalizeLinkTarget(text).value)
    ensures Text.Join(NormalizeLinkTarget(text).value, '/') == text
  {
    var target := NormalizeLinkTarget(text).value;
    Text.SplitIsFree(text, '/');
    Text.JoinAfterSplit(text, '/');
  }

  // `is_root_path`, which works on texts.
  predicate IsRootText(text: string, root: Name) {
    text == root || root + "/" <= text
  }

  // On components the textual prefix test asks for the first component.
  lemma RootTextIsRootComponent(path: Path, root: Name)
    requires ProperPath(path) && '/' !in root
    ensures IsRootText(Text.Join(path, '/'), root) <==> path[0] == root
  {
    var text := Text.Join(path, '/');
    Text.SplitAfterJoin(path, '/');
    if text == root {
      Text.SplitFreeText(root, '/');
    } else if root + "/" <= text {
      assert text == root + ['/'] + text[|root| + 1..];
      Text.SplitAtSeparator(root, text[|root| + 1..], '/');
    }
    if path[0] == root && |path| > 1 {
      assert text == root + "/" + Text.Join(path[1..], '/');
    }
  }

  // Where a target leads, component by component, from the directory `base`.
  // Climbing above the application root is an escape.
  function Climb(base: Path, target: Path): Option<Path>
    decreases |target|
  {
    if target == [] then Some(base)
    else if target[0] == ".." then
      if |base| <= 1 then None else Climb(base[..|base| - 1], target[1..])
    else Climb(base + [target[0]], target[1..])
  }

  // The lexical destination of a link: what `resolve_relative_symlink_path` computes.
  function Destination(link: Path, target: Path): Option<Path> {
    if |link| < 2 || link[0] != ROOT_NAME then None
    else Climb(link[..|link| - 1], target)
  }

  method ResolveRelativeSymlinkPath(link: Path, target: Path) returns (r: Result<Path, SymlinkError>)
    requires ProperPath(link) && ProperTarget(target)
    ensures r.Ok? <==> Destination(link, target).Some?
    ensures r.Ok? ==> r.value == Destination(link, target).value && [ROOT_NAME] <= r.value
    ensures r.Err? ==> r.error == if |link| < 2 || link[0] != ROOT_NAME then InvalidTarget else EscapesRoot
  {
    if |link| < 2 || link[0] != ROOT_NAME {
      return Err(InvalidTarget);
    }
    var components := link[..|link| - 1];
    for i := 0 to |target|
      invariant |components| >= 1 && components[0] == ROOT_NAME
      invariant Climb(components, target[i..]) == Destination(link, target)
    {
      assert target[i..][1..] == target[i + 1..];
      if target[i] == ".." {
        if |components| <= 1 {
          return Err(EscapesRoot);
        }
        components := components[..|components| - 1];
      } else {
        components := components + [target[i]];
      }
    }
    r := Ok(components);
  }

  lemma {:induction false} ClimbStaysInRoot(base: Path, target: Path)
    requires |base| >= 1 && base[0] == ROOT_NAME && ProperPath(base)
    requires forall i :: 0 <= i < |target| ==> target[i] == ".." || ProperName(target[i])
    requires Climb(base, target).Some?
    ensures var end := Climb(base, target).value; ProperPath(end) && end[0] == ROOT_NAME
    decreases |target|
  {
    if target != [] {
      if target[0] == ".." {
        ClimbStaysInRoot(base[..|base| - 1], target[1..]);
      } else {
        ClimbStaysInRoot(base + [target[0]], target[1..]);
      }
    }
  }

  lemma {:induction false} ClimbConcat(base: Path, first: Path, second: Path)
    ensures Climb(base, first + second) ==
            if Climb(base, first).None? then None else Climb(Climb(base, first).value, second)
    decreases |first|
  {
    if first == [] {
      assert first + second == second;
    } else {
      assert (first + second)[1..] == first[1..] + second;
      if first[0] == ".." {
        if |base| > 1 {
          ClimbConcat(base[..|base| - 1], first[1..], second);
        }
      } else {
        ClimbConcat(base + [first[0]], first[1..], second);
      }
    }
  }
}
