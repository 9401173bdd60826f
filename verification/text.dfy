// Splitting and joining of texts at a separator, as the path, version and manifest code uses them.
module Text {
  import opened Results

  // `split(separator)`: always at least one part.
  function Split(s: string, separator: char): (parts: seq<string>)
    ensures |parts| >= 1
  {
    if s == [] then [""]
    else
      var rest := Split(s[1..], separator);
      if s[0] == separator then [""] + rest
      else [[s[0]] + rest[0]] + rest[1..]
  }

  function Join(parts: seq<string>, separator: char): string {
    if |parts| == 0 then ""
    else if |parts| == 1 then parts[0]
    else parts[0] + [separator] + Join(parts[1..], separator)
  }

  // `split_once(separator)`: the text before and after the first occurrence.
  function SplitOnce(s: string, separator: char): Option<(string, string)> {
    if s == [] then None
    else if s[0] == separator then Some(("", s[1..]))
    else
      match SplitOnce(s[1..], separator)
      case None => None
      case Some((before, after)) => Some(([s[0]] + before, after))
  }

  ghost predicate Free(parts: seq<string>, separator: char) {
    forall i :: 0 <= i < |parts| ==> separator !in parts[i]
  }

  lemma {:induction false} SplitIsFree(s: string, separator: char)
    ensures Free(Split(s, separator), separator)
  {
    if s != [] {
      SplitIsFree(s[1..], separator);
      var rest := Split(s[1..], separator);
      forall i | 0 <= i < |Split(s, separator)|
        ensures separator !in Split(s, separator)[i]
      {
        if s[0] == separator {
          assert i > 0 ==> Split(s, separator)[i] == rest[i - 1];
        } else {
          assert i > 0 ==> Split(s, separator)[i] == rest[i];
        }
      }
    }
  }

  lemma {:induction false} JoinAfterSplit(s: string, separator: char)
    ensures Join(Split(s, separator), separator) == s
  {
    if s != [] {
      JoinAfterSplit(s[1..], separator);
      var rest := Split(s[1..], separator);
      if s[0] == separator {
        assert ([""] + rest)[1..] == rest;
        assert Join([""] + rest, separator) == "" + [separator] + Join(rest, separator);
      } else {
        var parts := [[s[0]] + rest[0]] + rest[1..];
        assert parts[1..] == rest[1..];
        assert Join(parts, separator) == [s[0]] + Join(rest, separator);
      }
      assert s == [s[0]] + s[1..];
    }
  }

  lemma {:induction false} SplitFreeText(s: string, separator: char)
    requires separator !in s
    ensures Split(s, separator) == [s]
  {
    if s != [] {
      SplitFreeText(s[1..], separator);
      assert s == [s[0]] + s[1..];
    }
  }

  lemma {:induction false} SplitAtSeparator(left: string, right: string, separator: char)
    requires separator !in left
    ensures Split(left + [separator] + right, separator) == [left] + Split(right, separator)
  {
    var s := left + [separator] + right;
    if left == [] {
      assert s[1..] == right;
    } else {
      SplitAtSeparator(left[1..], right, separator);
      assert s[1..] == left[1..] + [separator] + right;
      assert left == [left[0]] + left[1..];
    }
  }

  lemma {:induction false} SplitAfterJoin(parts: seq<string>, separator: char)
    requires |parts| >= 1 && Free(parts, separator)
    ensures Split(Join(parts, separator), separator) == parts
  {
    if |parts| == 1 {
      SplitFreeText(parts[0], separator);
    } else {
      SplitAfterJoin(parts[1..], separator);
      SplitAtSeparator(parts[0], Join(parts[1..], separator), separator);
      assert parts == [parts[0]] + parts[1..];
    }
  }

  lemma {:induction false} SplitOnceAbsent(s: string, separator: char)
    requires separator !in s
    ensures SplitOnce(s, separator) == None
  {
    if s != [] {
      SplitOnceAbsent(s[1..], separator);
    }
  }

  lemma {:induction false} SplitOnceFirst(left: string, right: string, separator: char)
    requires separator !in left
    ensures SplitOnce(left + [separator] + right, separator) == Some((left, right))
  {
    var s := left + [separator] + right;
    if left == [] {
      assert s[1..] == right;
    } else {
      SplitOnceFirst(left[1..], right, separator);
      assert s[1..] == left[1..] + [separator] + right;
      assert left == [left[0]] + left[1..];
    }
  }

  lemma {:induction false} SplitOnceParts(s: string, separator: char)
    ensures SplitOnce(s, separator).None? ==> separator !in s
    ensures SplitOnce(s, separator).Some? ==>
              var (before, after) := SplitOnce(s, separator).value;
              separator !in before && s == before + [separator] + after
  {
    if s != [] {
      SplitOnceParts(s[1..], separator);
      assert s == [s[0]] + s[1..];
    }
  }
}
