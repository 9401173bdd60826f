// Versions of releases: parsing, printing and precedence.
module SemVers {
  import opened Results
  import opened Orders
  import Text
  import D = Decimals

  datatype Identifier = Numeric(value: D.Decimal) | Textual(text: string)

  datatype SemVer = SemVer(
    major: D.Decimal, minor: D.Decimal, patch: D.Decimal, preRelease: seq<Identifier>, buildMetadata: seq<string>)

  predicate IsPlain(c: char) {
    D.IsDigit(c) || 'a' <= c <= 'z' || 'A' <= c <= 'Z' || c == '-'
  }

  predicate PlainText(text: string) {
    text != "" && forall i :: 0 <= i < |text| ==> IsPlain(text[i])
  }

  predicate IsControl(c: char) {
    c as int < 0x20 || 0x7f <= c as int < 0xa0
  }

  predicate NonEmptyText(text: string) {
    text != "" && forall i :: 0 <= i < |text| ==> !IsControl(text[i])
  }

  // The characters of identifiers, in sections 9 and 10 of Semantic Versioning.
  lemma PlainCharacter(c: char)
    ensures IsPlain(c) <==>
              || c in "0123456789" || c in "abcdefghijklmnopqrstuvwxyz" || c in "ABCDEFGHIJKLMNOPQRSTUVWXYZ"
              || c == '-'
  {
    DigitCharacter(c);
    LowerCharacter(c);
    UpperCharacter(c);
  }

  lemma DigitCharacter(c: char)
    ensures c in "0123456789" <==> '0' <= c <= '9'
  {
    var all := "0123456789";
    if '0' <= c <= '9' {
      assert all[c as int - '0' as int] == c;
    }
  }

  lemma LowerCharacter(c: char)
    ensures c in "abcdefghijklmnopqrstuvwxyz" <==> 'a' <= c <= 'z'
  {
    var all := "abcdefghijklmnopqrstuvwxyz";
    if 'a' <= c <= 'z' {
      assert all[c as int - 'a' as int] == c;
    }
  }

  lemma UpperCharacter(c: char)
    ensures c in "ABCDEFGHIJKLMNOPQRSTUVWXYZ" <==> 'A' <= c <= 'Z'
  {
    var all := "ABCDEFGHIJKLMNOPQRSTUVWXYZ";
    if 'A' <= c <= 'Z' {
      assert all[c as int - 'A' as int] == c;
    }
  }

  // Texts are refused when they are empty or hold a character of the general
  // category Cc of Unicode.
  lemma TextMeaning(text: string)
    ensures NonEmptyText(text) <==>
            |text| >= 1 && forall c :: c in text ==> !(0 <= c as int <= 31) && !(127 <= c as int <= 159)
  {
    if |text| >= 1 && forall c :: c in text ==> !(0 <= c as int <= 31) && !(127 <= c as int <= 159) {
      assert forall i :: 0 <= i < |text| ==> text[i] in text;
    }
  }

  // ---- parsing ----

  function ParseIdentifier(text: string): Option<Identifier> {
    if !PlainText(text) then None
    else if D.AllDigits(text) then
      match D.Parse(text, false)
      case None => None
      case Some(number) => Some(Numeric(number))
    else Some(Textual(text))
  }

  function ParseIdentifiers(parts: seq<string>): Option<seq<Identifier>> {
    if parts == [] then Some([])
    else
      match (ParseIdentifier(parts[0]), ParseIdentifiers(parts[1..]))
      case (Some(first), Some(rest)) => Some([first] + rest)
      case _ => None
  }

  function ParsePreRelease(text: Option<string>): Option<seq<Identifier>> {
    if text.None? then Some([])
    else if text.value == "" then None
    else ParseIdentifiers(Text.Split(text.value, '.'))
  }

  function ParseBuildMetadata(text: Option<string>): Option<seq<string>> {
    if text.None? then Some([])
    else if text.value == "" then None
    else
      var parts := Text.Split(text.value, '.');
      if forall i :: 0 <= i < |parts| ==> PlainText(parts[i]) then Some(parts) else None
  }

  function ParseParts(core: string, preRelease: Option<string>, build: Option<string>): Option<SemVer> {
    var parts := Text.Split(core, '.');
    if |parts| != 3 then None
    else
      match (D.Parse(parts[0], false), D.Parse(parts[1], false), D.Parse(parts[2], false))
      case (Some(major), Some(minor), Some(patch)) =>
        (match (ParsePreRelease(preRelease), ParseBuildMetadata(build))
         case (Some(pre), Some(metadata)) => Some(SemVer(major, minor, patch, pre, metadata))
         case _ => None)
      case _ => None
  }

  // The part before the separator, and the part after it if there is one.
  function SplitOff(text: string, separator: char): (string, Option<string>) {
    match Text.SplitOnce(text, separator)
    case None => (text, None)
    case Some((before, after)) => (before, Some(after))
  }

  function Parse(text: string): Option<SemVer> {
    if !NonEmptyText(text) then None
    else
      var (version, build) := SplitOff(text, '+');
      var (core, preRelease) := SplitOff(version, '-');
      ParseParts(core, preRelease, build)
  }

  // ---- printing ----

  function PrintIdentifier(id: Identifier): string {
    match id
    case Numeric(value) => value
    case Textual(text) => text
  }

  function Printed(ids: seq<Identifier>): (r: seq<string>)
    ensures |r| == |ids| && forall i :: 0 <= i < |ids| ==> r[i] == PrintIdentifier(ids[i])
  {
    seq(|ids|, i requires 0 <= i < |ids| => PrintIdentifier(ids[i]))
  }

  function PrintCore(v: SemVer): string {
    v.major + "." + v.minor + "." + v.patch
  }

  function PrintVersion(v: SemVer): string {
    PrintCore(v) + if v.preRelease == [] then "" else "-" + Text.Join(Printed(v.preRelease), '.')
  }

  function Print(v: SemVer): string {
    PrintVersion(v) + if v.buildMetadata == [] then "" else "+" + Text.Join(v.buildMetadata, '.')
  }

  // ---- the values that parsing makes ----

  predicate ValidIdentifier(id: Identifier) {
    match id
    case Numeric(value) => D.Canonical(value)
    case Textual(text) => PlainText(text) && !D.AllDigits(text)
  }

  predicate Valid(v: SemVer) {
    && D.Canonical(v.major) && D.Canonical(v.minor) && D.Canonical(v.patch)
    && (forall i :: 0 <= i < |v.preRelease| ==> ValidIdentifier(v.preRelease[i]))
    && (forall i :: 0 <= i < |v.buildMetadata| ==> PlainText(v.buildMetadata[i]))
  }

  lemma IdentifierRoundTrip(text: string, id: Identifier)
    ensures ParseIdentifier(text) == Some(id) <==> ValidIdentifier(id) && PrintIdentifier(id) == text
  {
    D.ParseMeaning(text, false);
    if ValidIdentifier(id) && PrintIdentifier(id) == text {
      assert PlainText(text);
      D.ParseMeaning(text, false);
    }
  }

  lemma {:induction false} IdentifiersRoundTrip(parts: seq<string>, ids: seq<Identifier>)
    ensures ParseIdentifiers(parts) == Some(ids) <==>
            Printed(ids) == parts && forall i :: 0 <= i < |ids| ==> ValidIdentifier(ids[i])
  {
    if parts == [] {
      assert Printed(ids) == parts <==> ids == [];
    } else if ids == [] {
      assert ParseIdentifiers(parts) != Some(ids);
      assert Printed(ids) != parts;
    } else {
      IdentifierRoundTrip(parts[0], ids[0]);
      IdentifiersRoundTrip(parts[1..], ids[1..]);
      FirstAndRest(parts, ids);
      assert ids == [ids[0]] + ids[1..];
    }
  }

  lemma FirstAndRest(parts: seq<string>, ids: seq<Identifier>)
    requires parts != [] && ids != []
    ensures Printed(ids) == parts <==> PrintIdentifier(ids[0]) == parts[0] && Printed(ids[1..]) == parts[1..]
    ensures (forall i :: 0 <= i < |ids| ==> ValidIdentifier(ids[i])) <==>
            ValidIdentifier(ids[0]) && forall i :: 0 <= i < |ids[1..]| ==> ValidIdentifier(ids[1..][i])
  {
    assert parts == [parts[0]] + parts[1..];
    assert Printed(ids) == [PrintIdentifier(ids[0])] + Printed(ids[1..]);
    assert forall i :: 1 <= i < |ids| ==> ids[i] == ids[1..][i - 1];
  }

  // ---- the pieces, both ways ----

  lemma {:induction false} JoinedChars(parts: seq<string>, c: char)
    requires c != '.' && forall i :: 0 <= i < |parts| ==> c !in parts[i]
    ensures c !in Text.Join(parts, '.')
  {
    if |parts| > 1 {
      JoinedChars(parts[1..], c);
    }
  }

  ghost predicate PlainParts(parts: seq<string>) {
    forall i :: 0 <= i < |parts| ==> PlainText(parts[i])
  }

  lemma JoinedPlain(parts: seq<string>, c: char)
    requires PlainParts(parts) && !IsPlain(c) && c != '.'
    ensures c !in Text.Join(parts, '.')
  {
    forall i | 0 <= i < |parts| ensures c !in parts[i] {
      assert PlainText(parts[i]);
    }
    JoinedChars(parts, c);
  }

  lemma JoinIsNotEmpty(parts: seq<string>)
    requires parts != [] && PlainParts(parts)
    ensures Text.Join(parts, '.') != ""
  {
    assert PlainText(parts[0]);
  }

  // Plain parts joined with dots are split into the same parts.
  lemma PlainSplit(text: string, parts: seq<string>)
    requires PlainParts(parts)
    ensures Text.Split(text, '.') == parts <==> parts != [] && text == Text.Join(parts, '.')
  {
    Text.JoinAfterSplit(text, '.');
    if parts != [] {
      forall i | 0 <= i < |parts| ensures '.' !in parts[i] {
        assert PlainText(parts[i]);
      }
      Text.SplitAfterJoin(parts, '.');
    }
  }

  lemma PrintedIsPlain(ids: seq<Identifier>)
    requires forall i :: 0 <= i < |ids| ==> ValidIdentifier(ids[i])
    ensures PlainParts(Printed(ids))
  {
    forall i | 0 <= i < |ids| ensures PlainText(Printed(ids)[i]) {
      assert ValidIdentifier(ids[i]);
    }
  }

  lemma PreReleaseRoundTrip(text: Option<string>, ids: seq<Identifier>)
    ensures ParsePreRelease(text) == Some(ids) <==>
            && (forall i :: 0 <= i < |ids| ==> ValidIdentifier(ids[i]))
            && text == (if ids == [] then None else Some(Text.Join(Printed(ids), '.')))
  {
    if text.Some? {
      var parts := Text.Split(text.value, '.');
      IdentifiersRoundTrip(parts, ids);
      if forall i :: 0 <= i < |ids| ==> ValidIdentifier(ids[i]) {
        PrintedIsPlain(ids);
        PlainSplit(text.value, Printed(ids));
        if ids != [] {
          JoinIsNotEmpty(Printed(ids));
        }
      }
    }
  }

  lemma BuildMetadataRoundTrip(text: Option<string>, parts: seq<string>)
    ensures ParseBuildMetadata(text) == Some(parts) <==>
            PlainParts(parts) && text == if parts == [] then None else Some(Text.Join(parts, '.'))
  {
    if text.Some? && PlainParts(parts) {
      PlainSplit(text.value, parts);
      if parts != [] {
        JoinIsNotEmpty(parts);
      }
    }
  }

  lemma CoreRoundTrip(core: string, v: SemVer)
    ensures var parts := Text.Split(core, '.');
            (|parts| == 3 && D.Parse(parts[0], false) == Some(v.major) && D.Parse(parts[1], false) == Some(v.minor)
             && D.Parse(parts[2], false) == Some(v.patch)) <==>
            (D.Canonical(v.major) && D.Canonical(v.minor) && D.Canonical(v.patch) && core == PrintCore(v))
  {
    var parts, printed := Text.Split(core, '.'), [v.major, v.minor, v.patch];
    D.ParseMeaning(v.major, false);
    D.ParseMeaning(v.minor, false);
    D.ParseMeaning(v.patch, false);
    JoinThree(v.major, v.minor, v.patch);
    if |parts| == 3 {
      D.ParseMeaning(parts[0], false);
      D.ParseMeaning(parts[1], false);
      D.ParseMeaning(parts[2], false);
    }
    if D.Canonical(v.major) && D.Canonical(v.minor) && D.Canonical(v.patch) {
      assert PlainParts(printed);
      PlainSplit(core, printed);
      assert |parts| == 3 && parts[0] == v.major && parts[1] == v.minor && parts[2] == v.patch <==> parts == printed;
    }
  }

  lemma JoinThree(a: string, b: string, c: string)
    ensures Text.Join([a, b, c], '.') == a + "." + b + "." + c
  {
    assert [a, b, c][1..] == [b, c] && [b, c][1..] == [c];
    assert Text.Join([b, c], '.') == b + "." + c;
    assert Text.Join([a, b, c], '.') == a + "." + (b + "." + c);
  }

  lemma PartsRoundTrip(core: string, preRelease: Option<string>, build: Option<string>, v: SemVer)
    ensures ParseParts(core, preRelease, build) == Some(v) <==>
            && Valid(v) && core == PrintCore(v)
            && preRelease == (if v.preRelease == [] then None else Some(Text.Join(Printed(v.preRelease), '.')))
            && build == (if v.buildMetadata == [] then None else Some(Text.Join(v.buildMetadata, '.')))
  {
    CoreRoundTrip(core, v);
    PreReleaseRoundTrip(preRelease, v.preRelease);
    BuildMetadataRoundTrip(build, v.buildMetadata);
  }

  lemma SplitOffRoundTrip(text: string, separator: char, before: string, after: Option<string>)
    ensures SplitOff(text, separator) == (before, after) <==>
            && separator !in before
            && text == before + (if after.None? then "" else [separator] + after.value)
  {
    Text.SplitOnceParts(text, separator);
    if separator !in before {
      if after.None? {
        Text.SplitOnceAbsent(before, separator);
        assert before + "" == before;
      } else {
        Text.SplitOnceFirst(before, after.value, separator);
        assert before + ([separator] + after.value) == before + [separator] + after.value;
      }
    }
  }

  lemma CoreChars(v: SemVer)
    requires Valid(v)
    ensures forall i :: 0 <= i < |PrintCore(v)| ==> D.IsDigit(PrintCore(v)[i]) || PrintCore(v)[i] == '.'
    ensures PrintCore(v) != ""
  {
  }

  lemma VersionChars(v: SemVer)
    requires Valid(v)
    ensures '-' !in PrintCore(v) && '+' !in PrintVersion(v)
  {
    CoreChars(v);
    PrintedIsPlain(v.preRelease);
    JoinedPlain(Printed(v.preRelease), '+');
  }

  lemma PrintedHasNoControl(v: SemVer)
    requires Valid(v)
    ensures NonEmptyText(Print(v))
  {
    CoreChars(v);
    PrintedIsPlain(v.preRelease);
    forall c: char | IsControl(c)
      ensures c !in PrintCore(v) && c !in Text.Join(Printed(v.preRelease), '.') && c !in Text.Join(v.buildMetadata, '.')
    {
      JoinedPlain(Printed(v.preRelease), c);
      JoinedPlain(v.buildMetadata, c);
    }
    forall i | 0 <= i < |Print(v)| ensures !IsControl(Print(v)[i]) {
      assert Print(v)[i] in Print(v);
    }
  }

  // ---- parsing and printing undo each other ----

  // A text is the print of a valid version exactly when it parses to it.
  lemma RoundTrip(text: string, v: SemVer)
    ensures Parse(text) == Some(v) <==> Valid(v) && Print(v) == text
  {
    var (version, build) := SplitOff(text, '+');
    var (core, preRelease) := SplitOff(version, '-');
    SplitOffRoundTrip(text, '+', version, build);
    SplitOffRoundTrip(version, '-', core, preRelease);
    PartsRoundTrip(core, preRelease, build, v);
    if Valid(v) && Print(v) == text {
      PrintedSplits(v);
      PrintedHasNoControl(v);
    }
  }

  lemma PrintedSplits(v: SemVer)
    requires Valid(v)
    ensures SplitOff(Print(v), '+')
         == (PrintVersion(v), if v.buildMetadata == [] then None else Some(Text.Join(v.buildMetadata, '.')))
    ensures SplitOff(PrintVersion(v), '-')
         == (PrintCore(v), if v.preRelease == [] then None else Some(Text.Join(Printed(v.preRelease), '.')))
  {
    VersionChars(v);
    SplitOffRoundTrip(Print(v), '+', PrintVersion(v),
      if v.buildMetadata == [] then None else Some(Text.Join(v.buildMetadata, '.')));
    SplitOffRoundTrip(PrintVersion(v), '-', PrintCore(v),
      if v.preRelease == [] then None else Some(Text.Join(Printed(v.preRelease), '.')));
  }

  // ---- precedence ----

  function CompareIdentifier(a: Identifier, b: Identifier): Ordering {
    match (a, b)
    case (Numeric(x), Numeric(y)) => D.Compare(x, y)
    case (Numeric(_), Textual(_)) => Less
    case (Textual(_), Numeric(_)) => Greater
    case (Textual(x), Textual(y)) => CompareText(x, y)
  }

  function ComparePreRelease(a: seq<Identifier>, b: seq<Identifier>): Ordering {
    match (a == [], b == [])
    case (true, true) => Equal
    case (true, false) => Greater
    case (false, true) => Less
    case (false, false) => CompareLists(CompareIdentifier, a, b)
  }

  function ComparePrecedence(a: SemVer, b: SemVer): Ordering {
    D.Compare(a.major, b.major).Then(D.Compare(a.minor, b.minor)).Then(D.Compare(a.patch, b.patch)).Then(
      ComparePreRelease(a.preRelease, b.preRelease))
  }

  // The fields that are hashed.
  function HashedFields(v: SemVer): SemVer {
    v.(buildMetadata := [])
  }

  // Section 11 of Semantic Versioning 2.0.0, in numbers and first differences.
  ghost predicate IdentifierBelow(a: Identifier, b: Identifier)
    requires ValidIdentifier(a) && ValidIdentifier(b)
  {
    match (a, b)
    case (Numeric(x), Numeric(y)) => D.Value(x) < D.Value(y)
    case (Numeric(_), Textual(_)) => true
    case (Textual(_), Numeric(_)) => false
    case (Textual(x), Textual(y)) => exists k :: LessAt(CompareChar, x, y, k)
  }

  ghost predicate DifferBelow(a: seq<Identifier>, b: seq<Identifier>, k: int)
    requires AllValid(ValidIdentifier, a) && AllValid(ValidIdentifier, b)
  {
    && 0 <= k <= |a| && k <= |b| && a[..k] == b[..k]
    && (if k < |a| then k < |b| && IdentifierBelow(a[k], b[k]) else k < |b|)
  }

  ghost predicate PreReleaseBelow(a: seq<Identifier>, b: seq<Identifier>)
    requires AllValid(ValidIdentifier, a) && AllValid(ValidIdentifier, b)
  {
    a != [] && (b == [] || exists k :: DifferBelow(a, b, k))
  }

  ghost predicate Below(a: SemVer, b: SemVer)
    requires Valid(a) && Valid(b)
  {
    if a.major != b.major then D.Value(a.major) < D.Value(b.major)
    else if a.minor != b.minor then D.Value(a.minor) < D.Value(b.minor)
    else if a.patch != b.patch then D.Value(a.patch) < D.Value(b.patch)
    else PreReleaseBelow(a.preRelease, b.preRelease)
  }

  lemma IdentifierOrder()
    ensures TotalOrder(CompareIdentifier, ValidIdentifier)
  {
    forall x, y | ValidIdentifier(x) && ValidIdentifier(y)
      ensures CompareIdentifier(x, y) == CompareIdentifier(y, x).Reverse()
      ensures CompareIdentifier(x, y) == Equal <==> x == y
    {
      IdentifierReverses(x, y);
    }
    forall x, y, z | ValidIdentifier(x) && ValidIdentifier(y) && ValidIdentifier(z)
                     && CompareIdentifier(x, y) == Less && CompareIdentifier(y, z) == Less
      ensures CompareIdentifier(x, z) == Less
    {
      IdentifierTransitive(x, y, z);
    }
  }

  lemma IdentifierReverses(x: Identifier, y: Identifier)
    requires ValidIdentifier(x) && ValidIdentifier(y)
    ensures CompareIdentifier(x, y) == CompareIdentifier(y, x).Reverse()
    ensures CompareIdentifier(x, y) == Equal <==> x == y
  {
    D.DecimalOrder();
    TextOrder((_: string) => true);
  }

  lemma IdentifierTransitive(x: Identifier, y: Identifier, z: Identifier)
    requires ValidIdentifier(x) && ValidIdentifier(y) && ValidIdentifier(z)
    requires CompareIdentifier(x, y) == Less && CompareIdentifier(y, z) == Less
    ensures CompareIdentifier(x, z) == Less
  {
    D.DecimalOrder();
    TextOrder((_: string) => true);
  }

  lemma PreReleaseOrder(a: seq<Identifier>, b: seq<Identifier>)
    requires AllValid(ValidIdentifier, a) && AllValid(ValidIdentifier, b)
    ensures ComparePreRelease(a, b) == ComparePreRelease(b, a).Reverse()
    ensures ComparePreRelease(a, b) == Equal <==> a == b
  {
    IdentifierOrder();
    ListsReverse(CompareIdentifier, ValidIdentifier, a, b);
  }

  // Comparing both ways agrees, and equal precedence means equal hashed fields.
  lemma PrecedenceReverses(a: SemVer, b: SemVer)
    requires Valid(a) && Valid(b)
    ensures ComparePrecedence(a, b) == ComparePrecedence(b, a).Reverse()
    ensures ComparePrecedence(a, b) == Equal <==> HashedFields(a) == HashedFields(b)
  {
    D.DecimalOrder();
    PreReleaseOrder(a.preRelease, b.preRelease);
  }

  lemma PreReleaseTransitive(a: seq<Identifier>, b: seq<Identifier>, c: seq<Identifier>)
    requires AllValid(ValidIdentifier, a) && AllValid(ValidIdentifier, b) && AllValid(ValidIdentifier, c)
    requires ComparePreRelease(a, b) == Less && ComparePreRelease(b, c) == Less
    ensures ComparePreRelease(a, c) == Less
  {
    if c != [] {
      IdentifierOrder();
      ListsTransitive(CompareIdentifier, ValidIdentifier, a, b, c);
    }
  }

  lemma PrecedenceIsTransitive(a: SemVer, b: SemVer, c: SemVer)
    requires Valid(a) && Valid(b) && Valid(c)
    requires ComparePrecedence(a, b) != Greater && ComparePrecedence(b, c) != Greater
    ensures ComparePrecedence(a, c) != Greater
    ensures ComparePrecedence(a, c) == Equal ==> ComparePrecedence(a, b) == Equal && ComparePrecedence(b, c) == Equal
  {
    D.DecimalOrder();
    PreReleaseOrder(a.preRelease, b.preRelease);
    PreReleaseOrder(b.preRelease, c.preRelease);
    PreReleaseOrder(a.preRelease, c.preRelease);
    if ComparePreRelease(a.preRelease, b.preRelease) == Less && ComparePreRelease(b.preRelease, c.preRelease) == Less {
      PreReleaseTransitive(a.preRelease, b.preRelease, c.preRelease);
    }
  }

  lemma IdentifierMeaning(a: Identifier, b: Identifier)
    requires ValidIdentifier(a) && ValidIdentifier(b)
    ensures CompareIdentifier(a, b) == Less <==> IdentifierBelow(a, b)
  {
    match (a, b)
    case (Numeric(x), Numeric(y)) => D.CompareIsNumeric(x, y);
    case (Textual(x), Textual(y)) =>
      CharOrder();
      FirstDifference(CompareChar, (_: char) => true, x, y);
    case _ =>
  }

  // The precedence is that of Section 11.
  lemma PrecedenceMeaning(a: SemVer, b: SemVer)
    requires Valid(a) && Valid(b)
    ensures ComparePrecedence(a, b) == Less <==> Below(a, b)
  {
    D.DecimalOrder();
    D.CompareIsNumeric(a.major, b.major);
    D.CompareIsNumeric(a.minor, b.minor);
    D.CompareIsNumeric(a.patch, b.patch);
    PreReleaseMeaning(a.preRelease, b.preRelease);
  }

  lemma PreReleaseMeaning(a: seq<Identifier>, b: seq<Identifier>)
    requires AllValid(ValidIdentifier, a) && AllValid(ValidIdentifier, b)
    ensures ComparePreRelease(a, b) == Less <==> PreReleaseBelow(a, b)
  {
    IdentifierOrder();
    FirstDifference(CompareIdentifier, ValidIdentifier, a, b);
    forall k ensures LessAt(CompareIdentifier, a, b, k) <==> DifferBelow(a, b, k) {
      if 0 <= k < |a| && k < |b| {
        IdentifierMeaning(a[k], b[k]);
      }
    }
  }
}
