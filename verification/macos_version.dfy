// macOS versions: components without trailing zeros, compared with zero padding.
module MacOsVersions {
  import opened Results
  import opened Orders
  import D = Decimals
  import Text
  import opened SemVers

  type MacOsVersion = seq<D.Decimal>

  function ParseComponents(parts: seq<string>): Option<seq<D.Decimal>> {
    if parts == [] then Some([])
    else
      match (D.Parse(parts[0], true), ParseComponents(parts[1..]))
      case (Some(first), Some(rest)) => Some([first] + rest)
      case _ => None
  }

  function TrimZeros(components: seq<D.Decimal>): (r: seq<D.Decimal>)
    ensures |r| <= |components|
  {
    if |components| > 1 && components[|components| - 1] == D.ZERO then TrimZeros(components[..|components| - 1])
    else components
  }

  function Parsed(text: string): Option<MacOsVersion> {
    if !NonEmptyText(text) then None
    else
      match ParseComponents(Text.Split(text, '.'))
      case None => None
      case Some(components) => Some(TrimZeros(components))
  }

  // Which texts are versions: digits between dots, leading zeros included.
  predicate IsNumber(part: string) {
    |part| >= 1 && forall c :: c in part ==> c in "0123456789"
  }

  lemma ComponentParses(part: string)
    ensures D.Parse(part, true).Some? <==> IsNumber(part)
  {
    forall c: char ensures c in "0123456789" <==> D.IsDigit(c) {
      DigitCharacter(c);
    }
    assert forall i :: 0 <= i < |part| ==> part[i] in part;
  }

  lemma {:induction false} ComponentsParse(parts: seq<string>)
    ensures ParseComponents(parts).Some? <==> forall part :: part in parts ==> IsNumber(part)
  {
    if parts != [] {
      ComponentsParse(parts[1..]);
      ComponentParses(parts[0]);
      assert parts == [parts[0]] + parts[1..];
    }
  }

  lemma ParsesExactly(text: string)
    ensures Parsed(text).Some? <==> forall part :: part in Text.Split(text, '.') ==> IsNumber(part)
  {
    ComponentsParse(Text.Split(text, '.'));
    if forall part :: part in Text.Split(text, '.') ==> IsNumber(part) {
      PartsAreText(text);
    }
  }

  lemma {:induction false} JoinedFrom(parts: seq<string>, separator: char, c: char)
    requires c in Text.Join(parts, separator)
    ensures c == separator || exists i :: 0 <= i < |parts| && c in parts[i]
  {
    if |parts| > 1 && c !in parts[0] && c != separator {
      JoinedFrom(parts[1..], separator, c);
      var i :| 0 <= i < |parts[1..]| && c in parts[1..][i];
      assert c in parts[i + 1];
    }
  }

  // Digits and dots are no control characters, and something is there.
  lemma PartsAreText(text: string)
    requires forall part :: part in Text.Split(text, '.') ==> IsNumber(part)
    ensures NonEmptyText(text)
  {
    var parts := Text.Split(text, '.');
    Text.JoinAfterSplit(text, '.');
    assert IsNumber(parts[0]);
    forall i | 0 <= i < |text| ensures !IsControl(text[i]) {
      NoControl(parts, text[i]);
    }
  }

  lemma NoControl(parts: seq<string>, c: char)
    requires c in Text.Join(parts, '.') && forall part :: part in parts ==> IsNumber(part)
    ensures !IsControl(c)
  {
    JoinedFrom(parts, '.', c);
    DigitCharacter(c);
    if c != '.' {
      var i :| 0 <= i < |parts| && c in parts[i];
      assert IsNumber(parts[i]);
    }
  }

  method Parse(text: string) returns (r: Option<MacOsVersion>)
    ensures r == Parsed(text)
  {
    if !NonEmptyText(text) {
      return None;
    }
    var parsed := ParseComponents(Text.Split(text, '.'));
    if parsed.None? {
      return None;
    }
    var components := parsed.value;
    while |components| > 1 && components[|components| - 1] == D.ZERO
      invariant TrimZeros(components) == TrimZeros(parsed.value)
      decreases |components|
    {
      components := components[..|components| - 1];
    }
    r := Some(components);
  }

  // Components that are not there count as zero.
  function Component(v: seq<D.Decimal>, i: nat): D.Decimal {
    if i < |v| then v[i] else D.ZERO
  }

  function CompareFrom(a: MacOsVersion, b: MacOsVersion, i: nat): Ordering
    decreases |a| + |b| - i
  {
    if i >= |a| && i >= |b| then Equal
    else D.Compare(Component(a, i), Component(b, i)).Then(CompareFrom(a, b, i + 1))
  }

  function ComparePadded(a: MacOsVersion, b: MacOsVersion): Ordering {
    CompareFrom(a, b, 0)
  }

  predicate AllCanonical(v: seq<D.Decimal>) {
    forall i :: 0 <= i < |v| ==> D.Canonical(v[i])
  }

  predicate Valid(v: MacOsVersion) {
    && |v| >= 1 && AllCanonical(v)
    && (|v| > 1 ==> v[|v| - 1] != D.ZERO)
  }

  // ---- the numbers behind a version ----

  // The number of a component, before or after trimming; zero past the end.
  function Number(v: seq<D.Decimal>, i: nat): nat
    requires AllCanonical(v)
  {
    D.Value(Component(v, i))
  }

  lemma MissingIsZero(v: seq<D.Decimal>, i: nat)
    requires AllCanonical(v) && i >= |v|
    ensures Number(v, i) == 0 && D.ZERO == "0"
  {
  }

  // Two sequences of numbers differ first at k, and `a` has less there.
  ghost predicate LowerAt(a: seq<D.Decimal>, b: seq<D.Decimal>, from: nat, k: nat)
    requires AllCanonical(a) && AllCanonical(b)
  {
    from <= k && Number(a, k) < Number(b, k) && forall i :: from <= i < k ==> Number(a, i) == Number(b, i)
  }

  lemma ComponentIsCanonical(v: seq<D.Decimal>, i: nat)
    requires AllCanonical(v)
    ensures D.Canonical(Component(v, i))
  {
  }

  lemma {:induction false} PaddedMeaning(a: MacOsVersion, b: MacOsVersion, i: nat)
    requires AllCanonical(a) && AllCanonical(b)
    ensures CompareFrom(a, b, i) == Less <==> exists k :: LowerAt(a, b, i, k)
    ensures CompareFrom(a, b, i) == Equal <==> forall j :: j >= i ==> Number(a, j) == Number(b, j)
    decreases |a| + |b| - i
  {
    if i < |a| || i < |b| {
      ComponentIsCanonical(a, i);
      ComponentIsCanonical(b, i);
      D.CompareIsNumeric(Component(a, i), Component(b, i));
      PaddedMeaning(a, b, i + 1);
      LowerNow(a, b, i, i + 1);
    }
  }

  lemma LowerNow(a: seq<D.Decimal>, b: seq<D.Decimal>, i: nat, next: nat)
    requires AllCanonical(a) && AllCanonical(b) && next == i + 1
    ensures (exists k :: LowerAt(a, b, i, k)) <==>
            Number(a, i) < Number(b, i) || (Number(a, i) == Number(b, i) && exists k :: LowerAt(a, b, next, k))
  {
    assert LowerAt(a, b, i, i) <==> Number(a, i) < Number(b, i);
    forall k: nat | k > i ensures LowerAt(a, b, i, k) <==> Number(a, i) == Number(b, i) && LowerAt(a, b, next, k) {
      assert LowerAt(a, b, i, k) ==> Number(a, i) == Number(b, i);
    }
    if Number(a, i) == Number(b, i) && exists k :: LowerAt(a, b, next, k) {
      var k :| LowerAt(a, b, next, k);
      assert LowerAt(a, b, i, k);
    }
  }

  lemma {:induction false} PaddedReverses(a: MacOsVersion, b: MacOsVersion, i: nat)
    requires AllCanonical(a) && AllCanonical(b)
    ensures CompareFrom(a, b, i) == CompareFrom(b, a, i).Reverse()
    decreases |a| + |b| - i
  {
    if i < |a| || i < |b| {
      ComponentIsCanonical(a, i);
      ComponentIsCanonical(b, i);
      D.DecimalOrder();
      PaddedReverses(a, b, i + 1);
    }
  }

  // ---- trimming ----

  lemma {:induction false} TrimKeepsNumbers(v: seq<D.Decimal>, i: nat)
    ensures Component(TrimZeros(v), i) == Component(v, i)
  {
    if |v| > 1 && v[|v| - 1] == D.ZERO {
      TrimKeepsNumbers(v[..|v| - 1], i);
    }
  }

  lemma {:induction false} TrimIsValid(v: seq<D.Decimal>)
    requires |v| >= 1 && AllCanonical(v)
    ensures Valid(TrimZeros(v))
  {
    if |v| > 1 && v[|v| - 1] == D.ZERO {
      TrimIsValid(v[..|v| - 1]);
    }
  }

  lemma {:induction false} ParsedComponents(parts: seq<string>)
    ensures ParseComponents(parts).Some? ==>
              && AllCanonical(ParseComponents(parts).value) && |ParseComponents(parts).value| == |parts|
              && forall i :: 0 <= i < |parts| ==>
                   D.AllDigits(parts[i]) && D.Value(parts[i]) == D.Value(ParseComponents(parts).value[i])
  {
    if parts != [] {
      D.ParseMeaning(parts[0], true);
      ParsedComponents(parts[1..]);
    }
  }

  lemma ParsedIsValid(text: string)
    requires Parsed(text).Some?
    ensures Valid(Parsed(text).value)
  {
    ParsedComponents(Text.Split(text, '.'));
    TrimIsValid(ParseComponents(Text.Split(text, '.')).value);
  }

  // ---- the order ----

  // On parsed versions, comparing equal is being the same.
  lemma EqualIsSame(a: MacOsVersion, b: MacOsVersion)
    requires Valid(a) && Valid(b)
    ensures ComparePadded(a, b) == Equal <==> a == b
  {
    PaddedMeaning(a, b, 0);
    if ComparePadded(a, b) == Equal {
      SameNumbers(a, b);
    }
  }

  lemma SameNumber(a: MacOsVersion, b: MacOsVersion, i: nat)
    requires AllCanonical(a) && AllCanonical(b) && Number(a, i) == Number(b, i)
    ensures Component(a, i) == Component(b, i)
  {
    ComponentIsCanonical(a, i);
    ComponentIsCanonical(b, i);
    D.CompareIsNumeric(Component(a, i), Component(b, i));
    D.EqualIsSame(Component(a, i), Component(b, i));
  }

  lemma SameNumbers(a: MacOsVersion, b: MacOsVersion)
    requires Valid(a) && Valid(b) && forall j: nat :: Number(a, j) == Number(b, j)
    ensures a == b
  {
    forall j: nat ensures Component(a, j) == Component(b, j) {
      assert Number(a, j) == Number(b, j);
      SameNumber(a, b, j);
    }
    assert Component(a, |a| - 1) == Component(b, |a| - 1);
    assert Component(b, |b| - 1) == Component(a, |b| - 1);
    assert |a| == |b|;
    forall j | 0 <= j < |a| ensures a[j] == b[j] {
      assert Component(a, j) == Component(b, j);
    }
  }

  lemma PaddedTransitive(a: MacOsVersion, b: MacOsVersion, c: MacOsVersion)
    requires AllCanonical(a) && AllCanonical(b) && AllCanonical(c)
    requires ComparePadded(a, b) == Less && ComparePadded(b, c) == Less
    ensures ComparePadded(a, c) == Less
  {
    PaddedMeaning(a, b, 0);
    PaddedMeaning(b, c, 0);
    PaddedMeaning(a, c, 0);
    var j :| LowerAt(a, b, 0, j);
    var k :| LowerAt(b, c, 0, k);
    LowerTransitive(a, b, c, j, k);
  }

  lemma LowerTransitive(a: MacOsVersion, b: MacOsVersion, c: MacOsVersion, j: nat, k: nat)
    requires AllCanonical(a) && AllCanonical(b) && AllCanonical(c) && LowerAt(a, b, 0, j) && LowerAt(b, c, 0, k)
    ensures LowerAt(a, c, 0, if j < k then j else k)
  {
    var m := if j < k then j else k;
    assert Number(a, m) <= Number(b, m) <= Number(c, m);
    forall i | 0 <= i < m ensures Number(a, i) == Number(c, i) {
      assert Number(a, i) == Number(b, i);
    }
  }

  // The comparison is a total order on parsed versions.
  lemma VersionOrder()
    ensures TotalOrder(ComparePadded, Valid)
  {
    forall x, y | Valid(x) && Valid(y)
      ensures ComparePadded(x, y) == ComparePadded(y, x).Reverse() && (ComparePadded(x, y) == Equal <==> x == y)
    {
      PaddedReverses(x, y, 0);
      EqualIsSame(x, y);
    }
    forall x, y, z | Valid(x) && Valid(y) && Valid(z) && ComparePadded(x, y) == Less && ComparePadded(y, z) == Less
      ensures ComparePadded(x, z) == Less
    {
      PaddedTransitive(x, y, z);
    }
  }

  // Trimming does not matter to the comparison: it is that of the untrimmed numbers.
  lemma TrimmedComparison(a: seq<D.Decimal>, b: seq<D.Decimal>)
    requires |a| >= 1 && |b| >= 1 && AllCanonical(a) && AllCanonical(b)
    ensures ComparePadded(TrimZeros(a), TrimZeros(b)) == ComparePadded(a, b)
  {
    var ta, tb := TrimZeros(a), TrimZeros(b);
    TrimIsValid(a);
    TrimIsValid(b);
    forall i: nat ensures Number(ta, i) == Number(a, i) && Number(tb, i) == Number(b, i) {
      TrimKeepsNumbers(a, i);
      TrimKeepsNumbers(b, i);
    }
    SameNumbersCompareSame(a, b, ta, tb);
  }

  // Only the numbers matter to the comparison.
  lemma SameNumbersCompareSame(a: seq<D.Decimal>, b: seq<D.Decimal>, x: seq<D.Decimal>, y: seq<D.Decimal>)
    requires AllCanonical(a) && AllCanonical(b) && AllCanonical(x) && AllCanonical(y)
    requires forall i: nat :: Number(x, i) == Number(a, i) && Number(y, i) == Number(b, i)
    ensures ComparePadded(x, y) == ComparePadded(a, b)
  {
    PaddedMeaning(x, y, 0);
    PaddedMeaning(a, b, 0);
    forall k: nat ensures LowerAt(x, y, 0, k) <==> LowerAt(a, b, 0, k) {
      SameLower(a, b, x, y, k);
    }
  }

  lemma SameLower(a: seq<D.Decimal>, b: seq<D.Decimal>, x: seq<D.Decimal>, y: seq<D.Decimal>, k: nat)
    requires AllCanonical(a) && AllCanonical(b) && AllCanonical(x) && AllCanonical(y)
    requires forall i: nat :: Number(x, i) == Number(a, i) && Number(y, i) == Number(b, i)
    ensures LowerAt(x, y, 0, k) <==> LowerAt(a, b, 0, k)
  {
  }

  // Two texts are the same version exactly when their numbers agree up to trailing zeros.
  lemma TextComparison(a: string, b: string)
    requires Parsed(a).Some? && Parsed(b).Some?
    ensures var x, y := ParseComponents(Text.Split(a, '.')).value, ParseComponents(Text.Split(b, '.')).value;
            && AllCanonical(x) && AllCanonical(y)
            && (ComparePadded(Parsed(a).value, Parsed(b).value) == Less <==> exists k :: LowerAt(x, y, 0, k))
            && (Parsed(a) == Parsed(b) <==> forall j: nat :: Number(x, j) == Number(y, j))
  {
    var x, y := ParseComponents(Text.Split(a, '.')).value, ParseComponents(Text.Split(b, '.')).value;
    ParsedComponents(Text.Split(a, '.'));
    ParsedComponents(Text.Split(b, '.'));
    ParsedIsValid(a);
    ParsedIsValid(b);
    TrimmedComparison(x, y);
    PaddedMeaning(x, y, 0);
    EqualIsSame(Parsed(a).value, Parsed(b).value);
  }
}
