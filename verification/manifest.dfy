// Normalising the releases of an update manifest.
module Manifests {
  import opened Results
  import SemVers
  import MacOsVersions

  const SCHEMA_VERSION: nat := 1
  const PRODUCT_ID := "com.cornellmethod.notebook"
  const TARGET_CHANNEL := "stable"
  const TARGET_ARCHITECTURE := "aarch64-apple-darwin"
  const TARGET_ARTIFACT_FORMAT := "app-archive"

  // `address` is the parsed form of the artifact's URL, if it has an accepted one.
  datatype RawArtifact = RawArtifact(
    artifactId: string, format: string, address: Option<string>, sizeBytes: nat, sha256: string)

  datatype Artifact = Artifact(artifactId: string, format: string, address: string, sizeBytes: nat, sha256: string)

  datatype Signature = Signature(keyId: string, proof: string)

  datatype RawRelease = RawRelease(
    channel: string, architecture: string, version: string, minVersion: string, maxVersionExclusive: Option<string>,
    artifact: RawArtifact, signature: Signature)

  datatype Release = Release(
    channel: string, version: SemVers.SemVer, architecture: string,
    minVersion: MacOsVersions.MacOsVersion, maxVersionExclusive: Option<MacOsVersions.MacOsVersion>,
    artifact: Artifact, signature: Signature)

  // What is remembered of a release to find duplicates: a set holds these by
  // their hashed fields, which leave out the build metadata.
  datatype DuplicateTarget = DuplicateTarget(
    channel: string, version: SemVers.SemVer, architecture: string,
    minVersion: MacOsVersions.MacOsVersion, maxVersionExclusive: Option<MacOsVersions.MacOsVersion>)

  datatype ManifestError =
    | UnsupportedSchema | InvalidProduct | UnsupportedProduct
    | InvalidRelease(index: nat) | DuplicateRelease(index: nat)

  predicate IsSha256(text: string) {
    |text| == 64 && forall i :: 0 <= i < |text| ==> '0' <= text[i] <= '9' || 'a' <= text[i] <= 'f'
  }

  function NormalizeArtifact(raw: RawArtifact): Option<Artifact> {
    if SemVers.NonEmptyText(raw.artifactId) && SemVers.NonEmptyText(raw.format) && raw.sizeBytes > 0
       && IsSha256(raw.sha256) && raw.address.Some?
    then Some(Artifact(raw.artifactId, raw.format, raw.address.value, raw.sizeBytes, raw.sha256))
    else None
  }

  predicate ValidSignature(signature: Signature) {
    SemVers.NonEmptyText(signature.keyId) && SemVers.NonEmptyText(signature.proof)
  }

  // The range of macOS versions, with a maximum above the minimum if there is one.
  function NormalizeRange(raw: RawRelease): Option<(MacOsVersions.MacOsVersion, Option<MacOsVersions.MacOsVersion>)> {
    match MacOsVersions.Parsed(raw.minVersion)
    case None => None
    case Some(min) =>
      if raw.maxVersionExclusive.None? then Some((min, None))
      else
        match MacOsVersions.Parsed(raw.maxVersionExclusive.value)
        case None => None
        case Some(max) => if MacOsVersions.ComparePadded(max, min) == Greater then Some((min, Some(max))) else None
  }

  function NormalizeRelease(raw: RawRelease): Option<Release> {
    var version, range, artifact := SemVers.Parse(raw.version), NormalizeRange(raw), NormalizeArtifact(raw.artifact);
    if SemVers.NonEmptyText(raw.channel) && SemVers.NonEmptyText(raw.architecture)
       && version.Some? && range.Some? && artifact.Some? && ValidSignature(raw.signature)
    then Some(Release(raw.channel, version.value, raw.architecture, range.value.0, range.value.1, artifact.value,
                      raw.signature))
    else None
  }

  predicate Wanted(release: Release) {
    && release.channel == TARGET_CHANNEL && release.version.preRelease == []
    && release.architecture == TARGET_ARCHITECTURE && release.artifact.format == TARGET_ARTIFACT_FORMAT
  }

  function TargetOf(release: Release): DuplicateTarget {
    DuplicateTarget(release.channel, SemVers.HashedFields(release.version), release.architecture,
                    release.minVersion, release.maxVersionExclusive)
  }

  predicate ValidRelease(release: Release) {
    && SemVers.Valid(release.version) && MacOsVersions.Valid(release.minVersion)
    && (release.maxVersionExclusive.Some? ==>
          && MacOsVersions.Valid(release.maxVersionExclusive.value)
          && MacOsVersions.ComparePadded(release.minVersion, release.maxVersionExclusive.value) == Less)
    && release.artifact.sizeBytes > 0 && IsSha256(release.artifact.sha256)
    && SemVers.NonEmptyText(release.channel) && SemVers.NonEmptyText(release.architecture)
    && SemVers.NonEmptyText(release.artifact.artifactId) && SemVers.NonEmptyText(release.artifact.format)
    && ValidSignature(release.signature)
  }

  // The same target, in terms of the comparisons.
  predicate SameTarget(a: Release, b: Release) {
    && a.channel == b.channel && a.architecture == b.architecture
    && SemVers.ComparePrecedence(a.version, b.version) == Equal
    && MacOsVersions.ComparePadded(a.minVersion, b.minVersion) == Equal
    && a.maxVersionExclusive.Some? == b.maxVersionExclusive.Some?
    && (a.maxVersionExclusive.Some? ==>
          MacOsVersions.ComparePadded(a.maxVersionExclusive.value, b.maxVersionExclusive.value) == Equal)
  }

  // Hashing agrees with the comparisons on every release that is let through.
  lemma SameTargetMeansSameHash(a: Release, b: Release)
    requires ValidRelease(a) && ValidRelease(b)
    ensures SameTarget(a, b) <==> TargetOf(a) == TargetOf(b)
  {
    SemVers.PrecedenceReverses(a.version, b.version);
    MacOsVersions.EqualIsSame(a.minVersion, b.minVersion);
    if a.maxVersionExclusive.Some? && b.maxVersionExclusive.Some? {
      MacOsVersions.EqualIsSame(a.maxVersionExclusive.value, b.maxVersionExclusive.value);
    }
  }

  lemma NormalizedIsValid(raw: RawRelease)
    requires NormalizeRelease(raw).Some?
    ensures ValidRelease(NormalizeRelease(raw).value)
  {
    var release := NormalizeRelease(raw).value;
    SemVers.RoundTrip(raw.version, release.version);
    MacOsVersions.ParsedIsValid(raw.minVersion);
    if release.maxVersionExclusive.Some? {
      MacOsVersions.ParsedIsValid(raw.maxVersionExclusive.value);
      MacOsVersions.PaddedReverses(release.minVersion, release.maxVersionExclusive.value, 0);
    }
  }

  predicate IsLowerHex(text: string) {
    forall i :: 0 <= i < |text| ==> text[i] in "0123456789abcdef"
  }

  lemma HexCharacter(c: char)
    ensures c in "0123456789abcdef" <==> '0' <= c <= '9' || 'a' <= c <= 'f'
  {
    var all := "0123456789abcdef";
    if '0' <= c <= '9' {
      assert all[c as int - '0' as int] == c;
    } else if 'a' <= c <= 'f' {
      assert all[c as int - 'a' as int + 10] == c;
    }
  }

  lemma Sha256Exactly(text: string)
    ensures IsSha256(text) <==> |text| == 64 && IsLowerHex(text)
  {
    forall i | 0 <= i < |text|
      ensures text[i] in "0123456789abcdef" <==> '0' <= text[i] <= '9' || 'a' <= text[i] <= 'f'
    {
      HexCharacter(text[i]);
    }
  }

  // What an artifact has to be, and what becomes of it.
  predicate ArtifactFrom(raw: RawArtifact, artifact: Artifact) {
    && artifact.artifactId == raw.artifactId && SemVers.NonEmptyText(raw.artifactId)
    && artifact.format == raw.format && SemVers.NonEmptyText(raw.format)
    && raw.address == Some(artifact.address)
    && artifact.sizeBytes == raw.sizeBytes >= 1
    && artifact.sha256 == raw.sha256 && |raw.sha256| == 64 && IsLowerHex(raw.sha256)
  }

  lemma ArtifactExactly(raw: RawArtifact, artifact: Artifact)
    ensures NormalizeArtifact(raw) == Some(artifact) <==> ArtifactFrom(raw, artifact)
  {
    Sha256Exactly(raw.sha256);
  }

  // The minimum and the maximum, which has to be above it.
  predicate RangeFrom(
      raw: RawRelease, min: MacOsVersions.MacOsVersion, max: Option<MacOsVersions.MacOsVersion>) {
    && MacOsVersions.Parsed(raw.minVersion) == Some(min)
    && (if raw.maxVersionExclusive.None? then max.None?
        else
          && MacOsVersions.Parsed(raw.maxVersionExclusive.value) == max && max.Some?
          && MacOsVersions.ComparePadded(min, max.value) == Less)
  }

  lemma RangeExactly(
      raw: RawRelease, min: MacOsVersions.MacOsVersion, max: Option<MacOsVersions.MacOsVersion>)
    ensures NormalizeRange(raw) == Some((min, max)) <==> RangeFrom(raw, min, max)
  {
    if MacOsVersions.Parsed(raw.minVersion).Some? && raw.maxVersionExclusive.Some?
       && MacOsVersions.Parsed(raw.maxVersionExclusive.value).Some? {
      MacOsVersions.ParsedIsValid(raw.minVersion);
      MacOsVersions.ParsedIsValid(raw.maxVersionExclusive.value);
      MacOsVersions.PaddedReverses(MacOsVersions.Parsed(raw.minVersion).value,
                                   MacOsVersions.Parsed(raw.maxVersionExclusive.value).value, 0);
    }
  }

  // Exactly what a release has to be to normalise, and what becomes of it.
  lemma NormalizesExactly(raw: RawRelease, release: Release)
    ensures NormalizeRelease(raw) == Some(release) <==>
              && SemVers.Parse(raw.version) == Some(release.version)
              && release.channel == raw.channel && SemVers.NonEmptyText(raw.channel)
              && release.architecture == raw.architecture && SemVers.NonEmptyText(raw.architecture)
              && RangeFrom(raw, release.minVersion, release.maxVersionExclusive)
              && ArtifactFrom(raw.artifact, release.artifact)
              && release.signature == raw.signature
              && SemVers.NonEmptyText(raw.signature.keyId) && SemVers.NonEmptyText(raw.signature.proof)
  {
    RangeExactly(raw, release.minVersion, release.maxVersionExclusive);
    ArtifactExactly(raw.artifact, release.artifact);
  }

  // ---- the whole manifest ----

  ghost predicate AllNormalize(raw: seq<RawRelease>) {
    forall i :: 0 <= i < |raw| ==> NormalizeRelease(raw[i]).Some?
  }

  ghost function Releases(raw: seq<RawRelease>): (releases: seq<Release>)
    requires AllNormalize(raw)
    ensures |releases| == |raw|
  {
    seq(|raw|, i requires 0 <= i < |raw| => NormalizeRelease(raw[i]).value)
  }

  ghost predicate AllValid(releases: seq<Release>) {
    forall i :: 0 <= i < |releases| ==> ValidRelease(releases[i])
  }

  // An earlier release has the same target.
  ghost predicate Clashes(releases: seq<Release>, release: Release) {
    exists j :: 0 <= j < |releases| && SameTarget(releases[j], release)
  }

  ghost predicate AllDistinct(releases: seq<Release>) {
    forall i, j :: 0 <= i < j < |releases| ==> !SameTarget(releases[i], releases[j])
  }

  // The wanted releases, in order.
  function Selected(raw: seq<RawRelease>): seq<Release> {
    if raw == [] then []
    else
      var last := NormalizeRelease(raw[|raw| - 1]);
      Selected(raw[..|raw| - 1]) + if last.Some? && Wanted(last.value) then [last.value] else []
  }

  ghost function Targets(releases: seq<Release>): set<DuplicateTarget> {
    set i | 0 <= i < |releases| :: TargetOf(releases[i])
  }

  // A target is seen again exactly when an earlier release has the same one.
  lemma SeenAgain(releases: seq<Release>, release: Release)
    requires AllValid(releases) && ValidRelease(release)
    ensures TargetOf(release) in Targets(releases) <==> Clashes(releases, release)
  {
    forall j | 0 <= j < |releases|
      ensures SameTarget(releases[j], release) <==> TargetOf(releases[j]) == TargetOf(release)
    {
      SameTargetMeansSameHash(releases[j], release);
    }
  }

  lemma OneMoreTarget(releases: seq<Release>, release: Release)
    ensures Targets(releases + [release]) == Targets(releases) + {TargetOf(release)}
  {
    var all := releases + [release];
    assert all[|releases|] == release;
    assert forall j :: 0 <= j < |releases| ==> all[j] == releases[j];
  }

  lemma OneMoreDistinct(releases: seq<Release>, release: Release)
    ensures AllDistinct(releases + [release]) <==> AllDistinct(releases) && !Clashes(releases, release)
  {
    var all := releases + [release];
    assert all[|releases|] == release;
    assert forall j :: 0 <= j < |releases| ==> all[j] == releases[j];
  }

  // One more release that normalises.
  lemma OneMoreNormalizes(raw: seq<RawRelease>, i: nat)
    requires i < |raw| && AllNormalize(raw[..i]) && NormalizeRelease(raw[i]).Some?
    ensures AllNormalize(raw[..i + 1])
    ensures Releases(raw[..i + 1]) == Releases(raw[..i]) + [NormalizeRelease(raw[i]).value]
  {
    var init := raw[..i + 1];
    forall j | 0 <= j < |init| ensures NormalizeRelease(init[j]).Some? {
      assert init[j] == if j < i then raw[..i][j] else raw[i];
    }
  }

  lemma OneMoreSelected(raw: seq<RawRelease>, i: nat)
    requires i < |raw| && NormalizeRelease(raw[i]).Some?
    ensures Selected(raw[..i + 1]) == Selected(raw[..i]) +
              (if Wanted(NormalizeRelease(raw[i]).value) then [NormalizeRelease(raw[i]).value] else [])
  {
    assert raw[..i + 1][..i] == raw[..i] && raw[..i + 1][i] == raw[i];
  }

  lemma ReleasesAreValid(raw: seq<RawRelease>)
    requires AllNormalize(raw)
    ensures AllValid(Releases(raw))
  {
    forall i | 0 <= i < |raw| ensures ValidRelease(Releases(raw)[i]) {
      NormalizedIsValid(raw[i]);
    }
  }

  // A duplicate in a prefix is a duplicate in the whole.
  lemma NotDistinct(raw: seq<RawRelease>, i: nat)
    requires i <= |raw| && AllNormalize(raw[..i]) && !AllDistinct(Releases(raw[..i]))
    ensures !(AllNormalize(raw) && AllDistinct(Releases(raw)))
  {
    if AllNormalize(raw) {
      assert forall j :: 0 <= j < i ==> Releases(raw[..i])[j] == Releases(raw)[j];
    }
  }

  // What a round of the loop finds and leaves.
  lemma OneRound(raw: seq<RawRelease>, i: nat, before: seq<Release>, release: Release)
    requires i < |raw| && AllNormalize(raw[..i]) && NormalizeRelease(raw[i]) == Some(release)
    requires before == Releases(raw[..i]) && AllDistinct(before)
    ensures TargetOf(release) in Targets(before) <==> Clashes(before, release)
    ensures AllNormalize(raw[..i + 1]) && Targets(Releases(raw[..i + 1])) == Targets(before) + {TargetOf(release)}
    ensures Selected(raw[..i + 1]) == Selected(raw[..i]) + if Wanted(release) then [release] else []
    ensures AllDistinct(Releases(raw[..i + 1])) <==> !Clashes(before, release)
    ensures Clashes(before, release) ==> !(AllNormalize(raw) && AllDistinct(Releases(raw)))
  {
    ReleasesAreValid(raw[..i]);
    NormalizedIsValid(raw[i]);
    SeenAgain(before, release);
    OneMoreNormalizes(raw, i);
    OneMoreSelected(raw, i);
    OneMoreDistinct(before, release);
    OneMoreTarget(before, release);
    if Clashes(before, release) {
      NotDistinct(raw, i + 1);
    }
  }

  // The first release that does not normalise, or that clashes with an earlier
  // one, ends the loop.
  ghost predicate FailsAt(error: ManifestError, raw: seq<RawRelease>) {
    && (error.InvalidRelease? || error.DuplicateRelease?)
    && var i := error.index;
       && i < |raw| && AllNormalize(raw[..i]) && AllDistinct(Releases(raw[..i]))
       && match NormalizeRelease(raw[i])
          case None => error.InvalidRelease?
          case Some(release) => error.DuplicateRelease? && Clashes(Releases(raw[..i]), release)
  }

  method NormalizeReleases(raw: seq<RawRelease>) returns (r: Result<seq<Release>, ManifestError>)
    ensures r.Ok? <==> AllNormalize(raw) && AllDistinct(Releases(raw))
    ensures r.Ok? ==> r.value == Selected(raw)
    ensures r.Err? ==> FailsAt(r.error, raw)
  {
    var seen: set<DuplicateTarget> := {};
    var selected := [];
    for i := 0 to |raw|
      invariant AllNormalize(raw[..i]) && AllDistinct(Releases(raw[..i]))
      invariant seen == Targets(Releases(raw[..i])) && selected == Selected(raw[..i])
    {
      var release := NormalizeRelease(raw[i]);
      if release.None? {
        return Err(InvalidRelease(i));
      }
      OneRound(raw, i, Releases(raw[..i]), release.value);
      if TargetOf(release.value) in seen {
        return Err(DuplicateRelease(i));
      }
      seen := seen + {TargetOf(release.value)};
      if Wanted(release.value) {
        selected := selected + [release.value];
      }
    }
    assert raw[..|raw|] == raw;
    r := Ok(selected);
  }

  // A manifest is accepted exactly when its header is supported, each release
  // normalises and no two have the same target; the wanted ones are kept in order.
  method NormalizeManifest(productId: string, schemaVersion: nat, raw: seq<RawRelease>)
      returns (r: Result<seq<Release>, ManifestError>)
    ensures r.Ok? <==>
      && productId == "com.cornellmethod.notebook" && schemaVersion == 1
      && AllNormalize(raw) && AllDistinct(Releases(raw))
    ensures r.Ok? ==> r.value == Selected(raw)
    ensures schemaVersion != 1 ==> r == Err(UnsupportedSchema)
    ensures schemaVersion == 1 && !SemVers.NonEmptyText(productId) ==> r == Err(InvalidProduct)
    ensures schemaVersion == 1 && SemVers.NonEmptyText(productId) && productId != "com.cornellmethod.notebook" ==>
      r == Err(UnsupportedProduct)
    ensures r.Err? && schemaVersion == 1 && productId == "com.cornellmethod.notebook" ==> FailsAt(r.error, raw)
  {
    if schemaVersion != SCHEMA_VERSION {
      return Err(UnsupportedSchema);
    }
    if !SemVers.NonEmptyText(productId) {
      return Err(InvalidProduct);
    }
    if productId != PRODUCT_ID {
      return Err(UnsupportedProduct);
    }
    r := NormalizeReleases(raw);
    ProductIsText();
  }

  lemma ProductIsText()
    ensures SemVers.NonEmptyText(PRODUCT_ID)
  {
  }

  // ---- what is selected ----

  // Selected are the stable releases (without a pre-release part) for Apple
  // silicon that are packed as an application archive, all of them.
  lemma {:induction false} SelectedMeaning(raw: seq<RawRelease>, release: Release)
    ensures release in Selected(raw) <==>
              && release.channel == "stable" && release.version.preRelease == []
              && release.architecture == "aarch64-apple-darwin" && release.artifact.format == "app-archive"
              && exists i :: 0 <= i < |raw| && NormalizeRelease(raw[i]) == Some(release)
  {
    if raw != [] {
      var n := |raw| - 1;
      SelectedMeaning(raw[..n], release);
      assert forall i :: 0 <= i < n ==> raw[..n][i] == raw[i];
      assert forall i :: 0 <= i < |raw| ==> i == n || raw[i] == raw[..n][i];
    }
  }
}
