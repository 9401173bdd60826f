// Downloading a package into the staging area: read, write, hash, verify, and
// only then publish; and checking a published package again later.
module StagedDownload {
  import opened Results

  const MAX_PACKAGE_BYTES: nat := 0x8000_0000 // 2 GiB

  type Bytes = seq<Byte>

  datatype DownloadError =
    | Network | Timeout | Size | Digest | Signature | SignatureKey | SignatureProof
    | StagingPath | StagingRead | StagingWrite | StagingRename | HttpStatus | ContentType | Redirect

  // ---- the response body ----

  function Flatten(chunks: seq<Bytes>): Bytes {
    if chunks == [] then [] else chunks[0] + Flatten(chunks[1..])
  }

  // Turns a response that comes in chunks of any size into reads of any size.
  class AsyncResponseBody {
    // What the connection still delivers, and whether it then ends or fails.
    var response: seq<Bytes>
    const endsWell: bool
    var pending: Bytes
    var pendingOffset: nat
    var finished: bool

    ghost predicate Valid()
      reads this
    {
      pendingOffset <= |pending| && (finished ==> response == [] && endsWell && pendingOffset == |pending|)
    }

    // All bytes that have not been read yet.
    ghost function Remaining(): Bytes
      requires Valid()
      reads this
    {
      pending[pendingOffset..] + Flatten(response)
    }

    constructor (response: seq<Bytes>, endsWell: bool)
      ensures Valid() && Remaining() == Flatten(response) && this.endsWell == endsWell
    {
      this.response := response;
      this.endsWell := endsWell;
      pending := [];
      pendingOffset := 0;
      finished := false;
    }

    // Copies pending bytes into the buffer.
    method CopyPending(buffer: array<Byte>) returns (count: nat)
      requires Valid() && buffer.Length > 0 && pendingOffset < |pending|
      modifies this`pendingOffset, buffer
      ensures Valid() && 0 < count <= buffer.Length
      ensures buffer[..count] + Remaining() == old(Remaining())
    {
      var available := |pending| - pendingOffset;
      count := if available < buffer.Length then available else buffer.Length;
      for i := 0 to count
        invariant pendingOffset == old(pendingOffset)
        invariant forall k :: 0 <= k < i ==> buffer[k] == pending[pendingOffset + k]
      {
        buffer[i] := pending[pendingOffset + i];
      }
      ghost var before := pending[pendingOffset..];
      assert before == buffer[..count] + pending[pendingOffset + count..];
      pendingOffset := pendingOffset + count;
    }

    // One read: the next bytes, or zero exactly at the end of the body.
    method Read(buffer: array<Byte>) returns (r: Option<nat>)
      requires Valid()
      modifies this, buffer
      ensures Valid()
      ensures r.Some? ==> r.value <= buffer.Length && buffer[..r.value] + Remaining() == old(Remaining())
      ensures r == Some(0) ==> buffer.Length == 0 || (Remaining() == [] && endsWell)
      ensures r.None? ==> old(Remaining()) == [] && !endsWell
    {
      if buffer.Length == 0 {
        return Some(0);
      }
      while true
        invariant Valid() && Remaining() == old(Remaining())
        decreases |response|, |pending| - pendingOffset
      {
        if pendingOffset < |pending| {
          var count := CopyPending(buffer);
          return Some(count);
        }
        if finished {
          return Some(0);
        }
        if response == [] {
          if !endsWell {
            return None;
          }
          finished := true;
          return Some(0);
        }
        pending := response[0];
        pendingOffset := 0;
        response := response[1..];
      }
    }
  }

  // ---- streaming into the part file ----

  class PackageFile {
    var data: Bytes

    constructor ()
      ensures data == []
    {
      data := [];
    }
  }

  // What the clock says at each look, and what the file system does: the
  // staging directories, both looks at the final path, writes by the number of
  // bytes in the file, creating, flushing, renaming, removing.
  datatype Conditions = Conditions(
    directories: Result<(), DownloadError>, looks: bool, looksAgain: bool,
    inTime: nat -> bool, writable: nat -> bool, creates: bool, flushes: bool, renames: bool, removes: bool)

  // The staging directories, the look at a cached package, opening it, and the
  // offset at which reading it fails.
  datatype Reading = Reading(directories: Result<(), DownloadError>, looks: bool, opens: bool, failsAt: Option<nat>)

  predicate Reads(reading: Reading, data: Bytes) {
    reading.opens && (reading.failsAt.Some? ==> reading.failsAt.value > |data|)
  }

  ghost predicate Streams(c: Conditions) {
    (forall n :: c.inTime(n)) && (forall n :: c.writable(n))
  }

  // The bytes of one read, none at the end of the body.
  method ReadPiece(body: AsyncResponseBody, buffer: array<Byte>) returns (r: Option<Bytes>)
    requires body.Valid() && buffer.Length > 0
    modifies body, buffer
    ensures body.Valid()
    ensures r.Some? ==> r.value + body.Remaining() == old(body.Remaining())
    ensures r == Some([]) ==> body.Remaining() == [] && body.endsWell
    ensures r.None? ==> !body.endsWell
  {
    var count := body.Read(buffer);
    if count.None? {
      return None;
    }
    r := Some(buffer[..count.value]);
  }

  lemma OnePieceMore(hashed: Bytes, piece: Bytes, rest: Bytes, before: Bytes, all: Bytes)
    requires hashed + before == all && piece + rest == before
    ensures (hashed + piece) + rest == all && |before| == |piece| + |rest|
    ensures |hashed + piece| <= |all|
  {
    assert hashed + (piece + rest) == (hashed + piece) + rest;
  }

  // What an error while streaming so many bytes says.
  ghost predicate StreamCause(error: DownloadError, length: nat, expectedSize: nat, endsWell: bool, c: Conditions) {
    match error
    case Timeout => exists n :: !c.inTime(n)
    case Network => !endsWell
    case Size => length > expectedSize || length > 2_147_483_648
    case StagingWrite => exists n :: !c.writable(n)
    case _ => false
  }

  // Reads the whole body, counting, writing and hashing as it goes. `hashed`
  // is what went into the digest.
  method StreamPackageBytes(
      body: AsyncResponseBody, file: PackageFile, expectedSize: nat, bufferSize: nat, c: Conditions)
      returns (r: Result<nat, DownloadError>, hashed: Bytes)
    requires body.Valid() && bufferSize > 0 && file.data == []
    modifies body, file
    ensures body.Valid()
    ensures r.Ok? ==> body.Remaining() == [] && body.endsWell
    ensures r.Ok? ==> file.data == hashed == old(body.Remaining()) && r.value == |hashed|
    ensures r.Ok? ==> r.value <= expectedSize && r.value <= MAX_PACKAGE_BYTES
    ensures (body.endsWell && |old(body.Remaining())| <= expectedSize && |old(body.Remaining())| <= MAX_PACKAGE_BYTES
             && Streams(c)) ==> r.Ok?
    ensures r.Err? ==> StreamCause(r.error, |old(body.Remaining())|, expectedSize, body.endsWell, c)
  {
    var buffer := new Byte[bufferSize](_ => 0);
    ghost var all := body.Remaining();
    var actual, looks := 0, 0;
    hashed := [];
    while true
      invariant body.Valid() && fresh(buffer) && buffer.Length > 0
      invariant file.data == hashed && actual == |hashed| && hashed + body.Remaining() == all
      invariant actual <= expectedSize && actual <= MAX_PACKAGE_BYTES
      decreases |body.Remaining()|
    {
      if !c.inTime(looks) {
        return Err(Timeout), hashed;
      }
      ghost var before := body.Remaining();
      var piece := ReadPiece(body, buffer);
      if piece.None? {
        return Err(if c.inTime(looks + 1) then Network else Timeout), hashed;
      }
      if !c.inTime(looks + 1) {
        return Err(Timeout), hashed;
      }
      looks := looks + 2;
      if piece.value == [] {
        break;
      }
      OnePieceMore(hashed, piece.value, body.Remaining(), before, all);
      actual := actual + |piece.value|;
      if actual > MAX_PACKAGE_BYTES || actual > expectedSize {
        return Err(Size), hashed;
      }
      if !c.writable(actual) {
        return Err(StagingWrite), hashed;
      }
      file.data := file.data + piece.value;
      hashed := hashed + piece.value;
    }
    assert hashed + [] == hashed;
    r := Ok(actual);
  }

  // ---- publishing ----

  // `accepted` stands for the checks on the release's format and address, and
  // for a well-formed digest.
  datatype Release = Release(sizeBytes: nat, sha256: string, accepted: bool)

  datatype Node = Regular(data: Bytes) | Other

  datatype Cached = Missing | Invalid(error: DownloadError, removable: bool) | Verified

  // The digest of some bytes, in hexadecimal, and the signature check.
  type Hash = Bytes -> string
  type Verifier = (Release, nat, string) -> Option<DownloadError>

  predicate ReleaseOk(release: Release) {
    release.accepted && 0 < release.sizeBytes <= MAX_PACKAGE_BYTES
  }

  // What an error of the whole download says; `taken` and `begun` tell whether
  // the package or its part file was there before.
  ghost predicate Cause(
      error: DownloadError, release: Release, data: Bytes, endsWell: bool, response: Result<(), DownloadError>,
      hash: Hash, verifier: Verifier, c: Conditions, taken: bool, begun: bool) {
    || response == Err(error) || c.directories == Err(error)
    || verifier(release, |data|, release.sha256) == Some(error)
    || match error
       case Size => !release.accepted || release.sizeBytes < 1 || release.sizeBytes > 2_147_483_648
                    || |data| != release.sizeBytes
       case Digest => hash(data) != release.sha256
       case Timeout => exists n :: !c.inTime(n)
       case Network => !endsWell
       case StagingPath => taken || begun
       case StagingRead => !c.looks || !c.looksAgain
       case StagingWrite => !c.creates || !c.flushes || !c.removes || exists n :: !c.writable(n)
       case StagingRename => !c.renames
       case _ => false
  }

  // These bytes are the package of the release.
  predicate IsPackage(release: Release, data: Bytes, hash: Hash, verifier: Verifier) {
    && |data| == release.sizeBytes && hash(data) == release.sha256
    && verifier(release, |data|, release.sha256).None?
  }

  class StagingArea {
    var incoming: map<string, Bytes>
    var packages: map<string, Node>

    constructor (incoming: map<string, Bytes>, packages: map<string, Node>)
      ensures this.incoming == incoming && this.packages == packages
    {
      this.incoming := incoming;
      this.packages := packages;
    }

    // Removes the part file and reports the error, or the failure to do that.
    method CleanupPart(name: string, error: DownloadError, c: Conditions) returns (e: DownloadError)
      requires name in incoming
      modifies this`incoming
      ensures if c.removes then e == error && incoming == old(incoming) - {name}
              else e == StagingWrite && incoming == old(incoming)
    {
      if !c.removes {
        return StagingWrite;
      }
      incoming := incoming - {name};
      e := error;
    }

    // Checks a streamed package before anything is published.
    method CheckPackage(release: Release, size: nat, hashed: Bytes, hash: Hash, verifier: Verifier, c: Conditions)
        returns (r: Result<(), DownloadError>)
      requires size == |hashed|
      ensures r.Ok? <==> IsPackage(release, hashed, hash, verifier) && c.flushes
      ensures r == Err(Size) || r == Err(Digest) || r == Err(StagingWrite) || r.Ok?
              || verifier(release, size, release.sha256) == Some(r.error)
      ensures size != release.sizeBytes ==> r == Err(Size)
      ensures size == release.sizeBytes && hash(hashed) != release.sha256 ==> r == Err(Digest)
      ensures size == release.sizeBytes && hash(hashed) == release.sha256 && !c.flushes ==> r == Err(StagingWrite)
      ensures r.Err? && size == release.sizeBytes && hash(hashed) == release.sha256 && c.flushes ==>
        verifier(release, size, release.sha256) == Some(r.error)
    {
      if size != release.sizeBytes {
        return Err(Size);
      }
      if hash(hashed) != release.sha256 {
        return Err(Digest);
      }
      if !c.flushes {
        return Err(StagingWrite);
      }
      match verifier(release, size, release.sha256)
      case Some(error) => r := Err(error);
      case None => r := Ok(());
    }

    method Publish(release: Release, data: Bytes, c: Conditions) returns (r: Result<(), DownloadError>)
      requires release.sha256 in incoming && incoming[release.sha256] == data
      modifies this
      ensures r.Ok? <==> c.looksAgain && release.sha256 !in old(packages) && c.renames
      ensures !c.looksAgain ==> r == Err(StagingRead)
      ensures c.looksAgain && release.sha256 in old(packages) ==> r == Err(StagingPath)
      ensures c.looksAgain && release.sha256 !in old(packages) && !c.renames ==> r == Err(StagingRename)
      ensures r.Ok? ==>
        packages == old(packages)[release.sha256 := Regular(data)] && incoming == old(incoming) - {release.sha256}
      ensures r.Err? ==> packages == old(packages) && incoming == old(incoming)
    {
      if !c.looksAgain {
        return Err(StagingRead);
      }
      if release.sha256 in packages {
        return Err(StagingPath);
      }
      if !c.renames {
        return Err(StagingRename);
      }
      packages := packages[release.sha256 := Regular(data)];
      incoming := incoming - {release.sha256};
      r := Ok(());
    }

    // Downloads one release. The published bytes, the hashed bytes and the
    // body are the same; on an error nothing is published, and a part file of
    // this call is left exactly when it could not be removed, which is then
    // the error.
    method DownloadAndVerifyArtifact(
        release: Release, body: AsyncResponseBody, response: Result<(), DownloadError>,
        hash: Hash, verifier: Verifier, bufferSize: nat, c: Conditions) returns (r: Result<(), DownloadError>)
      requires body.Valid() && bufferSize > 0
      modifies this, body
      ensures r.Ok? ==>
        var data := old(body.Remaining());
        && release.accepted && 1 <= release.sizeBytes <= 2_147_483_648
        && IsPackage(release, data, hash, verifier) && release.sha256 !in old(packages)
        && c.directories.Ok?
        && packages == old(packages)[release.sha256 := Regular(data)] && incoming == old(incoming)
      ensures r.Err? ==>
        Cause(r.error, release, old(body.Remaining()), body.endsWell, response, hash, verifier, c,
              release.sha256 in old(packages), release.sha256 in old(incoming))
      ensures r.Err? ==> packages == old(packages)
      ensures r.Err? ==>
        || incoming == old(incoming)
        || (r.error == StagingWrite && !c.removes && release.sha256 !in old(incoming)
            && incoming.Keys == old(incoming).Keys + {release.sha256} && incoming - {release.sha256} == old(incoming))
      ensures (release.accepted && 1 <= release.sizeBytes <= 2_147_483_648
               && response.Ok? && c.directories.Ok? && c.looks && c.looksAgain
               && c.creates && c.flushes && c.renames && Streams(c) && body.endsWell
               && release.sha256 !in old(packages) && release.sha256 !in old(incoming)
               && IsPackage(release, old(body.Remaining()), hash, verifier)) ==> r.Ok?
    {
      if !ReleaseOk(release) {
        return Err(Size);
      }
      if c.directories.Err? {
        return Err(c.directories.error);
      }
      if !c.looks {
        return Err(StagingRead);
      }
      if release.sha256 in packages {
        return Err(StagingPath);
      }
      if response.Err? {
        return Err(response.error);
      }
      if release.sha256 in incoming {
        return Err(StagingPath);
      }
      if !c.creates {
        return Err(StagingWrite);
      }
      r := StreamAndPublish(release, body, hash, verifier, bufferSize, c);
    }

    // From the new part file on.
    method StreamAndPublish(
        release: Release, body: AsyncResponseBody, hash: Hash, verifier: Verifier, bufferSize: nat, c: Conditions)
        returns (r: Result<(), DownloadError>)
      requires body.Valid() && bufferSize > 0
      requires release.sha256 !in packages && release.sha256 !in incoming
      modifies this, body
      ensures r.Ok? ==>
        var data := old(body.Remaining());
        && IsPackage(release, data, hash, verifier)
        && packages == old(packages)[release.sha256 := Regular(data)] && incoming == old(incoming)
      ensures r.Err? && 1 <= release.sizeBytes <= 2_147_483_648 ==>
        Cause(r.error, release, old(body.Remaining()), body.endsWell, Ok(()), hash, verifier, c, false, false)
      ensures r.Err? ==> packages == old(packages)
      ensures r.Err? ==> if c.removes then incoming == old(incoming)
              else r.error == StagingWrite && incoming.Keys == old(incoming).Keys + {release.sha256}
                   && incoming - {release.sha256} == old(incoming)
      ensures (c.looksAgain && c.flushes && c.renames && Streams(c) && body.endsWell
               && release.sizeBytes <= MAX_PACKAGE_BYTES
               && IsPackage(release, old(body.Remaining()), hash, verifier)) ==> r.Ok?
    {
      var file := new PackageFile();
      var streamed, hashed := StreamPackageBytes(body, file, release.sizeBytes, bufferSize, c);
      incoming := incoming[release.sha256 := file.data];
      assert incoming - {release.sha256} == old(incoming);
      if streamed.Err? {
        var error := CleanupPart(release.sha256, streamed.error, c);
        return Err(error);
      }
      var checked := CheckPackage(release, streamed.value, hashed, hash, verifier, c);
      if checked.Err? {
        var error := CleanupPart(release.sha256, checked.error, c);
        return Err(error);
      }
      r := Publish(release, file.data, c);
      if r.Err? {
        var error := CleanupPart(release.sha256, r.error, c);
        return Err(error);
      }
    }

    // Reads a package in pieces of any size; reading may fail on the way.
    method HashCachedPackage(data: Bytes, failsAt: Option<nat>) returns (r: Result<(nat, Bytes), DownloadError>)
      ensures r.Ok? <==> |data| <= 2_147_483_648 && (failsAt.Some? ==> failsAt.value > |data|)
      ensures r.Ok? ==> r.value == (|data|, data)
      ensures r.Err? ==> r.error == StagingRead || r.error == Size
      ensures r == Err(StagingRead) ==> failsAt.Some? && failsAt.value <= |data|
      ensures r == Err(Size) ==> |data| > 2_147_483_648
    {
      var actual := 0;
      var hashed: Bytes := [];
      while true
        invariant actual <= |data| && hashed == data[..actual] && actual <= MAX_PACKAGE_BYTES
        invariant failsAt.Some? ==> actual <= failsAt.value
        decreases |data| - actual
      {
        if failsAt == Some(actual) {
          return Err(StagingRead);
        }
        if actual == |data| {
          break;
        }
        var bytesRead: nat :|
          0 < bytesRead && actual + bytesRead <= |data| && (failsAt.Some? ==> actual + bytesRead <= failsAt.value);
        var piece := data[actual..actual + bytesRead];
        actual := actual + bytesRead;
        if actual > MAX_PACKAGE_BYTES {
          return Err(Size);
        }
        hashed := hashed + piece;
      }
      assert data[..|data|] == data;
      r := Ok((actual, hashed));
    }

    // A regular file of the right size stands at the release's path, so that it
    // has to be read.
    predicate HasToBeRead(release: Release)
      reads this
    {
      && release.sha256 in packages && packages[release.sha256].Regular?
      && |packages[release.sha256].data| == release.sizeBytes
    }

    // What a package in the staging area is: verified exactly when its bytes
    // can be read and are the release's package.
    method RevalidateCachedArtifact(release: Release, hash: Hash, verifier: Verifier, reading: Reading)
        returns (r: Result<Cached, DownloadError>)
      ensures r.Ok? <==>
        && ReleaseOk(release) && reading.directories.Ok? && reading.looks
        && (HasToBeRead(release) ==> Reads(reading, packages[release.sha256].data))
      ensures r == Ok(Missing) <==>
        ReleaseOk(release) && reading.directories.Ok? && reading.looks && release.sha256 !in packages
      ensures r == Ok(Verified) <==>
        && ReleaseOk(release) && reading.directories.Ok? && reading.looks
        && release.sha256 in packages && packages[release.sha256].Regular?
        && IsPackage(release, packages[release.sha256].data, hash, verifier)
        && Reads(reading, packages[release.sha256].data)
      ensures r.Ok? && r.value.Invalid? ==>
        release.sha256 in packages && (r.value.removable <==> packages[release.sha256].Regular?)
      ensures r.Ok? && r.value.Invalid? ==>
        var node := packages[release.sha256];
        if !node.Regular? then r.value.error == StagingPath
        else if |node.data| != release.sizeBytes then r.value.error == Size
        else if hash(node.data) != release.sha256 then r.value.error == Digest
        else verifier(release, |node.data|, release.sha256) == Some(r.value.error)
      ensures r.Err? ==>
        || reading.directories == Err(r.error)
        || (r.error == Size && !(release.accepted && 1 <= release.sizeBytes <= 2_147_483_648))
        || (r.error == StagingRead
            && (!reading.looks || (HasToBeRead(release) && !Reads(reading, packages[release.sha256].data))))
    {
      if !ReleaseOk(release) {
        return Err(Size);
      }
      if reading.directories.Err? {
        return Err(reading.directories.error);
      }
      if !reading.looks {
        return Err(StagingRead);
      }
      if release.sha256 !in packages {
        return Ok(Missing);
      }
      var node := packages[release.sha256];
      if !node.Regular? {
        return Ok(Invalid(StagingPath, false));
      }
      if |node.data| != release.sizeBytes {
        return Ok(Invalid(Size, true));
      }
      if !reading.opens {
        return Err(StagingRead);
      }
      var hashed := HashCachedPackage(node.data, reading.failsAt);
      if hashed.Err? {
        return Err(hashed.error);
      }
      if hash(hashed.value.1) != release.sha256 {
        return Ok(Invalid(Digest, true));
      }
      match verifier(release, hashed.value.0, release.sha256)
      case Some(error) => r := Ok(Invalid(error, true));
      case None => r := Ok(Verified);
    }

    // Downloading and then checking: the checked package is verified, if it can
    // be read at all.
    method DownloadThenRevalidate(
        release: Release, body: AsyncResponseBody, hash: Hash, verifier: Verifier, bufferSize: nat, c: Conditions,
        reading: Reading) returns (downloaded: Result<(), DownloadError>, cached: Result<Cached, DownloadError>)
      requires body.Valid() && bufferSize > 0
      modifies this, body
      ensures downloaded.Ok? && cached.Ok? ==> cached == Ok(Verified)
      ensures downloaded.Ok? && reading == Reading(Ok(()), true, true, None) ==> cached == Ok(Verified)
    {
      downloaded := DownloadAndVerifyArtifact(release, body, Ok(()), hash, verifier, bufferSize, c);
      cached := RevalidateCachedArtifact(release, hash, verifier, reading);
    }
  }
}
