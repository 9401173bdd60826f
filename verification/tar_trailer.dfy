// The streaming archive reader: a running byte count, a sliding window over the
// last two tar blocks, and the verdict on the bytes behind the entries.
module TarTrailer {
  import opened Results
  import opened ArchiveErrors

  const MAX_EXPANDED_BYTES: nat := 0x2_0000_0000 // 8 GiB
  const TAR_BLOCK_BYTES: nat := 512
  const WINDOW_BYTES: nat := 1024
  const U64_MAX: nat := 0xFFFF_FFFF_FFFF_FFFF

  datatype StreamError = LimitExceeded | DecoderFailure

  function Min(a: nat, b: nat): nat { if a <= b then a else b }

  // The last `count` elements, or all of them when there are fewer.
  function Suffix(s: seq<Byte>, count: nat): (r: seq<Byte>)
    ensures |r| == Min(count, |s|)
  {
    s[|s| - Min(count, |s|)..]
  }

  predicate AllZero(s: seq<Byte>) {
    forall i :: 0 <= i < |s| ==> s[i] == 0
  }

  // What the end of the archive means for a stream that delivered `entries`
  // up to where reading the entries stopped (a zero block that ends them is
  // among these) and then `trailer`.
  ghost function TrailerVerdict(entries: seq<Byte>, trailer: seq<Byte>, decoderFails: bool): Result<(), ArchiveError> {
    if |entries| + |trailer| > MAX_EXPANDED_BYTES then Err(ArchiveLimit)
    else if decoderFails then Err(ArchiveGzip)
    else if |trailer| < TAR_BLOCK_BYTES then Err(ArchiveTar)
    else if !AllZero(trailer) then Err(ArchiveTrailingData)
    else if |entries| + |trailer| < WINDOW_BYTES then Err(ArchiveTar)
    else if !AllZero(Suffix(entries + trailer, WINDOW_BYTES)) then Err(ArchiveTar)
    else Ok(())
  }

  class LimitedArchiveReader {
    // What the decoder will still deliver, and whether it fails after that.
    var source: seq<Byte>
    const decoderFails: bool

    var decompressedBytes: nat
    var trailerBytes: nat
    var trailerNonzero: bool
    var trackingTrailer: bool
    const lastBytes: array<Byte>
    var lastLen: nat

    ghost var delivered: seq<Byte>
    ghost var trailer: seq<Byte>

    // The window is exactly the last bytes delivered so far.
    ghost predicate WindowHolds()
      reads this, lastBytes
    {
      && lastBytes.Length == WINDOW_BYTES
      && lastLen <= WINDOW_BYTES
      && lastBytes[..lastLen] == Suffix(delivered, WINDOW_BYTES)
    }

    ghost predicate TrailerCounted()
      reads this
    {
      && |trailer| <= |delivered|
      && (trackingTrailer ==> trailerBytes == |trailer| && trailerNonzero == !AllZero(trailer))
    }

    ghost predicate Valid()
      reads this, lastBytes
    {
      && decompressedBytes == |delivered| <= MAX_EXPANDED_BYTES
      && WindowHolds()
      && TrailerCounted()
    }

    constructor (source: seq<Byte>, decoderFails: bool)
      ensures Valid() && fresh(lastBytes)
      ensures this.source == source && this.decoderFails == decoderFails
      ensures delivered == [] && trailer == [] && !trackingTrailer
    {
      this.source := source;
      this.decoderFails := decoderFails;
      decompressedBytes := 0;
      trailerBytes := 0;
      trailerNonzero := false;
      trackingTrailer := false;
      lastBytes := new Byte[WINDOW_BYTES](_ => 0);
      lastLen := 0;
      delivered := [];
      trailer := [];
      new;
      EmptyWindow(lastBytes);
    }

    // Counts the bytes that follow the entries.
    method CountTrailer(bytes: seq<Byte>)
      requires trackingTrailer ==> trailerBytes == |trailer| <= MAX_EXPANDED_BYTES - |bytes|
      requires trackingTrailer ==> trailerNonzero == !AllZero(trailer)
      modifies this`trailerBytes, this`trailerNonzero, this`trailer
      ensures trailer == if trackingTrailer then old(trailer) + bytes else old(trailer)
      ensures trackingTrailer ==> trailerBytes == |trailer| && trailerNonzero == !AllZero(trailer)
    {
      if trackingTrailer {
        trailerBytes := Min(trailerBytes + |bytes|, U64_MAX);
        if !AllZero(bytes) {
          trailerNonzero := true;
        }
        AllZeroAppend(trailer, bytes);
        trailer := trailer + bytes;
      }
    }

    // `copy_from_slice` into the window at an offset.
    method Fill(offset: nat, bytes: seq<Byte>)
      requires offset + |bytes| <= lastBytes.Length
      modifies lastBytes
      ensures lastBytes[..] == old(lastBytes[..offset]) + bytes + old(lastBytes[offset + |bytes|..])
    {
      forall i | 0 <= i < |bytes| {
        lastBytes[offset + i] := bytes[i];
      }
    }

    // Slides the window in place over the bytes just read.
    method SlideWindow(bytes: seq<Byte>, ghost before: seq<Byte>)
      requires lastBytes.Length == WINDOW_BYTES && lastLen <= WINDOW_BYTES
      requires lastBytes[..lastLen] == Suffix(before, WINDOW_BYTES)
      modifies this`lastLen, lastBytes
      ensures lastLen <= WINDOW_BYTES
      ensures lastBytes[..lastLen] == Suffix(before + bytes, WINDOW_BYTES)
    {
      if |bytes| >= lastBytes.Length {
        Fill(0, bytes[|bytes| - lastBytes.Length..]);
        lastLen := lastBytes.Length;
        assert lastBytes[..lastLen] == bytes[|bytes| - WINDOW_BYTES..];
        assert Suffix(before + bytes, WINDOW_BYTES) == bytes[|bytes| - WINDOW_BYTES..];
        return;
      }
      var keep := Min(lastLen, lastBytes.Length - |bytes|);
      ghost var window := lastBytes[..lastLen];
      Fill(0, lastBytes[lastLen - keep..lastLen]);
      assert lastBytes[..keep] == window[|window| - keep..];
      Fill(keep, bytes);
      lastLen := keep + |bytes|;
      assert lastBytes[..lastLen] == window[|window| - keep..] + bytes;
      SuffixSlides(before, bytes);
    }

    method RecordOutput(bytes: seq<Byte>)
      requires WindowHolds() && TrailerCounted()
      requires |delivered| + |bytes| <= MAX_EXPANDED_BYTES
      modifies this`trailerBytes, this`trailerNonzero, this`lastLen, this`delivered, this`trailer, lastBytes
      ensures WindowHolds() && TrailerCounted()
      ensures delivered == old(delivered) + bytes
      ensures trailer == if trackingTrailer then old(trailer) + bytes else old(trailer)
    {
      CountTrailer(bytes);
      SlideWindow(bytes, delivered);
      delivered := delivered + bytes;
    }

    // The decoder under the reader: it may deliver fewer bytes than asked for,
    // and zero bytes mean the end of the stream.
    method Decode(buffer: array<Byte>) returns (r: Result<nat, StreamError>)
      requires buffer.Length > 0
      modifies this`source, buffer
      ensures r.Ok? ==>
        && r.value <= buffer.Length && r.value <= |old(source)|
        && buffer[..r.value] == old(source)[..r.value]
        && source == old(source)[r.value..]
      ensures r == Ok(0) ==> old(source) == [] && !decoderFails
      ensures r.Err? ==> r.error == DecoderFailure && old(source) == [] && decoderFails
    {
      if source == [] {
        return if decoderFails then Err(DecoderFailure) else Ok(0);
      }
      var bytesRead: nat :| 0 < bytesRead <= buffer.Length && bytesRead <= |source|;
      forall i | 0 <= i < bytesRead {
        buffer[i] := source[i];
      }
      source := source[bytesRead..];
      r := Ok(bytesRead);
    }

    // One read into a buffer of any size.
    method Read(buffer: array<Byte>) returns (r: Result<nat, StreamError>)
      requires Valid() && buffer != lastBytes
      modifies this, lastBytes, buffer
      ensures r.Ok? ==> Valid()
      ensures trackingTrailer == old(trackingTrailer)
      ensures r.Ok? ==>
        && r.value <= buffer.Length && r.value <= |old(source)|
        && buffer[..r.value] == old(source)[..r.value]
        && source == old(source)[r.value..]
        && delivered == old(delivered) + old(source)[..r.value]
        && trailer == (if trackingTrailer then old(trailer) + old(source)[..r.value] else old(trailer))
      ensures buffer.Length > 0 && r == Ok(0) ==> old(source) == [] && !decoderFails
      ensures r.Err? ==>
        if r.error.LimitExceeded? then |old(delivered)| + Min(buffer.Length, |old(source)|) > MAX_EXPANDED_BYTES
        else old(source) == [] && decoderFails
    {
      if buffer.Length == 0 {
        return Ok(0);
      }
      r := Decode(buffer);
      if r.Err? || r.value == 0 {
        return;
      }
      var bytes := buffer[..r.value];
      var nextTotal := decompressedBytes + r.value;
      if nextTotal > MAX_EXPANDED_BYTES {
        return Err(LimitExceeded);
      }
      decompressedBytes := nextTotal;
      RecordOutput(bytes);
    }

    // One read of at most `limit` bytes that are there.
    method ReadPiece(limit: nat) returns (r: Result<nat, StreamError>)
      requires Valid() && 0 < limit && source != []
      modifies this, lastBytes
      ensures r.Ok? ==>
        && Valid() && 0 < r.value <= limit && r.value <= |old(source)|
        && source == old(source)[r.value..] && delivered == old(delivered) + old(source)[..r.value]
      ensures r.Err? ==> |old(delivered)| + limit > MAX_EXPANDED_BYTES
    {
      var buffer := new Byte[limit];
      r := Read(buffer);
    }

    // Reads as many bytes as the entries take, in reads of any size.
    method ReadEntries(count: nat, bufferBytes: nat) returns (r: Result<(), ArchiveError>)
      requires Valid() && count <= |source| && bufferBytes > 0
      modifies this, lastBytes
      ensures r.Ok? <==> |old(delivered)| + count <= MAX_EXPANDED_BYTES
      ensures r.Ok? ==>
        Valid() && delivered == old(delivered) + old(source)[..count] && source == old(source)[count..]
      ensures r.Err? ==> r.error == ArchiveLimit
    {
      ghost var first, all := delivered, source;
      var read := 0;
      while read < count
        invariant Valid() && read <= count <= |all|
        invariant delivered == first + all[..read] && source == all[read..]
      {
        assert |delivered| == |first| + read && |source| == |all| - read > 0;
        var piece := ReadPiece(Min(count - read, bufferBytes));
        if piece.Err? {
          return Err(ArchiveLimit);
        }
        assert all[..read] + all[read..][..piece.value] == all[..read + piece.value];
        read := read + piece.value;
      }
      r := Ok(());
    }

    method BeginTarTrailer()
      requires Valid()
      modifies this
      ensures Valid() && trackingTrailer && trailer == []
      ensures source == old(source) && delivered == old(delivered)
    {
      trackingTrailer := true;
      trailerBytes := 0;
      trailerNonzero := false;
      trailer := [];
    }

    // Reads until the decoder reports the end of the stream.
    method Drain(bufferBytes: nat) returns (r: Result<(), ArchiveError>)
      requires Valid() && trackingTrailer && trailer == [] && bufferBytes > 0
      modifies this, lastBytes
      ensures r == if |old(delivered)| + |old(source)| > MAX_EXPANDED_BYTES then Err(ArchiveLimit)
                   else if decoderFails then Err(ArchiveGzip) else Ok(())
      ensures r.Ok? ==>
        && Valid() && trackingTrailer
        && trailer == old(source) && delivered == old(delivered) + old(source)
    {
      var buffer := new Byte[bufferBytes];
      ghost var entries := delivered;
      ghost var rest := source;
      while true
        invariant Valid() && trackingTrailer && buffer != lastBytes
        invariant delivered == entries + trailer
        invariant rest == trailer + source
        decreases |source|
      {
        assert |rest| == |trailer| + |source| && |delivered| == |entries| + |trailer|;
        var outcome := Read(buffer);
        match outcome
        case Err(LimitExceeded) =>
          return Err(ArchiveLimit);
        case Err(DecoderFailure) =>
          return Err(ArchiveGzip);
        case Ok(bytesRead) =>
          if bytesRead == 0 {
            assert rest == trailer;
            return Ok(());
          }
      }
    }

    // Reads to the end and judges the trailer. The verdict depends on the
    // bytes alone: how the decoder cuts them into reads makes no difference.
    method FinishTarStream(bufferBytes: nat) returns (r: Result<(), ArchiveError>)
      requires Valid() && bufferBytes > 0
      modifies this, lastBytes
      ensures r == TrailerVerdict(old(delivered), old(source), decoderFails)
    {
      BeginTarTrailer();
      r := Drain(bufferBytes);
      if r.Ok? {
        r := JudgeTrailer();
      }
    }

    method JudgeTrailer() returns (r: Result<(), ArchiveError>)
      requires Valid() && trackingTrailer
      ensures |trailer| < TAR_BLOCK_BYTES ==> r == Err(ArchiveTar)
      ensures |trailer| >= TAR_BLOCK_BYTES && !AllZero(trailer) ==> r == Err(ArchiveTrailingData)
      ensures |trailer| >= TAR_BLOCK_BYTES && AllZero(trailer) ==>
        r == if |delivered| < WINDOW_BYTES || !AllZero(Suffix(delivered, WINDOW_BYTES)) then Err(ArchiveTar) else Ok(())
    {
      if trailerBytes < TAR_BLOCK_BYTES {
        return Err(ArchiveTar);
      }
      if trailerNonzero {
        return Err(ArchiveTrailingData);
      }
      if lastLen < WINDOW_BYTES || !AllZero(lastBytes[..WINDOW_BYTES]) {
        return Err(ArchiveTar);
      }
      r := Ok(());
    }
  }

  // A package as it decodes: the bytes up to where reading the entries stops,
  // the bytes after them, whether the decoder then fails, and what is left in the
  // file behind the decoded stream.
  datatype Stream = Stream(entries: seq<Byte>, trailer: seq<Byte>, decoderFails: bool, rest: seq<Byte>)

  ghost predicate EndsWell(stream: Stream) {
    && TrailerVerdict(stream.entries, stream.trailer, stream.decoderFails).Ok?
    && stream.rest == []
  }

  // What each code tells about the end of the package.
  ghost predicate EndsBadly(stream: Stream, error: ArchiveError) {
    || TrailerVerdict(stream.entries, stream.trailer, stream.decoderFails) == Err(error)
    || (error == ArchiveTrailingData && stream.rest != [])
  }

  // Reads a package up to where its entries stop.
  method OpenArchive(stream: Stream, bufferBytes: nat)
      returns (r: Result<(), ArchiveError>, reader: LimitedArchiveReader)
    requires bufferBytes > 0
    ensures fresh(reader) && fresh(reader.lastBytes)
    ensures r.Ok? <==> |stream.entries| <= MAX_EXPANDED_BYTES
    ensures r.Err? ==> r.error == ArchiveLimit
    ensures r.Ok? ==>
      && reader.Valid() && reader.delivered == stream.entries && reader.source == stream.trailer
      && reader.decoderFails == stream.decoderFails
  {
    reader := new LimitedArchiveReader(stream.entries + stream.trailer, stream.decoderFails);
    r := reader.ReadEntries(|stream.entries|, bufferBytes);
    assert (stream.entries + stream.trailer)[..|stream.entries|] == stream.entries;
    assert (stream.entries + stream.trailer)[|stream.entries|..] == stream.trailer;
  }

  // Judges the rest of the stream and of the file, as every pass does last.
  method CloseArchive(reader: LimitedArchiveReader, stream: Stream, bufferBytes: nat)
      returns (r: Result<(), ArchiveError>)
    requires bufferBytes > 0 && reader.Valid() && reader.delivered == stream.entries
    requires reader.source == stream.trailer && reader.decoderFails == stream.decoderFails
    modifies reader, reader.lastBytes
    ensures r.Ok? <==> EndsWell(stream)
    ensures r.Err? ==> EndsBadly(stream, r.error)
  {
    r := reader.FinishTarStream(bufferBytes);
    if r.Ok? && stream.rest != [] {
      r := Err(ArchiveTrailingData);
    }
  }

  lemma EmptyWindow(window: array<Byte>)
    ensures window[..0] == [] == Suffix([], WINDOW_BYTES)
  {
  }

  lemma SuffixSlides(before: seq<Byte>, bytes: seq<Byte>)
    requires |bytes| < WINDOW_BYTES
    ensures var window := Suffix(before, WINDOW_BYTES);
            var keep := Min(|window|, WINDOW_BYTES - |bytes|);
            Suffix(before + bytes, WINDOW_BYTES) == window[|window| - keep..] + bytes
  {
  }

  lemma AllZeroAppend(a: seq<Byte>, b: seq<Byte>)
    ensures AllZero(a + b) <==> AllZero(a) && AllZero(b)
  {
    if AllZero(a + b) {
      assert forall i :: 0 <= i < |a| ==> a[i] == (a + b)[i];
      assert forall i :: 0 <= i < |b| ==> b[i] == (a + b)[|a| + i];
    }
  }

  // The accepted archives, in terms of the whole stream: it fits the limit, at
  // least one block follows where the entries stopped, everything from there on
  // is zero, and the stream ends in two zero blocks.
  lemma AcceptedTrailer(entries: seq<Byte>, trailer: seq<Byte>)
    ensures TrailerVerdict(entries, trailer, false).Ok? <==>
              && 512 <= |trailer|
              && 1024 <= |entries| + |trailer| <= 8_589_934_592
              && forall i | 0 <= i < |entries| + |trailer| ::
                   i >= |entries| || i >= |entries| + |trailer| - 1024 ==> (entries + trailer)[i] == 0
  {
    var all := entries + trailer;
    if WINDOW_BYTES <= |all| && TAR_BLOCK_BYTES <= |trailer| {
      var start := |all| - WINDOW_BYTES;
      assert forall i :: 0 <= i < |trailer| ==> trailer[i] == all[|entries| + i];
      assert forall i :: 0 <= i < WINDOW_BYTES ==> Suffix(all, WINDOW_BYTES)[i] == all[start + i];
      if forall i :: 0 <= i < |all| && (i >= |entries| || i >= start) ==> all[i] == 0 {
        assert AllZero(trailer) && AllZero(Suffix(all, WINDOW_BYTES));
      }
      if AllZero(trailer) && AllZero(Suffix(all, WINDOW_BYTES)) {
        forall i | 0 <= i < |all| && (i >= |entries| || i >= start)
          ensures all[i] == 0
        {
          if i >= |entries| {
            assert all[i] == trailer[i - |entries|];
          } else {
            assert all[i] == Suffix(all, WINDOW_BYTES)[i - start];
          }
        }
      }
    }
  }
}
