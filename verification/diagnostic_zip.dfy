// The diagnostic archive: one stored file in a ZIP, and reading it back by the
// records of section 4.3 of PKWARE's APPNOTE.TXT.
module DiagnosticZip {
  import opened Results
  import Crc32

  const LOCAL_SIGNATURE: nat := 0x0403_4b50
  const CENTRAL_SIGNATURE: nat := 0x0201_4b50
  const END_SIGNATURE: nat := 0x0605_4b50
  const U32: nat := 0x1_0000_0000

  // "diagnostic.json"
  const FILE_NAME: seq<Byte> := [100, 105, 97, 103, 110, 111, 115, 116, 105, 99, 46, 106, 115, 111, 110]

  // ---- little-endian numbers ----

  function Capacity(width: nat): (c: nat)
    ensures c >= 1
  {
    if width == 0 then 1 else 256 * Capacity(width - 1)
  }

  function Encode(n: nat, width: nat): (bytes: seq<Byte>)
    ensures |bytes| == width
    decreases width
  {
    if width == 0 then [] else [n % 256] + Encode(n / 256, width - 1)
  }

  function Decode(bytes: seq<Byte>): nat {
    if bytes == [] then 0 else bytes[0] + 256 * Decode(bytes[1..])
  }

  // Numbers that fit are read back, others are truncated.
  lemma {:induction false} NumberRoundTrip(n: nat, width: nat)
    ensures n < Capacity(width) ==> Decode(Encode(n, width)) == n
    decreases width
  {
    if width > 0 {
      NumberRoundTrip(n / 256, width - 1);
      assert Encode(n, width)[1..] == Encode(n / 256, width - 1);
    }
  }

  // ---- records: numbers of given widths, one after another ----

  datatype Record = Empty | Number(width: nat, value: nat, rest: Record)

  function Half(value: nat, rest: Record): Record {
    Number(2, value, rest)
  }

  function Full(value: nat, rest: Record): Record {
    Number(4, value, rest)
  }

  function Length(r: Record): nat {
    if r == Empty then 0 else r.width + Length(r.rest)
  }

  // The value of the i-th number.
  function Value(r: Record, i: nat): nat {
    if r == Empty then 0 else if i == 0 then r.value else Value(r.rest, i - 1)
  }

  function EncodeRecord(r: Record): (bytes: seq<Byte>)
    ensures |bytes| == Length(r)
  {
    if r == Empty then [] else Encode(r.value, r.width) + EncodeRecord(r.rest)
  }

  // Reads numbers of the widths of `shape`.
  function DecodeRecord(shape: Record, bytes: seq<Byte>): Record
    requires |bytes| == Length(shape)
  {
    if shape == Empty then Empty
    else Number(shape.width, Decode(bytes[..shape.width]), DecodeRecord(shape.rest, bytes[shape.width..]))
  }

  predicate Fits(r: Record, shape: Record) {
    if r == Empty || shape == Empty then r == shape
    else r.width == shape.width && r.value < Capacity(r.width) && Fits(r.rest, shape.rest)
  }

  lemma {:induction false} RecordRoundTrip(r: Record, shape: Record)
    requires Fits(r, shape)
    ensures Length(shape) == Length(r) && DecodeRecord(shape, EncodeRecord(r)) == r
  {
    if r != Empty {
      NumberRoundTrip(r.value, r.width);
      RecordRoundTrip(r.rest, shape.rest);
      var bytes := EncodeRecord(r);
      assert bytes[..r.width] == Encode(r.value, r.width);
      assert bytes[r.width..] == EncodeRecord(r.rest);
    }
  }

  // n two-byte zeros.
  function Zeros(n: nat, rest: Record): Record {
    if n == 0 then rest else Half(0, Zeros(n - 1, rest))
  }

  function Sizes(crc: nat, size: nat, nameLength: nat, rest: Record): Record {
    Full(crc, Full(size, Full(size, Half(nameLength, rest))))
  }

  function LocalHeader(crc: nat, size: nat, nameLength: nat): Record {
    Full(LOCAL_SIGNATURE, Half(20, Zeros(4, Sizes(crc, size, nameLength, Half(0, Empty)))))
  }

  function CentralHeader(crc: nat, size: nat, nameLength: nat): Record {
    Full(CENTRAL_SIGNATURE, Half(20, Half(20,
      Zeros(4, Sizes(crc, size, nameLength, Zeros(4, Full(0, Full(0, Empty))))))))
  }

  function EndRecord(centralSize: nat, centralOffset: nat): Record {
    Full(END_SIGNATURE, Zeros(2, Half(1, Half(1, Full(centralSize, Full(centralOffset, Half(0, Empty)))))))
  }

  const LOCAL_LENGTH: nat := 30
  const CENTRAL_LENGTH: nat := 46
  const END_LENGTH: nat := 22

  lemma {:induction false} ZerosMeaning(n: nat, rest: Record, shape: Record)
    ensures Length(Zeros(n, rest)) == 2 * n + Length(rest)
    ensures Fits(rest, shape) ==> Fits(Zeros(n, rest), Zeros(n, shape))
    ensures forall i: nat :: Value(Zeros(n, rest), i) == if i < n then 0 else Value(rest, i - n)
  {
    if n > 0 {
      ZerosMeaning(n - 1, rest, shape);
    }
  }

  lemma SizesMeaning(crc: nat, size: nat, nameLength: nat, rest: Record, shape: Record)
    requires crc < U32 && size < U32 && nameLength < 0x1_0000 && Fits(rest, shape)
    ensures Length(Sizes(crc, size, nameLength, rest)) == 14 + Length(rest)
    ensures Fits(Sizes(crc, size, nameLength, rest), Sizes(0, 0, 0, shape))
    ensures var r := Sizes(crc, size, nameLength, rest);
            && Value(r, 0) == crc && Value(r, 1) == size && Value(r, 2) == size && Value(r, 3) == nameLength
            && forall i: nat :: Value(r, i + 4) == Value(rest, i)
  {
    assert Capacity(2) == 0x1_0000 && Capacity(4) == U32;
    NumberMeaning(2, nameLength, rest, 0, shape);
    NumberMeaning(4, size, Half(nameLength, rest), 0, Half(0, shape));
    NumberMeaning(4, size, Full(size, Half(nameLength, rest)), 0, Full(0, Half(0, shape)));
    NumberMeaning(4, crc, Full(size, Full(size, Half(nameLength, rest))), 0, Full(0, Full(0, Half(0, shape))));
  }

  lemma NumberMeaning(width: nat, value: nat, rest: Record, any: nat, shape: Record)
    requires value < Capacity(width) && Fits(rest, shape)
    ensures Length(Number(width, value, rest)) == width + Length(rest)
    ensures Fits(Number(width, value, rest), Number(width, any, shape))
    ensures Value(Number(width, value, rest), 0) == value
    ensures forall i: nat :: i > 0 ==> Value(Number(width, value, rest), i) == Value(rest, i - 1)
  {
  }

  lemma LocalMeaning(crc: nat, size: nat, nameLength: nat)
    requires crc < U32 && size < U32 && nameLength < 0x1_0000
    ensures var r := LocalHeader(crc, size, nameLength);
            && Fits(r, LocalHeader(0, 0, 0)) && Length(r) == LOCAL_LENGTH
            && Value(r, 0) == LOCAL_SIGNATURE && Value(r, 3) == 0 && Value(r, 6) == crc && Value(r, 8) == size
            && Value(r, 9) == nameLength && Value(r, 10) == 0
  {
    assert Capacity(2) == 0x1_0000 && Capacity(4) == U32;
    var tail, tail0 := Half(0, Empty), Half(0, Empty);
    NumberMeaning(2, 0, Empty, 0, Empty);
    SizesMeaning(crc, size, nameLength, tail, tail0);
    var r1, s1 := Sizes(crc, size, nameLength, tail), Sizes(0, 0, 0, tail0);
    ZerosMeaning(4, r1, s1);
    NumberMeaning(2, 20, Zeros(4, r1), 20, Zeros(4, s1));
    NumberMeaning(4, LOCAL_SIGNATURE, Half(20, Zeros(4, r1)), LOCAL_SIGNATURE, Half(20, Zeros(4, s1)));
    assert Value(r1, 4) == Value(tail, 0);
  }

  lemma CentralMeaning(crc: nat, size: nat, nameLength: nat)
    requires crc < U32 && size < U32 && nameLength < 0x1_0000
    ensures var r := CentralHeader(crc, size, nameLength);
            && Fits(r, CentralHeader(0, 0, 0)) && Length(r) == CENTRAL_LENGTH
            && Value(r, 0) == CENTRAL_SIGNATURE && Value(r, 4) == 0 && Value(r, 7) == crc && Value(r, 9) == size
            && Value(r, 10) == nameLength && Value(r, 16) == 0
  {
    assert Capacity(2) == 0x1_0000 && Capacity(4) == U32;
    var last := Full(0, Full(0, Empty));
    NumberMeaning(4, 0, Empty, 0, Empty);
    NumberMeaning(4, 0, Full(0, Empty), 0, Full(0, Empty));
    ZerosMeaning(4, last, last);
    var tail := Zeros(4, last);
    SizesMeaning(crc, size, nameLength, tail, tail);
    var r1, s1 := Sizes(crc, size, nameLength, tail), Sizes(0, 0, 0, tail);
    ZerosMeaning(4, r1, s1);
    NumberMeaning(2, 20, Zeros(4, r1), 20, Zeros(4, s1));
    NumberMeaning(2, 20, Half(20, Zeros(4, r1)), 20, Half(20, Zeros(4, s1)));
    NumberMeaning(4, CENTRAL_SIGNATURE, Half(20, Half(20, Zeros(4, r1))),
                  CENTRAL_SIGNATURE, Half(20, Half(20, Zeros(4, s1))));
    assert Value(r1, 9) == Value(tail, 5) == Value(last, 1);
  }

  lemma EndMeaning(centralSize: nat, centralOffset: nat)
    requires centralSize < U32 && centralOffset < U32
    ensures var r := EndRecord(centralSize, centralOffset);
            && Fits(r, EndRecord(0, 0)) && Length(r) == END_LENGTH
            && Value(r, 0) == END_SIGNATURE && Value(r, 3) == 1 && Value(r, 4) == 1 && Value(r, 5) == centralSize
            && Value(r, 6) == centralOffset && Value(r, 7) == 0
  {
    assert Capacity(2) == 0x1_0000 && Capacity(4) == U32;
    var last := Half(0, Empty);
    NumberMeaning(2, 0, Empty, 0, Empty);
    var a, b := Full(centralOffset, last), Full(0, last);
    NumberMeaning(4, centralOffset, last, 0, last);
    NumberMeaning(4, centralSize, a, 0, b);
    NumberMeaning(2, 1, Full(centralSize, a), 1, Full(0, b));
    NumberMeaning(2, 1, Half(1, Full(centralSize, a)), 1, Half(1, Full(0, b)));
    ZerosMeaning(2, Half(1, Half(1, Full(centralSize, a))), Half(1, Half(1, Full(0, b))));
    NumberMeaning(4, END_SIGNATURE, Zeros(2, Half(1, Half(1, Full(centralSize, a)))),
                  END_SIGNATURE, Zeros(2, Half(1, Half(1, Full(0, b)))));
  }

  // ---- writing ----

  class ArchiveFile {
    var data: seq<Byte>

    constructor ()
      ensures data == []
    {
      data := [];
    }

    method WriteAll(bytes: seq<Byte>)
      modifies this
      ensures data == old(data) + bytes
    {
      data := data + bytes;
    }

    // Two- and four-byte numbers one after another, least byte first.
    method WriteRecord(r: Record)
      modifies this
      ensures data == old(data) + EncodeRecord(r)
    {
      var rest := r;
      while rest != Empty
        invariant data + EncodeRecord(rest) == old(data) + EncodeRecord(r)
        decreases rest
      {
        assert data + EncodeRecord(rest) == data + Encode(rest.value, rest.width) + EncodeRecord(rest.rest);
        data := data + Encode(rest.value, rest.width);
        rest := rest.rest;
      }
    }

    method WriteFilePart(content: seq<Byte>, crc: nat)
      requires data == []
      modifies this
      ensures data == FilePart(FILE_NAME, content, crc)
    {
      WriteRecord(LocalHeader(crc, |content| % U32, |FILE_NAME|));
      WriteAll(FILE_NAME);
      WriteAll(content);
    }

    method WriteCentralPart(content: seq<Byte>, crc: nat)
      modifies this
      ensures data == old(data) + CentralPart(FILE_NAME, content, crc)
    {
      WriteRecord(CentralHeader(crc, |content| % U32, |FILE_NAME|));
      WriteAll(FILE_NAME);
    }

    // The archive with the document as its only file; returns its length.
    method WriteZipArchive(content: seq<Byte>) returns (length: nat)
      requires data == []
      modifies this
      ensures data == Archive(FILE_NAME, content, Crc32.ChecksumNumber(content))
      ensures length == |data|
    {
      var crc := Crc32.ComputeChecksumNumber(content);
      WriteFilePart(content, crc);
      var centralOffset := |data|;
      WriteCentralPart(content, crc);
      var centralSize := |data| - centralOffset;
      WriteRecord(EndRecord(centralSize % U32, centralOffset % U32));
      length := |data|;
    }
  }

  // Local header, name and content.
  function FilePart(name: seq<Byte>, content: seq<Byte>, crc: nat): seq<Byte> {
    EncodeRecord(LocalHeader(crc, |content| % U32, |name|)) + name + content
  }

  function CentralPart(name: seq<Byte>, content: seq<Byte>, crc: nat): seq<Byte> {
    EncodeRecord(CentralHeader(crc, |content| % U32, |name|)) + name
  }

  function Archive(name: seq<Byte>, content: seq<Byte>, crc: nat): seq<Byte> {
    var file, central := FilePart(name, content, crc), CentralPart(name, content, crc);
    file + central + EncodeRecord(EndRecord(|central| % U32, |file| % U32))
  }

  // ---- reading back ----

  datatype StoredFile = StoredFile(name: seq<Byte>, content: seq<Byte>, crc: nat)

  function RecordAt(bytes: seq<Byte>, offset: nat, shape: Record): Option<Record> {
    if offset + Length(shape) > |bytes| then None
    else Some(DecodeRecord(shape, bytes[offset..offset + Length(shape)]))
  }

  function BytesAt(bytes: seq<Byte>, offset: nat, length: nat): Option<seq<Byte>> {
    if offset + length > |bytes| then None else Some(bytes[offset..offset + length])
  }

  // The widths of the three records.
  datatype Shapes = Shapes(local: Record, central: Record, end: Record)

  function ZipShapes(): Shapes {
    Shapes(LocalHeader(0, 0, 0), CentralHeader(0, 0, 0), EndRecord(0, 0))
  }

  // The file that a central header at this offset describes, through its local header.
  function ReadEntry(shapes: Shapes, bytes: seq<Byte>, offset: nat): Option<StoredFile> {
    match RecordAt(bytes, offset, shapes.central)
    case None => None
    case Some(central) =>
      (var local := RecordAt(bytes, Value(central, 16), shapes.local);
       var name := BytesAt(bytes, offset + CENTRAL_LENGTH, Value(central, 10));
       if Value(central, 0) != CENTRAL_SIGNATURE || Value(central, 4) != 0 || name.None? || local.None? then None
       else ReadFile(bytes, Value(central, 16), local.value, name.value, Value(central, 7), Value(central, 9)))
  }

  // The content behind a local header that agrees with the central one.
  function ReadFile(
      bytes: seq<Byte>, offset: nat, local: Record, name: seq<Byte>, crc: nat, size: nat): Option<StoredFile> {
    if Value(local, 0) != LOCAL_SIGNATURE || Value(local, 3) != 0 || Value(local, 6) != crc || Value(local, 8) != size
       || BytesAt(bytes, offset + LOCAL_LENGTH, Value(local, 9)) != Some(name) then None
    else
      match BytesAt(bytes, offset + LOCAL_LENGTH + Value(local, 9) + Value(local, 10), size)
      case None => None
      case Some(content) => Some(StoredFile(name, content, crc))
  }

  // Starts at the end record, which has no comment and names one entry.
  function ReadArchive(shapes: Shapes, bytes: seq<Byte>): Option<StoredFile> {
    if |bytes| < END_LENGTH then None
    else
      match RecordAt(bytes, |bytes| - END_LENGTH, shapes.end)
      case None => None
      case Some(end) =>
        if Value(end, 0) != END_SIGNATURE || Value(end, 3) != 1 || Value(end, 4) != 1 || Value(end, 7) != 0
           || Value(end, 6) + Value(end, 5) != |bytes| - END_LENGTH then None
        else ReadEntry(shapes, bytes, Value(end, 6))
  }

  lemma WrittenRecord(before: seq<Byte>, r: Record, after: seq<Byte>, shape: Record)
    requires Fits(r, shape)
    ensures RecordAt(before + EncodeRecord(r) + after, |before|, shape) == Some(r)
  {
    RecordRoundTrip(r, shape);
    var bytes := before + EncodeRecord(r) + after;
    assert bytes[|before|..|before| + Length(shape)] == EncodeRecord(r);
  }

  lemma WrittenBytes(before: seq<Byte>, middle: seq<Byte>, after: seq<Byte>)
    ensures BytesAt(before + middle + after, |before|, |middle|) == Some(middle)
  {
    assert (before + middle + after)[|before|..|before| + |middle|] == middle;
  }

  // What the reading proof needs to know of the written headers.
  ghost predicate IsLocal(r: Record, shape: Record, crc: nat, size: nat, nameLength: nat) {
    && Fits(r, shape) && Length(r) == LOCAL_LENGTH
    && Value(r, 0) == LOCAL_SIGNATURE && Value(r, 3) == 0 && Value(r, 6) == crc && Value(r, 8) == size
    && Value(r, 9) == nameLength && Value(r, 10) == 0
  }

  ghost predicate IsCentral(r: Record, shape: Record, crc: nat, size: nat, nameLength: nat) {
    && Fits(r, shape) && Length(r) == CENTRAL_LENGTH
    && Value(r, 0) == CENTRAL_SIGNATURE && Value(r, 4) == 0 && Value(r, 7) == crc && Value(r, 9) == size
    && Value(r, 10) == nameLength && Value(r, 16) == 0
  }

  ghost predicate IsEnd(r: Record, shape: Record, centralSize: nat, centralOffset: nat) {
    && Fits(r, shape) && Length(r) == END_LENGTH
    && Value(r, 0) == END_SIGNATURE && Value(r, 3) == 1 && Value(r, 4) == 1 && Value(r, 5) == centralSize
    && Value(r, 6) == centralOffset && Value(r, 7) == 0
  }

  lemma ReadsFile(local: Record, shape: Record, name: seq<Byte>, content: seq<Byte>, crc: nat, after: seq<Byte>)
    requires IsLocal(local, shape, crc, |content|, |name|)
    ensures var bytes := EncodeRecord(local) + name + content + after;
            && RecordAt(bytes, 0, shape) == Some(local)
            && ReadFile(bytes, 0, local, name, crc, |content|) == Some(StoredFile(name, content, crc))
  {
    var header := EncodeRecord(local);
    ReadsLocal(local, shape, name + content + after);
    ReadsContent(header, name, content, after);
    assert header + name + content + after == header + (name + content + after);
  }

  lemma ReadsLocal(local: Record, shape: Record, after: seq<Byte>)
    requires Fits(local, shape)
    ensures RecordAt(EncodeRecord(local) + after, 0, shape) == Some(local)
  {
    assert EncodeRecord(local) + after == [] + EncodeRecord(local) + after;
    WrittenRecord([], local, after, shape);
  }

  lemma ReadsContent(header: seq<Byte>, name: seq<Byte>, content: seq<Byte>, after: seq<Byte>)
    ensures BytesAt(header + name + content + after, |header|, |name|) == Some(name)
    ensures BytesAt(header + name + content + after, |header| + |name|, |content|) == Some(content)
  {
    assert header + name + content + after == header + name + (content + after);
    WrittenBytes(header, name, content + after);
    WrittenBytes(header + name, content, after);
  }

  lemma ReadsCentral(before: seq<Byte>, central: Record, shape: Record, name: seq<Byte>, after: seq<Byte>)
    requires Fits(central, shape) && Length(central) == CENTRAL_LENGTH
    ensures var bytes := before + (EncodeRecord(central) + name) + after;
            && RecordAt(bytes, |before|, shape) == Some(central)
            && BytesAt(bytes, |before| + CENTRAL_LENGTH, |name|) == Some(name)
  {
    var header := EncodeRecord(central);
    var bytes := before + (header + name) + after;
    assert bytes == before + header + (name + after);
    WrittenRecord(before, central, name + after, shape);
    assert bytes == (before + header) + name + after;
    WrittenBytes(before + header, name, after);
  }

  lemma ReadsEntry(
      shapes: Shapes, local: Record, central: Record, name: seq<Byte>, content: seq<Byte>, crc: nat, after: seq<Byte>)
    requires IsLocal(local, shapes.local, crc, |content|, |name|)
    requires IsCentral(central, shapes.central, crc, |content|, |name|)
    ensures var file := EncodeRecord(local) + name + content;
            ReadEntry(shapes, file + (EncodeRecord(central) + name) + after, |file|)
            == Some(StoredFile(name, content, crc))
  {
    var file, listed := EncodeRecord(local) + name + content, EncodeRecord(central) + name;
    ReadsCentral(file, central, shapes.central, name, after);
    ReadsFile(local, shapes.local, name, content, crc, listed + after);
    assert file + listed + after == file + (listed + after);
  }

  lemma ReadsEnd(before: seq<Byte>, end: Record, shape: Record)
    requires Fits(end, shape) && Length(end) == END_LENGTH
    ensures |before + EncodeRecord(end)| == |before| + END_LENGTH
    ensures RecordAt(before + EncodeRecord(end), |before|, shape) == Some(end)
  {
    assert before + EncodeRecord(end) == before + EncodeRecord(end) + [];
    WrittenRecord(before, end, [], shape);
  }

  lemma ReadsArchive(shapes: Shapes, before: seq<Byte>, end: Record, offset: nat, file: StoredFile)
    requires offset <= |before| && IsEnd(end, shapes.end, |before| - offset, offset)
    requires ReadEntry(shapes, before + EncodeRecord(end), offset) == Some(file)
    ensures ReadArchive(shapes, before + EncodeRecord(end)) == Some(file)
  {
    ReadsEnd(before, end, shapes.end);
  }

  lemma ReadsRecords(
      shapes: Shapes, local: Record, central: Record, end: Record, name: seq<Byte>, content: seq<Byte>, crc: nat)
    requires IsLocal(local, shapes.local, crc, |content|, |name|)
    requires IsCentral(central, shapes.central, crc, |content|, |name|)
    requires IsEnd(end, shapes.end, CENTRAL_LENGTH + |name|, LOCAL_LENGTH + |name| + |content|)
    ensures var file := EncodeRecord(local) + name + content;
            ReadArchive(shapes, file + (EncodeRecord(central) + name) + EncodeRecord(end))
            == Some(StoredFile(name, content, crc))
  {
    var file, listed := EncodeRecord(local) + name + content, EncodeRecord(central) + name;
    ReadsEntry(shapes, local, central, name, content, crc, EncodeRecord(end));
    ReadsArchive(shapes, file + listed, end, |file|, StoredFile(name, content, crc));
  }

  lemma ArchiveEnd(name: seq<Byte>, content: seq<Byte>, crc: nat)
    requires |FilePart(name, content, crc)| == LOCAL_LENGTH + |name| + |content| < U32
    requires |CentralPart(name, content, crc)| == CENTRAL_LENGTH + |name| < U32
    ensures Archive(name, content, crc) == FilePart(name, content, crc) + CentralPart(name, content, crc)
              + EncodeRecord(EndRecord(CENTRAL_LENGTH + |name|, LOCAL_LENGTH + |name| + |content|))
  {
    SmallIsKept(CENTRAL_LENGTH + |name|);
    SmallIsKept(LOCAL_LENGTH + |name| + |content|);
  }

  lemma SmallIsKept(n: nat)
    requires n < U32
    ensures n % U32 == n
  {
  }

  // The three records of an archive, as far as reading needs to know them.
  lemma WrittenRecords(name: seq<Byte>, content: seq<Byte>, crc: nat)
      returns (local: Record, central: Record, end: Record)
    requires |name| < 0x1_0000 && LOCAL_LENGTH + |name| + |content| < U32 && crc < U32
    ensures IsLocal(local, ZipShapes().local, crc, |content|, |name|)
    ensures IsCentral(central, ZipShapes().central, crc, |content|, |name|)
    ensures IsEnd(end, ZipShapes().end, CENTRAL_LENGTH + |name|, LOCAL_LENGTH + |name| + |content|)
    ensures Archive(name, content, crc)
         == (EncodeRecord(local) + name + content) + (EncodeRecord(central) + name) + EncodeRecord(end)
  {
    SmallIsKept(|content|);
    local := LocalHeader(crc, |content|, |name|);
    central := CentralHeader(crc, |content|, |name|);
    end := EndRecord(CENTRAL_LENGTH + |name|, LOCAL_LENGTH + |name| + |content|);
    LocalMeaning(crc, |content|, |name|);
    CentralMeaning(crc, |content|, |name|);
    EndMeaning(CENTRAL_LENGTH + |name|, LOCAL_LENGTH + |name| + |content|);
    ArchiveEnd(name, content, crc);
  }

  // Every archive whose content and offsets fit in 32 bits reads back.
  lemma ArchiveReadsBack(name: seq<Byte>, content: seq<Byte>, crc: nat)
    requires |name| < 0x1_0000 && LOCAL_LENGTH + |name| + |content| < U32 && crc < U32
    ensures ReadArchive(ZipShapes(), Archive(name, content, crc)) == Some(StoredFile(name, content, crc))
  {
    var local, central, end := WrittenRecords(name, content, crc);
    ReadsRecords(ZipShapes(), local, central, end, name, content, crc);
  }

  // The diagnostic archive holds the document under its name, and a checksum
  // that agrees with the table-driven form.
  lemma DiagnosticReadsBack(content: seq<Byte>)
    requires LOCAL_LENGTH + |FILE_NAME| + |content| < U32
    ensures ReadArchive(ZipShapes(), Archive(FILE_NAME, content, Crc32.ChecksumNumber(content)))
         == Some(StoredFile(FILE_NAME, content, Crc32.TableChecksumNumber(content)))
  {
    Crc32.NumbersAgree(content);
    ArchiveReadsBack(FILE_NAME, content, Crc32.ChecksumNumber(content));
  }

  // ---- the bytes of the archive, by position ----

  function TwoBytes(n: nat): seq<Byte> {
    [n % 256, n / 256 % 256]
  }

  function FourBytes(n: nat): seq<Byte> {
    [n % 256, n / 256 % 256, n / 65536 % 256, n / 16777216 % 256]
  }

  lemma EncodedBytes(n: nat)
    ensures Encode(n, 2) == TwoBytes(n) && Encode(n, 4) == FourBytes(n)
  {
    Encoded(n, 0);
    Encoded(n, 1);
    Encoded(n, 2);
    Encoded(n, 3);
    assert Encode(n, 2) == [n % 256] + ([n / 256 % 256] + []);
    var rest := n / 256 / 256;
    assert Encode(n, 4) == [n % 256] + ([n / 256 % 256] + ([rest % 256] + ([rest / 256 % 256] + [])));
  }

  lemma Encoded(n: nat, i: nat)
    requires i < 4
    ensures n / 256 / 256 == n / 65536 && n / 65536 / 256 == n / 16777216
  {
  }

  // Signature, version needed and no flags, stored, no time; checksum, sizes
  // and length of the name; no extra field.
  function LocalBytes(crc: nat, size: nat, nameLength: nat): seq<Byte> {
    [0x50, 0x4b, 3, 4, 20, 0, 0, 0, 0, 0, 0, 0, 0, 0]
    + (FourBytes(crc) + (FourBytes(size) + (FourBytes(size) + (TwoBytes(nameLength) + [0, 0]))))
  }

  // The same with the version that made it, and behind the length of the name
  // no extra field, no comment, disk 0, no attributes and local header at 0.
  function CentralBytes(crc: nat, size: nat, nameLength: nat): seq<Byte> {
    [0x50, 0x4b, 1, 2, 20, 0, 20, 0, 0, 0, 0, 0, 0, 0, 0, 0]
    + (FourBytes(crc) + (FourBytes(size) + (FourBytes(size) + (TwoBytes(nameLength)
    + [0, 0, 0, 0, 0, 0, 0, 0, 0, 0, 0, 0, 0, 0, 0, 0]))))
  }

  // One disk, one entry, and where the central header is; no comment.
  function EndBytes(centralSize: nat, centralOffset: nat): seq<Byte> {
    [0x50, 0x4b, 5, 6, 0, 0, 0, 0, 1, 0, 1, 0]
    + (FourBytes(centralSize) + (FourBytes(centralOffset) + [0, 0]))
  }

  lemma SmallBytes()
    ensures TwoBytes(0) == [0, 0] && TwoBytes(1) == [1, 0] && TwoBytes(20) == [20, 0] && FourBytes(0) == [0, 0, 0, 0]
    ensures FourBytes(LOCAL_SIGNATURE) == [0x50, 0x4b, 3, 4] && FourBytes(CENTRAL_SIGNATURE) == [0x50, 0x4b, 1, 2]
    ensures FourBytes(END_SIGNATURE) == [0x50, 0x4b, 5, 6]
  {
  }

  lemma HalfIsBytes(n: nat, rest: Record)
    ensures EncodeRecord(Half(n, rest)) == TwoBytes(n) + EncodeRecord(rest)
  {
    EncodedBytes(n);
  }

  lemma FullIsBytes(n: nat, rest: Record)
    ensures EncodeRecord(Full(n, rest)) == FourBytes(n) + EncodeRecord(rest)
  {
    EncodedBytes(n);
  }

  lemma SizesAreBytes(crc: nat, size: nat, nameLength: nat, rest: Record)
    ensures EncodeRecord(Sizes(crc, size, nameLength, rest)) ==
            FourBytes(crc) + (FourBytes(size) + (FourBytes(size) + (TwoBytes(nameLength) + EncodeRecord(rest))))
  {
    var one := Half(nameLength, rest);
    HalfIsBytes(nameLength, rest);
    FullIsBytes(size, one);
    FullIsBytes(size, Full(size, one));
    FullIsBytes(crc, Full(size, Full(size, one)));
  }

  lemma {:induction false} ZerosAreBytes(n: nat, rest: Record, zeros: seq<Byte>)
    requires |zeros| == 2 * n && forall i :: 0 <= i < |zeros| ==> zeros[i] == 0
    ensures EncodeRecord(Zeros(n, rest)) == zeros + EncodeRecord(rest)
  {
    if n == 0 {
      assert zeros == [];
    } else {
      ZerosAreBytes(n - 1, rest, zeros[2..]);
      HalfIsBytes(0, Zeros(n - 1, rest));
      assert zeros == TwoBytes(0) + zeros[2..];
    }
  }

  lemma Regrouped(a: seq<Byte>, b: seq<Byte>, c: seq<Byte>)
    ensures a + (b + c) == (a + b) + c
  {
  }

  lemma VersionAndZeros(sizes: Record)
    ensures EncodeRecord(Half(20, Zeros(4, sizes))) == [20, 0, 0, 0, 0, 0, 0, 0, 0, 0] + EncodeRecord(sizes)
  {
    var zeros: seq<Byte> := [0, 0, 0, 0, 0, 0, 0, 0];
    SmallBytes();
    ZerosAreBytes(4, sizes, zeros);
    HalfIsBytes(20, Zeros(4, sizes));
    Regrouped([20, 0], zeros, EncodeRecord(sizes));
  }

  lemma LocalIsBytes(crc: nat, size: nat, nameLength: nat)
    ensures EncodeRecord(LocalHeader(crc, size, nameLength)) == LocalBytes(crc, size, nameLength)
  {
    var sizes := Sizes(crc, size, nameLength, Half(0, Empty));
    SmallBytes();
    HalfIsBytes(0, Empty);
    SizesAreBytes(crc, size, nameLength, Half(0, Empty));
    VersionAndZeros(sizes);
    FullIsBytes(LOCAL_SIGNATURE, Half(20, Zeros(4, sizes)));
    Regrouped([0x50, 0x4b, 3, 4], [20, 0, 0, 0, 0, 0, 0, 0, 0, 0], EncodeRecord(sizes));
  }

  lemma CentralTail()
    ensures EncodeRecord(Zeros(4, Full(0, Full(0, Empty)))) == [0, 0, 0, 0, 0, 0, 0, 0, 0, 0, 0, 0, 0, 0, 0, 0]
  {
    var last := Full(0, Full(0, Empty));
    SmallBytes();
    FullIsBytes(0, Empty);
    FullIsBytes(0, Full(0, Empty));
    ZerosAreBytes(4, last, [0, 0, 0, 0, 0, 0, 0, 0]);
  }

  lemma CentralHead(rest: Record, sizes: seq<Byte>)
    requires EncodeRecord(rest) == [20, 0, 0, 0, 0, 0, 0, 0, 0, 0] + sizes
    ensures EncodeRecord(Full(CENTRAL_SIGNATURE, Half(20, rest)))
         == [0x50, 0x4b, 1, 2, 20, 0, 20, 0, 0, 0, 0, 0, 0, 0, 0, 0] + sizes
  {
    SmallBytes();
    HalfIsBytes(20, rest);
    FullIsBytes(CENTRAL_SIGNATURE, Half(20, rest));
  }

  lemma CentralIsBytes(crc: nat, size: nat, nameLength: nat)
    ensures EncodeRecord(CentralHeader(crc, size, nameLength)) == CentralBytes(crc, size, nameLength)
  {
    var tail := Zeros(4, Full(0, Full(0, Empty)));
    CentralTail();
    SizesAreBytes(crc, size, nameLength, tail);
    var sizes := Sizes(crc, size, nameLength, tail);
    VersionAndZeros(sizes);
    CentralHead(Half(20, Zeros(4, sizes)), EncodeRecord(sizes));
  }

  lemma EndIsBytes(centralSize: nat, centralOffset: nat)
    ensures EncodeRecord(EndRecord(centralSize, centralOffset)) == EndBytes(centralSize, centralOffset)
  {
    var last := Full(centralSize, Full(centralOffset, Half(0, Empty)));
    var ones := Half(1, Half(1, last));
    var encoded := EncodeRecord(last);
    SmallBytes();
    HalfIsBytes(0, Empty);
    FullIsBytes(centralOffset, Half(0, Empty));
    FullIsBytes(centralSize, Full(centralOffset, Half(0, Empty)));
    HalfIsBytes(1, last);
    HalfIsBytes(1, Half(1, last));
    ZerosAreBytes(2, ones, [0, 0, 0, 0]);
    FullIsBytes(END_SIGNATURE, Zeros(2, ones));
    Regrouped([1, 0], [1, 0], encoded);
    Regrouped([0, 0, 0, 0], [1, 0] + [1, 0], encoded);
    Regrouped([0x50, 0x4b, 5, 6], [0, 0, 0, 0] + ([1, 0] + [1, 0]), encoded);
  }

  // Every byte of an archive in the order of section 4.3 of APPNOTE.TXT.
  lemma ArchiveBytes(name: seq<Byte>, content: seq<Byte>, crc: nat)
    requires 46 + |name| < 0x1_0000_0000 && 30 + |name| + |content| < 0x1_0000_0000
    ensures Archive(name, content, crc) ==
            (LocalBytes(crc, |content|, |name|) + name + content) + (CentralBytes(crc, |content|, |name|) + name)
            + EndBytes(46 + |name|, 30 + |name| + |content|)
  {
    LocalIsBytes(crc, |content|, |name|);
    CentralIsBytes(crc, |content|, |name|);
    SmallIsKept(|content|);
    ArchiveEnd(name, content, crc);
    EndIsBytes(46 + |name|, 30 + |name| + |content|);
  }

  // The document's name in the archive.
  lemma FileNameIs()
    ensures |FILE_NAME| == |"diagnostic.json"|
    ensures forall i :: 0 <= i < |FILE_NAME| ==> FILE_NAME[i] == "diagnostic.json"[i] as int
  {
  }
}
