// Decoding a chunked response body, and the encoding of section 7.1 of RFC 9112.
module ChunkedBody {
  import opened Results
  import Text

  const CR: Byte := 13
  const TAB: Byte := 9
  const SPACE: Byte := 32
  const SEMICOLON: Byte := 59
  const CRLF: seq<Byte> := [13, 10]
  const USIZE_MAX: nat := 0xffff_ffff_ffff_ffff

  // The library's conversion of bytes to text.
  type Utf8 = seq<Byte> -> Option<string>

  // The bytes of an ASCII text.
  function Ascii(text: string): seq<Byte>
    requires AllAscii(text)
  {
    seq(|text|, i requires 0 <= i < |text| => text[i] as int)
  }

  predicate AllAscii(text: string) {
    forall i :: 0 <= i < |text| ==> text[i] as int < 128
  }

  // All that is assumed of it: ASCII characters stand for themselves, whatever
  // follows them, and there is nothing in nothing.
  ghost predicate KeepsAscii(utf8: Utf8) {
    utf8([]) == Some("") && forall text, more :: KeepsAsciiBefore(utf8, text, more)
  }

  predicate KeepsAsciiBefore(utf8: Utf8, text: string, more: seq<Byte>) {
    AllAscii(text) ==> utf8(Ascii(text) + more) == Prepend(text, utf8(more))
  }

  function Prepend(text: string, more: Option<string>): Option<string> {
    if more.None? then None else Some(text + more.value)
  }

  // ---- sizes ----

  function HexDigit(c: char): Option<nat> {
    if '0' <= c <= '9' then Some(c as int - '0' as int)
    else if 'a' <= c <= 'f' then Some(c as int - 'a' as int + 10)
    else if 'A' <= c <= 'F' then Some(c as int - 'A' as int + 10)
    else None
  }

  predicate AllHex(text: string) {
    forall i :: 0 <= i < |text| ==> HexDigit(text[i]).Some?
  }

  function HexValue(text: string): nat
    requires AllHex(text)
  {
    if text == "" then 0 else 16 * HexValue(text[..|text| - 1]) + HexDigit(text[|text| - 1]).value
  }

  // `usize::from_str_radix(_, 16)`: one leading plus is allowed.
  function ParseHex(text: string): Option<nat> {
    var digits := if |text| > 1 && text[0] == '+' then text[1..] else text;
    if digits == "" || !AllHex(digits) || HexValue(digits) > USIZE_MAX then None
    else Some(HexValue(digits))
  }

  predicate IsWhite(c: char) {
    var n := c as int;
    9 <= n <= 13 || n == 32 || n == 0x85 || n == 0xa0 || n == 0x1680 || 0x2000 <= n <= 0x200a
    || n == 0x2028 || n == 0x2029 || n == 0x202f || n == 0x205f || n == 0x3000
  }

  function TrimStart(text: string): string {
    if text != "" && IsWhite(text[0]) then TrimStart(text[1..]) else text
  }

  function TrimEnd(text: string): string {
    if text != "" && IsWhite(text[|text| - 1]) then TrimEnd(text[..|text| - 1]) else text
  }

  predicate AllWhite(text: string) {
    forall i :: 0 <= i < |text| ==> IsWhite(text[i])
  }

  predicate IsBare(text: string) {
    text != "" ==> !IsWhite(text[0]) && !IsWhite(text[|text| - 1])
  }

  // Trimming takes the white space off both ends, all of it and nothing else.
  lemma TrimExactly(text: string, core: string)
    ensures TrimEnd(TrimStart(text)) == core <==>
              IsBare(core) && exists left, right :: AllWhite(left) && AllWhite(right) && text == left + core + right
  {
    TrimLeavesCore(text);
    if IsBare(core) && exists left, right :: AllWhite(left) && AllWhite(right) && text == left + core + right {
      var left, right :| AllWhite(left) && AllWhite(right) && text == left + core + right;
      CoreIsLeft(left, core, right);
    }
  }

  lemma TrimLeavesCore(text: string)
    ensures IsBare(TrimEnd(TrimStart(text)))
    ensures exists left, right ::
              AllWhite(left) && AllWhite(right) && text == left + TrimEnd(TrimStart(text)) + right
  {
    var left := TrimStartSplits(text);
    var right := TrimEndSplits(TrimStart(text));
    assert text == left + TrimEnd(TrimStart(text)) + right;
  }

  lemma CoreIsLeft(left: string, core: string, right: string)
    requires AllWhite(left) && AllWhite(right) && IsBare(core)
    ensures TrimEnd(TrimStart(left + core + right)) == core
  {
    TrimStartOf(left, core, right);
    if core != "" {
      TrimEndOf(core, right);
    }
  }

  lemma {:induction false} TrimStartSplits(text: string) returns (left: string)
    ensures AllWhite(left) && text == left + TrimStart(text)
    ensures TrimStart(text) != "" ==> !IsWhite(TrimStart(text)[0])
  {
    if text != "" && IsWhite(text[0]) {
      var rest := TrimStartSplits(text[1..]);
      left := [text[0]] + rest;
    } else {
      left := "";
    }
  }

  lemma {:induction false} TrimEndSplits(text: string) returns (right: string)
    ensures AllWhite(right) && text == TrimEnd(text) + right
    ensures TrimEnd(text) != "" ==> !IsWhite(TrimEnd(text)[|TrimEnd(text)| - 1]) && TrimEnd(text)[0] == text[0]
  {
    if text != "" && IsWhite(text[|text| - 1]) {
      var rest := TrimEndSplits(text[..|text| - 1]);
      right := rest + [text[|text| - 1]];
    } else {
      right := "";
    }
  }

  lemma {:induction false} TrimStartOf(left: string, core: string, right: string)
    requires AllWhite(left) && AllWhite(right) && (core != "" ==> !IsWhite(core[0]))
    ensures TrimStart(left + core + right) == if core == "" then "" else core + right
    decreases |left| + |right|
  {
    var text := left + core + right;
    if left != "" {
      TrimStartOf(left[1..], core, right);
      assert text[1..] == left[1..] + core + right;
    } else if core == "" && right != "" {
      TrimStartOf("", "", right[1..]);
      assert text[1..] == "" + "" + right[1..];
    }
  }

  lemma {:induction false} TrimEndOf(core: string, right: string)
    requires AllWhite(right) && (core != "" ==> !IsWhite(core[|core| - 1]))
    ensures TrimEnd(core + right) == core
  {
    if right == "" {
      assert core + right == core;
    } else {
      var n := |right| - 1;
      TrimEndOf(core, right[..n]);
      assert (core + right)[..|core + right| - 1] == core + right[..n];
    }
  }

  // The size in a size line: up to an extension, without white space around it.
  function SizeOf(utf8: Utf8, line: seq<Byte>): Option<nat> {
    match utf8(line)
    case None => None
    case Some(text) => ParseHex(TrimEnd(TrimStart(Text.Split(text, ';')[0])))
  }

  // Reads the size from a size line.
  type SizeReader = seq<Byte> -> Option<nat>

  function SizeReaderOf(utf8: Utf8): SizeReader {
    line => SizeOf(utf8, line)
  }

  // Where the first CRLF is.
  function LineEnd(input: seq<Byte>): (r: Option<nat>)
    ensures r.Some? ==> r.value + 2 <= |input|
  {
    if |input| < 2 then None
    else if input[..2] == CRLF then Some(0)
    else
      match LineEnd(input[1..])
      case None => None
      case Some(i) => Some(i + 1)
  }

  // ---- what these read, character by character ----

  lemma HexDigitsAre(k: nat)
    requires k < 16
    ensures HexDigit("0123456789abcdef"[k]) == Some(k) && HexDigit("0123456789ABCDEF"[k]) == Some(k)
  {
  }

  lemma NoOtherHexDigits(c: char)
    ensures HexDigit(c).Some? <==> c in "0123456789abcdefABCDEF"
  {
    var all := "0123456789abcdefABCDEF";
    if '0' <= c <= '9' {
      assert all[c as int - '0' as int] == c;
    } else if 'a' <= c <= 'f' {
      assert all[c as int - 'a' as int + 10] == c;
    } else if 'A' <= c <= 'F' {
      assert all[c as int - 'A' as int + 16] == c;
    }
  }

  // A number of 64 bits in hexadecimal digits, perhaps behind one plus.
  lemma ParsesExactly(text: string, n: nat)
    ensures ParseHex(text) == Some(n) <==>
              && n <= 18_446_744_073_709_551_615
              && exists digits :: digits != "" && (text == digits || text == "+" + digits)
                                  && AllHex(digits) && HexValue(digits) == n
  {
    NoOtherHexDigits('+');
    if ParseHex(text) == Some(n) {
      var digits := if |text| > 1 && text[0] == '+' then text[1..] else text;
      assert text == digits || text == "+" + digits;
    }
    if digits :| digits != "" && (text == digits || text == "+" + digits) && AllHex(digits) && HexValue(digits) == n {
      if text == "+" + digits {
        assert text[1..] == digits;
      } else {
        assert HexDigit(text[0]).Some?;
      }
    }
  }

  // The characters with the White_Space property of Unicode.
  lemma WhiteSpaceIs(c: char)
    ensures IsWhite(c) <==>
            c as int in {9, 10, 11, 12, 13, 32, 133, 160, 5760, 8192, 8193, 8194, 8195, 8196, 8197, 8198, 8199,
                         8200, 8201, 8202, 8232, 8233, 8239, 8287, 12288}
  {
  }

  // A line ends at the first carriage return before a line feed.
  lemma {:induction false} LineEndIs(input: seq<Byte>, i: nat)
    ensures LineEnd(input) == Some(i) <==>
              && i + 2 <= |input| && input[i] == 13 && input[i + 1] == 10
              && forall j :: 0 <= j < i ==> !(input[j] == 13 && input[j + 1] == 10)
    decreases |input|
  {
    if |input| >= 2 {
      assert input[..2] == [input[0], input[1]];
      if i > 0 {
        LineEndIs(input[1..], i - 1);
        if LineEnd(input) == Some(i) {
          forall j | 0 <= j < i ensures !(input[j] == 13 && input[j + 1] == 10) {
            assert j > 0 ==> input[1..][j - 1] == input[j] && input[1..][j] == input[j + 1];
          }
        } else if i + 2 <= |input| && forall j :: 0 <= j < i ==> !(input[j] == 13 && input[j + 1] == 10) {
          forall j | 0 <= j < i - 1 ensures !(input[1..][j] == 13 && input[1..][j + 1] == 10) {
            assert !(input[j + 1] == 13 && input[j + 2] == 10);
          }
          assert !(input[0] == 13 && input[1] == 10);
        }
      }
    }
  }

  // ---- decoding ----

  // One round of the decoder.
  datatype Round = Bad | LastChunk | Chunk(data: seq<Byte>, rest: seq<Byte>)

  // The data of the announced size, if it is there and ends with CRLF.
  function TakeChunk(size: nat, rest: seq<Byte>): Round {
    if size == 0 then LastChunk
    else if size + 2 > USIZE_MAX || |rest| < size + 2 || rest[size..size + 2] != CRLF then Bad
    else Chunk(rest[..size], rest[size + 2..])
  }

  function NextChunk(sizeOf: SizeReader, input: seq<Byte>): (r: Round)
    ensures r.Chunk? ==> |r.rest| < |input|
  {
    match LineEnd(input)
    case None => Bad
    case Some(end) =>
      match sizeOf(input[..end])
      case None => Bad
      case Some(size) => TakeChunk(size, input[end + 2..])
  }

  function Decoded(sizeOf: SizeReader, input: seq<Byte>): Option<seq<Byte>>
    decreases |input|
  {
    match NextChunk(sizeOf, input)
    case Bad => None
    case LastChunk => Some([])
    case Chunk(data, rest) =>
      match Decoded(sizeOf, rest)
      case None => None
      case Some(more) => Some(data + more)
  }

  method FindLineEnd(input: seq<Byte>) returns (r: Option<nat>)
    ensures r == LineEnd(input)
  {
    var i := 0;
    while i + 2 <= |input|
      invariant i <= |input|
      invariant LineEnd(input) == match LineEnd(input[i..]) case None => None case Some(k) => Some(i + k)
      decreases |input| - i
    {
      assert input[i..][..2] == input[i..i + 2];
      if input[i..i + 2] == CRLF {
        return Some(i);
      }
      assert input[i..][1..] == input[i + 1..];
      i := i + 1;
    }
    r := None;
  }

  method ReadChunk(sizeOf: SizeReader, input: seq<Byte>) returns (r: Round)
    ensures r == NextChunk(sizeOf, input)
  {
    var lineEnd := FindLineEnd(input);
    if lineEnd.None? {
      return Bad;
    }
    var size := sizeOf(input[..lineEnd.value]);
    if size.None? {
      return Bad;
    }
    var rest := input[lineEnd.value + 2..];
    if size.value == 0 {
      return LastChunk;
    }
    var chunkEnd := size.value + 2;
    if chunkEnd > USIZE_MAX || |rest| < chunkEnd || rest[size.value..chunkEnd] != CRLF {
      return Bad;
    }
    r := Chunk(rest[..size.value], rest[chunkEnd..]);
  }

  // The decoded bytes, with what is decoded already in front.
  function After(decoded: seq<Byte>, more: Option<seq<Byte>>): Option<seq<Byte>> {
    match more
    case None => None
    case Some(bytes) => Some(decoded + bytes)
  }

  lemma AfterNothing(more: Option<seq<Byte>>)
    ensures After([], more) == more
  {
    if more.Some? {
      assert [] + more.value == more.value;
    }
  }

  lemma AfterChunk(decoded: seq<Byte>, data: seq<Byte>, more: Option<seq<Byte>>)
    ensures After(decoded, After(data, more)) == After(decoded + data, more)
  {
    if more.Some? {
      assert decoded + (data + more.value) == decoded + data + more.value;
    }
  }

  method DecodeChunkedBody(sizeOf: SizeReader, body: seq<Byte>) returns (r: Option<seq<Byte>>)
    ensures r == Decoded(sizeOf, body)
  {
    var input := body;
    var decoded := [];
    AfterNothing(Decoded(sizeOf, body));
    while true
      invariant Decoded(sizeOf, body) == After(decoded, Decoded(sizeOf, input))
      decreases |input|
    {
      var round := ReadChunk(sizeOf, input);
      match round
      case Bad =>
        return None;
      case LastChunk =>
        assert decoded + [] == decoded;
        return Some(decoded);
      case Chunk(data, rest) =>
        AfterChunk(decoded, data, Decoded(sizeOf, rest));
        decoded := decoded + data;
        input := rest;
    }
    assert false;
  }

  // ---- what is accepted ----

  // A chunk with its size line.
  datatype Piece = Piece(line: seq<Byte>, data: seq<Byte>)

  function Render(pieces: seq<Piece>): seq<Byte> {
    if pieces == [] then []
    else pieces[0].line + CRLF + pieces[0].data + CRLF + Render(pieces[1..])
  }

  function Bodies(pieces: seq<Piece>): seq<Byte> {
    if pieces == [] then [] else pieces[0].data + Bodies(pieces[1..])
  }

  // A line that ends with the first CRLF after it.
  predicate IsLine(line: seq<Byte>) {
    LineEnd(line + CRLF) == Some(|line|)
  }

  ghost predicate IsPiece(sizeOf: SizeReader, piece: Piece) {
    && IsLine(piece.line) && sizeOf(piece.line) == Some(|piece.data|)
    && 0 < |piece.data| <= USIZE_MAX - 2
  }

  ghost predicate Frames(sizeOf: SizeReader, input: seq<Byte>, pieces: seq<Piece>, last: seq<Byte>, tail: seq<Byte>) {
    && (forall i :: 0 <= i < |pieces| ==> IsPiece(sizeOf, pieces[i]))
    && IsLine(last) && sizeOf(last) == Some(0)
    && input == Render(pieces) + last + CRLF + tail
  }

  lemma {:induction false} LineEndMeaning(input: seq<Byte>)
    ensures LineEnd(input).Some? ==>
              var e := LineEnd(input).value; input == input[..e] + CRLF + input[e + 2..] && IsLine(input[..e])
  {
    if |input| >= 2 {
      if input[..2] == CRLF {
        assert input == [] + CRLF + input[2..];
        assert [] + CRLF == CRLF;
      } else {
        LineEndMeaning(input[1..]);
        if LineEnd(input).Some? {
          LineEndStep(input, LineEnd(input).value);
        }
      }
    }
  }

  lemma LineEndStep(input: seq<Byte>, e: nat)
    requires |input| >= 2 && input[..2] != CRLF && 1 <= e <= |input| - 2
    requires input[1..] == input[1..][..e - 1] + CRLF + input[1..][e + 1..] && IsLine(input[1..][..e - 1])
    ensures input == input[..e] + CRLF + input[e + 2..] && IsLine(input[..e])
  {
    var line, rest := input[1..][..e - 1], input[1..][e + 1..];
    LineGrows(input[0], line, rest, input);
    CutAtLineEnd(input, [input[0]] + line, rest);
  }

  lemma CutAtLineEnd(input: seq<Byte>, line: seq<Byte>, rest: seq<Byte>)
    requires input == line + CRLF + rest
    ensures input[..|line|] == line && input[|line| + 2..] == rest
  {
  }

  lemma LineGrows(first: Byte, line: seq<Byte>, rest: seq<Byte>, input: seq<Byte>)
    requires |input| >= 2 && input[0] == first && input[1..] == line + CRLF + rest
    requires IsLine(line) && input[..2] != CRLF
    ensures input == ([first] + line) + CRLF + rest && IsLine([first] + line)
  {
    var all := ([first] + line) + CRLF;
    assert input == [first] + input[1..];
    assert all[1..] == line + CRLF;
    assert input == all + rest;
    assert all[..2] == input[..2];
  }

  // The first CRLF after a line is found, whatever follows.
  lemma {:induction false} LineIsFound(line: seq<Byte>, after: seq<Byte>)
    requires IsLine(line)
    ensures LineEnd(line + CRLF + after) == Some(|line|)
  {
    var all := line + CRLF + after;
    if line == [] {
      assert all[..2] == CRLF;
    } else {
      assert (line + CRLF)[1..] == line[1..] + CRLF;
      assert all[1..] == line[1..] + CRLF + after;
      assert all[..2] == (line + CRLF)[..2];
      LineIsFound(line[1..], after);
    }
  }

  lemma PieceIsNext(sizeOf: SizeReader, p: Piece, more: seq<Byte>)
    requires IsPiece(sizeOf, p)
    ensures NextChunk(sizeOf, p.line + CRLF + (p.data + CRLF + more)) == Chunk(p.data, more)
  {
    var rest := p.data + CRLF + more;
    var input := p.line + CRLF + rest;
    LineIsFound(p.line, rest);
    assert input[..|p.line|] == p.line && input[|p.line| + 2..] == rest;
    TakesChunk(p.data, more);
  }

  lemma TakesChunk(data: seq<Byte>, more: seq<Byte>)
    requires 0 < |data| <= USIZE_MAX - 2
    ensures TakeChunk(|data|, data + CRLF + more) == Chunk(data, more)
  {
    var rest := data + CRLF + more;
    assert rest[..|data|] == data && rest[|data|..|data| + 2] == CRLF && rest[|data| + 2..] == more;
  }

  lemma LastIsLast(sizeOf: SizeReader, last: seq<Byte>, tail: seq<Byte>)
    requires IsLine(last) && sizeOf(last) == Some(0)
    ensures NextChunk(sizeOf, last + CRLF + tail) == LastChunk
  {
    LineIsFound(last, tail);
    assert (last + CRLF + tail)[..|last|] == last;
  }

  lemma RenderFirst(pieces: seq<Piece>, last: seq<Byte>, tail: seq<Byte>)
    requires pieces != []
    ensures var p := pieces[0];
            Render(pieces) + last + CRLF + tail
              == p.line + CRLF + (p.data + CRLF + (Render(pieces[1..]) + last + CRLF + tail))
  {
    var p, more := pieces[0], Render(pieces[1..]);
    LastThree(Render(pieces), last, CRLF, tail);
    LastThree(more, last, CRLF, tail);
    Regroup(p.line, CRLF, p.data, CRLF, more, last + CRLF + tail);
  }

  lemma LastThree(a: seq<Byte>, b: seq<Byte>, c: seq<Byte>, d: seq<Byte>)
    ensures a + b + c + d == a + (b + c + d)
  {
  }

  lemma Regroup(a: seq<Byte>, b: seq<Byte>, c: seq<Byte>, d: seq<Byte>, e: seq<Byte>, f: seq<Byte>)
    ensures a + b + c + d + e + f == a + b + (c + d + (e + f))
  {
    LastThree(a + b, c, d, e);
    assert (a + b) + (c + d + e) + f == (a + b) + ((c + d + e) + f);
    assert (c + d + e) + f == c + d + (e + f);
  }

  lemma {:induction false} FramesDecode(
      sizeOf: SizeReader, input: seq<Byte>, pieces: seq<Piece>, last: seq<Byte>, tail: seq<Byte>)
    requires Frames(sizeOf, input, pieces, last, tail)
    ensures Decoded(sizeOf, input) == Some(Bodies(pieces))
    decreases |pieces|
  {
    if pieces == [] {
      LastIsLast(sizeOf, last, tail);
      assert input == last + CRLF + tail;
    } else {
      var more := Render(pieces[1..]) + last + CRLF + tail;
      FramesDecode(sizeOf, more, pieces[1..], last, tail);
      RenderFirst(pieces, last, tail);
      assert IsPiece(sizeOf, pieces[0]);
      PieceIsNext(sizeOf, pieces[0], more);
    }
  }

  lemma ChunkIsFramed(size: nat, rest: seq<Byte>)
    requires TakeChunk(size, rest).Chunk?
    ensures var round := TakeChunk(size, rest);
            rest == round.data + CRLF + round.rest && |round.data| == size && 0 < size <= USIZE_MAX - 2
  {
    assert rest[size..][..2] == rest[size..size + 2];
  }

  // A round that finds a chunk has read a piece.
  lemma NextIsPiece(sizeOf: SizeReader, input: seq<Byte>) returns (p: Piece)
    requires NextChunk(sizeOf, input).Chunk?
    ensures IsPiece(sizeOf, p) && p.data == NextChunk(sizeOf, input).data
    ensures input == p.line + CRLF + (p.data + CRLF + NextChunk(sizeOf, input).rest)
  {
    LineEndMeaning(input);
    var e := LineEnd(input).value;
    var rest := input[e + 2..];
    p := Piece(input[..e], NextChunk(sizeOf, input).data);
    ChunkIsFramed(sizeOf(input[..e]).value, rest);
  }

  lemma LastFrame(sizeOf: SizeReader, input: seq<Byte>) returns (last: seq<Byte>, tail: seq<Byte>)
    requires NextChunk(sizeOf, input).LastChunk?
    ensures Frames(sizeOf, input, [], last, tail) && Bodies([]) == []
  {
    LineEndMeaning(input);
    var e := LineEnd(input).value;
    last, tail := input[..e], input[e + 2..];
    assert input == [] + last + CRLF + tail;
  }

  lemma {:induction false} DecodedFrames(sizeOf: SizeReader, input: seq<Byte>)
      returns (pieces: seq<Piece>, last: seq<Byte>, tail: seq<Byte>)
    requires Decoded(sizeOf, input).Some?
    ensures Frames(sizeOf, input, pieces, last, tail) && Decoded(sizeOf, input) == Some(Bodies(pieces))
    decreases |input|
  {
    if NextChunk(sizeOf, input).LastChunk? {
      pieces := [];
      last, tail := LastFrame(sizeOf, input);
    } else {
      var p := NextIsPiece(sizeOf, input);
      var more: seq<Piece>;
      more, last, tail := DecodedFrames(sizeOf, NextChunk(sizeOf, input).rest);
      pieces := [p] + more;
      OneMoreFrame(sizeOf, input, NextChunk(sizeOf, input).rest, p, more, last, tail);
    }
  }

  lemma OneMoreFrame(sizeOf: SizeReader, input: seq<Byte>, rest: seq<Byte>,
                     p: Piece, more: seq<Piece>, last: seq<Byte>, tail: seq<Byte>)
    requires IsPiece(sizeOf, p) && Frames(sizeOf, rest, more, last, tail)
    requires input == p.line + CRLF + (p.data + CRLF + rest)
    ensures Frames(sizeOf, input, [p] + more, last, tail) && Bodies([p] + more) == p.data + Bodies(more)
  {
    assert ([p] + more)[1..] == more;
    RenderFirst([p] + more, last, tail);
  }

  // Decoding accepts exactly the framed bodies, and returns the chunks' data.
  lemma DecodesExactly(sizeOf: SizeReader, input: seq<Byte>, body: seq<Byte>)
    ensures Decoded(sizeOf, input) == Some(body) <==>
            exists pieces, last, tail :: Frames(sizeOf, input, pieces, last, tail) && body == Bodies(pieces)
  {
    if Decoded(sizeOf, input).Some? {
      var pieces, last, tail := DecodedFrames(sizeOf, input);
    }
    forall pieces, last, tail | Frames(sizeOf, input, pieces, last, tail)
      ensures Decoded(sizeOf, input) == Some(Bodies(pieces))
    {
      FramesDecode(sizeOf, input, pieces, last, tail);
    }
  }

  // ---- the encoding of RFC 9112 ----

  // A chunk as the grammar has it: hexadecimal digits, extensions, data.
  datatype RfcChunk = RfcChunk(digits: string, extension: seq<Byte>, data: seq<Byte>)

  // White space and a semicolon start the extensions; no byte of them is a CR.
  predicate IsExtension(bytes: seq<Byte>) {
    if bytes == [] then true
    else if bytes[0] == SPACE || bytes[0] == TAB then IsExtension(bytes[1..])
    else bytes[0] == SEMICOLON
  }

  // Blanks and tabs up to n, and there the end or a semicolon.
  predicate BlanksUpTo(bytes: seq<Byte>, n: nat) {
    && n <= |bytes| && (forall k :: 0 <= k < n ==> bytes[k] == 9 || bytes[k] == 32)
    && (n == |bytes| || bytes[n] == 59)
  }

  lemma {:induction false} ExtensionMeaning(bytes: seq<Byte>)
    ensures IsExtension(bytes) <==> exists n :: BlanksUpTo(bytes, n)
  {
    if bytes == [] || bytes[0] == SEMICOLON {
      assert BlanksUpTo(bytes, 0);
    } else if bytes[0] == SPACE || bytes[0] == TAB {
      ExtensionMeaning(bytes[1..]);
      if n: nat :| BlanksUpTo(bytes[1..], n) {
        assert BlanksUpTo(bytes, n + 1);
      }
      if n: nat :| BlanksUpTo(bytes, n) {
        assert BlanksUpTo(bytes[1..], n - 1);
      }
    }
  }

  // `value` is the length of the data, or zero for the last chunk.
  predicate ValidSizeLine(digits: string, extension: seq<Byte>, value: nat) {
    digits != "" && AllHex(digits) && HexValue(digits) == value && IsExtension(extension) && CR !in extension
  }

  predicate ValidRfcChunk(chunk: RfcChunk) {
    0 < |chunk.data| <= USIZE_MAX - 2 && ValidSizeLine(chunk.digits, chunk.extension, |chunk.data|)
  }

  lemma HexIsAscii(digits: string)
    requires AllHex(digits)
    ensures AllAscii(digits) && CR !in Ascii(digits)
  {
    assert forall i :: 0 <= i < |digits| ==> HexDigit(digits[i]).Some?;
  }

  function SizeLine(digits: string, extension: seq<Byte>): seq<Byte>
    requires AllHex(digits)
  {
    HexIsAscii(digits);
    Ascii(digits) + extension
  }

  function EncodeChunks(chunks: seq<RfcChunk>): seq<Byte>
    requires forall i :: 0 <= i < |chunks| ==> ValidRfcChunk(chunks[i])
  {
    if chunks == [] then []
    else
      assert ValidRfcChunk(chunks[0]);
      SizeLine(chunks[0].digits, chunks[0].extension) + CRLF + chunks[0].data + CRLF + EncodeChunks(chunks[1..])
  }

  function Data(chunks: seq<RfcChunk>): seq<Byte> {
    if chunks == [] then [] else chunks[0].data + Data(chunks[1..])
  }

  lemma {:induction false} NoReturnIsLine(line: seq<Byte>)
    requires CR !in line
    ensures IsLine(line)
  {
    if line == [] {
      assert line + CRLF == CRLF && CRLF[..2] == CRLF;
    } else {
      NoReturnIsLine(line[1..]);
      assert (line + CRLF)[1..] == line[1..] + CRLF;
      assert (line + CRLF)[..2][0] == line[0] && line[0] in line;
    }
  }

  lemma DigitsAreTrimmed(digits: string)
    requires digits != "" && AllHex(digits)
    ensures TrimEnd(TrimStart(digits)) == digits && ';' !in digits && digits[0] != '+'
  {
    assert HexDigit(digits[0]).Some? && HexDigit(digits[|digits| - 1]).Some?;
  }

  // The text of readable extensions: white space, and then nothing or a semicolon.
  lemma {:induction false} ExtensionText(utf8: Utf8, extension: seq<Byte>) returns (blanks: string, rest: string)
    requires KeepsAscii(utf8) && IsExtension(extension) && utf8(extension).Some?
    ensures utf8(extension) == Some(blanks + rest) && (rest == "" || rest[0] == ';')
    ensures forall i :: 0 <= i < |blanks| ==> IsWhite(blanks[i]) && blanks[i] != ';'
    decreases |extension|
  {
    blanks, rest := "", "";
    if extension == [] {
      assert extension == [] && blanks + rest == "";
    } else {
      var first: char := extension[0] as char;
      assert KeepsAsciiBefore(utf8, [first], extension[1..]);
      assert Ascii([first]) + extension[1..] == extension;
      if extension[0] == SEMICOLON {
        rest := [first] + utf8(extension[1..]).value;
        assert blanks + rest == rest;
      } else {
        var moreBlanks, more := ExtensionText(utf8, extension[1..]);
        blanks, rest := [first] + moreBlanks, more;
        assert [first] + (moreBlanks + more) == blanks + rest;
      }
    }
  }

  lemma {:induction false} BlanksAreTrimmed(digits: string, blanks: string)
    requires digits != "" && AllHex(digits) && forall i :: 0 <= i < |blanks| ==> IsWhite(blanks[i])
    ensures TrimEnd(TrimStart(digits + blanks)) == digits
    decreases |blanks|
  {
    if blanks == "" {
      assert digits + blanks == digits;
      DigitsAreTrimmed(digits);
    } else {
      var n := |blanks| - 1;
      BlanksAreTrimmed(digits, blanks[..n]);
      assert HexDigit((digits + blanks)[0]).Some?;
      assert (digits + blanks)[..|digits + blanks| - 1] == digits + blanks[..n];
      assert (digits + blanks)[|digits + blanks| - 1] == blanks[n];
    }
  }

  lemma FirstPart(before: string, rest: string)
    requires ';' !in before && (rest == "" || rest[0] == ';')
    ensures Text.Split(before + rest, ';')[0] == before
  {
    if rest == "" {
      assert before + rest == before;
      Text.SplitFreeText(before, ';');
    } else {
      Text.SplitAtSeparator(before, rest[1..], ';');
      assert before + rest == before + [';'] + rest[1..];
    }
  }

  lemma ReadableSize(utf8: Utf8, digits: string, extension: seq<Byte>)
    requires KeepsAscii(utf8) && digits != "" && AllHex(digits) && HexValue(digits) <= USIZE_MAX
    requires IsExtension(extension) && utf8(extension).Some?
    ensures SizeOf(utf8, SizeLine(digits, extension)) == Some(HexValue(digits))
  {
    HexIsAscii(digits);
    var blanks, rest := ExtensionText(utf8, extension);
    assert KeepsAsciiBefore(utf8, digits, extension);
    assert utf8(SizeLine(digits, extension)) == Some(digits + (blanks + rest));
    assert digits + (blanks + rest) == (digits + blanks) + rest;
    DigitsAreTrimmed(digits);
    FirstPart(digits + blanks, rest);
    BlanksAreTrimmed(digits, blanks);
  }

  // A size line of the grammar is read as its digits' value exactly when its
  // extensions are readable as text, and otherwise not at all.
  lemma SizeLineMeaning(utf8: Utf8, digits: string, extension: seq<Byte>, value: nat)
    requires KeepsAscii(utf8) && ValidSizeLine(digits, extension, value) && value <= USIZE_MAX
    ensures IsLine(SizeLine(digits, extension))
    ensures SizeOf(utf8, SizeLine(digits, extension)) == if utf8(extension).Some? then Some(value) else None
  {
    HexIsAscii(digits);
    var line := SizeLine(digits, extension);
    assert CR !in line;
    NoReturnIsLine(line);
    assert KeepsAsciiBefore(utf8, digits, extension);
    if utf8(extension).Some? {
      ReadableSize(utf8, digits, extension);
    }
  }

  // The first chunk of an encoding, and the end of one, as a round finds them.
  lemma FirstChunkRound(utf8: Utf8, chunk: RfcChunk, more: seq<Byte>)
    requires KeepsAscii(utf8) && ValidRfcChunk(chunk)
    ensures NextChunk(SizeReaderOf(utf8), SizeLine(chunk.digits, chunk.extension) + CRLF + (chunk.data + CRLF + more))
         == if utf8(chunk.extension).Some? then Chunk(chunk.data, more) else Bad
  {
    var line := SizeLine(chunk.digits, chunk.extension);
    SizeLineMeaning(utf8, chunk.digits, chunk.extension, |chunk.data|);
    if utf8(chunk.extension).Some? {
      PieceIsNext(SizeReaderOf(utf8), Piece(line, chunk.data), more);
    } else {
      LineIsFound(line, chunk.data + CRLF + more);
      assert (line + CRLF + (chunk.data + CRLF + more))[..|line|] == line;
    }
  }

  lemma LastChunkRound(utf8: Utf8, zeros: string, extension: seq<Byte>, trailers: seq<Byte>)
    requires KeepsAscii(utf8) && ValidSizeLine(zeros, extension, 0)
    ensures NextChunk(SizeReaderOf(utf8), SizeLine(zeros, extension) + CRLF + trailers)
         == if utf8(extension).Some? then LastChunk else Bad
  {
    var line := SizeLine(zeros, extension);
    SizeLineMeaning(utf8, zeros, extension, 0);
    LineIsFound(line, trailers);
    assert (line + CRLF + trailers)[..|line|] == line;
  }

  // All extensions are readable as text.
  ghost predicate Readable(utf8: Utf8, chunks: seq<RfcChunk>, extension: seq<Byte>) {
    utf8(extension).Some? && forall i :: 0 <= i < |chunks| ==> utf8(chunks[i].extension).Some?
  }

  // Decoding undoes the encoding, for every list of non-empty chunks, any
  // spelling of the sizes, and whatever follows the last chunk, exactly when
  // all extensions are readable as text; otherwise the body is refused.
  lemma {:induction false} DecodeUndoesEncode(
      utf8: Utf8, chunks: seq<RfcChunk>, zeros: string, extension: seq<Byte>, trailers: seq<Byte>)
    requires KeepsAscii(utf8) && forall i :: 0 <= i < |chunks| ==> ValidRfcChunk(chunks[i])
    requires ValidSizeLine(zeros, extension, 0)
    ensures Decoded(SizeReaderOf(utf8), EncodeChunks(chunks) + (SizeLine(zeros, extension) + CRLF + trailers))
         == if Readable(utf8, chunks, extension) then Some(Data(chunks)) else None
    decreases |chunks|
  {
    var end := SizeLine(zeros, extension) + CRLF + trailers;
    if chunks == [] {
      LastChunkRound(utf8, zeros, extension, trailers);
      assert EncodeChunks(chunks) + end == end;
    } else {
      assert ValidRfcChunk(chunks[0]);
      var line, more := SizeLine(chunks[0].digits, chunks[0].extension), EncodeChunks(chunks[1..]) + end;
      DecodeUndoesEncode(utf8, chunks[1..], zeros, extension, trailers);
      FirstChunkRound(utf8, chunks[0], more);
      Regroup(line, CRLF, chunks[0].data, CRLF, EncodeChunks(chunks[1..]), end);
      ReadableSplits(utf8, chunks, extension);
    }
  }

  lemma ReadableSplits(utf8: Utf8, chunks: seq<RfcChunk>, extension: seq<Byte>)
    requires chunks != []
    ensures Readable(utf8, chunks, extension) <==>
            utf8(chunks[0].extension).Some? && Readable(utf8, chunks[1..], extension)
  {
    assert forall i :: 1 <= i < |chunks| ==> chunks[i] == chunks[1..][i - 1];
  }

  // Every length has a spelling.
  function PrintHex(n: nat): (digits: string)
    ensures digits != "" && AllHex(digits) && HexValue(digits) == n
  {
    var d := if n % 16 < 10 then (n % 16 + '0' as int) as char else (n % 16 - 10 + 'a' as int) as char;
    if n < 16 then [d] else PrintHex(n / 16) + [d]
  }
}
