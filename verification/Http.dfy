/** Splitting a response and undoing its chunked transfer coding (section 7.1 of RFC 9112). */
module Http {
  import opened Basics
  import opened Text

  const CRLF := "\r\n"

  /** The size a size line announces, or zero when it cannot be read. */
  function SizeOf(line: string): u64 {
    var size := ParseHex(Trim(BeforeSemicolon(Trim(line))));
    if size.Some? then size.value else 0
  }

  /** What is left after a chunk's data: the rest past its line end, or nothing when that is missing. */
  function AfterLineEnd(after: string, size: nat): (rest: string)
    requires size <= |after|
    ensures |rest| <= |after|
  {
    if At(after, CRLF, size) then after[size + 2..] else []
  }

  /** The data of one chunk and what follows it. */
  datatype Piece = Piece(data: string, rest: string)

  /** The first chunk, unless it is the last one, is malformed, or has not all arrived. */
  function TakeChunk(remaining: string): (p: Option<Piece>)
    ensures p.Some? ==> |p.value.rest| < |remaining|
  {
    var i := Find(remaining, CRLF);
    if i.None? then None
    else
      var after := remaining[i.value + 2..];
      var size := SizeOf(remaining[..i.value]);
      if size == 0 || size > |after| then None else Some(Piece(after[..size], AfterLineEnd(after, size)))
  }

  function Decode(remaining: string): string
    decreases |remaining|
  {
    var p := TakeChunk(remaining);
    if p.None? then [] else p.value.data + Decode(p.value.rest)
  }

  lemma {:induction false} DecodeMore(out: string, p: Piece)
    ensures (out + p.data) + Decode(p.rest) == out + (p.data + Decode(p.rest))
  {
  }

  method Dechunk(rest: string) returns (out: string)
    ensures out == Decode(rest)
  {
    out := [];
    var remaining := rest;
    var i := Find(remaining, CRLF);
    while i.Some?
      invariant i == Find(remaining, CRLF)
      invariant out + Decode(remaining) == Decode(rest)
      decreases |remaining|
    {
      var after := remaining[i.value + 2..];
      var size := SizeOf(remaining[..i.value]);
      if size == 0 || size > |after| {
        break;
      }
      var next := if At(after, CRLF, size) then after[size + 2..] else [];
      assert TakeChunk(remaining) == Some(Piece(after[..size], next));
      DecodeMore(out, Piece(after[..size], next));
      out := out + after[..size];
      remaining := next;
      i := Find(remaining, CRLF);
    }
    assert TakeChunk(remaining) == None;
  }

  /** The first line, without its line end. */
  function FirstLine(head: string): string {
    var i := Find(head, "\n");
    var line := if i.Some? then head[..i.value] else head;
    if i.Some? && line != [] && Last(line) == '\r' then Front(line) else line
  }

  predicate Succeeded(head: string) {
    Contains(FirstLine(head), " 200")
  }

  const CHUNKED := "transfer-encoding: chunked"

  predicate IsChunked(head: string) {
    Contains(ToLower(head), CHUNKED)
  }

  /** The header stands at `i`, in whatever case. */
  predicate ChunkedHeaderAt(head: string, i: nat) {
    i + |CHUNKED| <= |head| && SameButCase(head[i..i + |CHUNKED|], CHUNKED)
  }

  lemma {:induction false} LoweredHeaderAt(head: string, i: nat)
    ensures At(ToLower(head), CHUNKED, i) <==> ChunkedHeaderAt(head, i)
  {
    assert ToLower(CHUNKED) == CHUNKED;
    if i + |CHUNKED| <= |head| {
      assert ToLower(head)[i..i + |CHUNKED|] == ToLower(head[i..i + |CHUNKED|]);
      ToLowerIsSameButCase(head[i..i + |CHUNKED|], CHUNKED);
    }
  }

  /** A head announces chunks exactly when it contains that header, in whatever case. */
  lemma {:induction false} ChunkedHeaderInAnyCase(head: string)
    ensures IsChunked(head) <==> exists i: nat :: ChunkedHeaderAt(head, i)
  {
    forall i: nat ensures At(ToLower(head), CHUNKED, i) <==> ChunkedHeaderAt(head, i) {
      LoweredHeaderAt(head, i);
    }
  }

  /** As the engine writes it. */
  lemma {:induction false} UsualHeaderIsChunked(before: string, after: string)
    ensures IsChunked(before + "Transfer-Encoding: chunked" + after)
  {
    var header := "Transfer-Encoding: chunked";
    var head := before + header + after;
    assert head[|before|..|before| + |CHUNKED|] == header;
    assert SameButCase(header, CHUNKED);
    ChunkedHeaderInAnyCase(head);
    assert ChunkedHeaderAt(head, |before|);
  }

  const BLANK_LINE := "\r\n\r\n"

  /** What follows the head of a successful response, with its chunked coding undone; nothing for any other. */
  function BodyAfter(head: string, rest: string): Option<string> {
    if !Succeeded(head) then None else if !IsChunked(head) then Some(rest) else Some(Decode(rest))
  }

  function BodyOf(response: string): Option<string> {
    var i := Find(response, BLANK_LINE);
    if i.None? then None else BodyAfter(response[..i.value], response[i.value + 4..])
  }

  method Body(response: string) returns (body: Option<string>)
    ensures body == BodyOf(response)
  {
    var i := Find(response, BLANK_LINE);
    if i.None? {
      return None;
    }
    body := OpenBody(response[..i.value], response[i.value + 4..]);
  }

  method OpenBody(head: string, rest: string) returns (body: Option<string>)
    ensures body == BodyAfter(head, rest)
  {
    if !Succeeded(head) {
      return None;
    }
    if !IsChunked(head) {
      return Some(rest);
    }
    var out := Dechunk(rest);
    return Some(out);
  }

  // ---- The coding a sender may use ----

  /** Blanks and a semicolon before whatever a chunk extension says, on one line; or nothing. */
  predicate IsExtension(ext: string) {
    && '\r' !in ext
    && (ext == [] || exists k ::
          0 <= k < |ext| && ext[k] == ';' && forall i | 0 <= i < k :: ext[i] == ' ' || ext[i] == '\t')
  }

  predicate IsSize(digits: string) {
    digits != [] && forall i | 0 <= i < |digits| :: HexDigit(digits[i]).Some?
  }

  /** A chunk: its size in hexadecimal (leading zeros and either case allowed), an extension, and its data. */
  datatype Chunk = Chunk(digits: string, ext: string, data: string) {
    predicate Valid() {
      data != [] && IsSize(digits) && HexValue(digits) == Some(|data|) && IsExtension(ext)
    }

    function Line(): string {
      digits + ext
    }

    /** The chunk as it is sent, and what is sent after it. */
    function Then(rest: string): string {
      Line() + (CRLF + (data + (CRLF + rest)))
    }

    function Length(): nat {
      |Line()| + 2 + |data| + 2
    }
  }

  /** The last chunk: zeros, an extension and a line end, and then any trailer section. */
  datatype Ending = Ending(zeros: string, ext: string, trailers: string) {
    predicate Valid() {
      zeros != [] && (forall i | 0 <= i < |zeros| :: zeros[i] == '0') && IsExtension(ext)
    }

    function Encoded(): string {
      (zeros + ext) + (CRLF + trailers)
    }
  }

  /** A whole chunked body. */
  function Encode(chunks: seq<Chunk>, ending: Ending): string {
    if chunks == [] then ending.Encoded() else chunks[0].Then(Encode(chunks[1..], ending))
  }

  function Data(chunks: seq<Chunk>): string {
    if chunks == [] then [] else chunks[0].data + Data(chunks[1..])
  }

  predicate AllValid(chunks: seq<Chunk>) {
    forall i | 0 <= i < |chunks| :: chunks[i].Valid()
  }

  /** How many chunks have all their data among the first `n` characters. */
  function Whole(chunks: seq<Chunk>, n: nat): (k: nat)
    ensures k <= |chunks|
  {
    if chunks == [] || n < |chunks[0].Line()| + 2 + |chunks[0].data| then 0
    else 1 + Whole(chunks[1..], if n < chunks[0].Length() then 0 else n - chunks[0].Length())
  }

  lemma {:induction false} DigitsAreNotSpecial(c: char)
    requires HexDigit(c).Some?
    ensures !IsSpace(c) && c != ';' && c != '+' && c != '\r'
  {
  }

  /** A size line gives its size back, whatever extension follows it. */
  lemma {:induction false} SizeLineReadsBack(digits: string, ext: string)
    requires IsSize(digits) && IsExtension(ext)
    ensures SizeOf(digits + ext) == if HexValue(digits).Some? then HexValue(digits).value else 0
  {
    var line := digits + ext;
    forall i | 0 <= i < |digits| ensures !IsSpace(digits[i]) && digits[i] != ';' && digits[i] != '+' {
      DigitsAreNotSpecial(digits[i]);
    }
    assert TrimStart(line) == line;
    var k := |digits|;
    if ext != [] {
      var e :| 0 <= e < |ext| && ext[e] == ';' && forall i | 0 <= i < e :: ext[i] == ' ' || ext[i] == '\t';
      k := |digits| + e;
      assert line[k] == ';';
    } else {
      assert line[k - 1] == Last(digits);
    }
    TrimEndKeeps(line, if ext == [] then k - 1 else k);
    var t := TrimEnd(line);
    assert k <= |t| && t == line[..|t|];
    BeforeSemicolonIs(t, k);
    assert t[..k] == digits + ext[..k - |digits|];
    TrimEndDrops(digits, ext[..k - |digits|]);
    assert TrimStart(t[..k]) == t[..k];
  }

  /** White space as the standard library trims it, over ASCII. */
  predicate AllSpace(s: string) {
    forall i | 0 <= i < |s| :: s[i] in " \t\n\r" || s[i] == 11 as char || s[i] == 12 as char
  }

  lemma {:induction false} PaddingIsTrimmed(before: string, text: string, after: string)
    requires AllSpace(before) && AllSpace(after) && text != [] && !IsSpace(text[0]) && !IsSpace(Last(text))
    ensures Trim(before + (text + after)) == text == Trim(text)
  {
    TrimStartDrops(before, text + after);
    TrimEndDrops(text, after);
  }

  lemma {:induction false} SizeWithPlus(digits: string, plus: bool) returns (size: string)
    requires IsSize(digits)
    ensures size == if plus then "+" + digits else digits
    ensures size != [] && !IsSpace(size[0]) && !IsSpace(Last(size))
    ensures BeforeSemicolon(size) == size && ParseHex(size) == HexValue(digits)
  {
    size := if plus then "+" + digits else digits;
    forall i | 0 <= i < |digits| ensures !IsSpace(digits[i]) && digits[i] != ';' && digits[i] != '+' {
      DigitsAreNotSpecial(digits[i]);
    }
    assert Last(size) == Last(digits) && (plus ==> size[1..] == digits);
    assert forall i | 0 <= i < |size| :: size[i] == '+' || size[i] == digits[if plus then i - 1 else i];
    BeforeSemicolonIs(size, |size|);
    assert size[..|size|] == size;
  }

  /** A size is read whatever white space surrounds it, and with a plus sign before it. */
  lemma {:induction false} PaddedSizeReadsBack(before: string, digits: string, after: string, plus: bool)
    requires AllSpace(before) && IsSize(digits) && AllSpace(after)
    ensures SizeOf(before + ((if plus then "+" + digits else digits) + after))
         == if HexValue(digits).Some? then HexValue(digits).value else 0
  {
    var size := SizeWithPlus(digits, plus);
    PaddingIsTrimmed(before, size, after);
  }

  /** Within a line that holds no carriage return, the first line end is the one after it. */
  lemma {:induction false} LineEndsWhereItEnds(line: string, rest: string, cut: string)
    requires '\r' !in line && cut <= line + (CRLF + rest)
    ensures Find(cut, CRLF) == if |cut| < |line| + 2 then None else Some(|line|)
    ensures |cut| >= |line| + 2 ==> cut[..|line|] == line && cut[|line| + 2..] <= rest
  {
    forall j: nat | j < |line| ensures !At(cut, CRLF, j) {
      if j + 2 <= |cut| {
        assert cut[j..j + 2][0] == line[j] && line[j] in line;
      }
    }
    if |cut| >= |line| + 2 {
      assert cut[|line|..|line| + 2] == CRLF;
      FindIs(cut, CRLF, |line|);
    }
  }

  lemma {:induction false} LinesHoldNoReturn(digits: string, ext: string)
    requires IsSize(digits) && IsExtension(ext)
    ensures '\r' !in digits + ext
  {
    forall i | 0 <= i < |digits| ensures digits[i] != '\r' {
      DigitsAreNotSpecial(digits[i]);
    }
  }

  lemma {:induction false} ZerosAreZero(zeros: string)
    requires forall i | 0 <= i < |zeros| :: zeros[i] == '0'
    ensures HexValue(zeros) == Some(0)
  {
    if zeros != [] {
      ZerosAreZero(Front(zeros));
    }
  }

  /** The ending holds no chunk, wherever it is cut. */
  lemma {:induction false} EndingIsNoChunk(ending: Ending, cut: string)
    requires ending.Valid() && cut <= ending.Encoded()
    ensures TakeChunk(cut) == None
  {
    LinesHoldNoReturn(ending.zeros, ending.ext);
    LineEndsWhereItEnds(ending.zeros + ending.ext, ending.trailers, cut);
    SizeLineReadsBack(ending.zeros, ending.ext);
    ZerosAreZero(ending.zeros);
  }

  /** After a size line, the data is taken when it is all there, and the rest starts after its line end. */
  lemma {:induction false} DataIsTaken(data: string, rest: string, after: string)
    requires after <= data + (CRLF + rest) && |data| <= |after|
    ensures after[..|data|] == data
    ensures AfterLineEnd(after, |data|) <= rest
    ensures |AfterLineEnd(after, |data|)| == if |after| < |data| + 2 then 0 else |after| - |data| - 2
  {
    if |after| >= |data| + 2 {
      assert after[|data|..|data| + 2] == CRLF;
    }
  }

  /** The size line of a chunk is found once it has arrived, and gives the length of the data. */
  lemma {:induction false} ChunkLineIsRead(c: Chunk, rest: string, cut: string)
    requires c.Valid() && cut <= c.Then(rest)
    ensures Find(cut, CRLF) == if |cut| < |c.Line()| + 2 then None else Some(|c.Line()|)
    ensures |cut| >= |c.Line()| + 2 ==>
              SizeOf(cut[..|c.Line()|]) == |c.data| && cut[|c.Line()| + 2..] <= c.data + (CRLF + rest)
  {
    LinesHoldNoReturn(c.digits, c.ext);
    LineEndsWhereItEnds(c.Line(), c.data + (CRLF + rest), cut);
    SizeLineReadsBack(c.digits, c.ext);
  }

  /** A chunk is taken when all its data is there, and not otherwise. */
  lemma {:induction false} ChunkIsTaken(c: Chunk, rest: string, cut: string)
    requires c.Valid() && cut <= c.Then(rest)
    ensures TakeChunk(cut).Some? <==> |cut| >= |c.Line()| + 2 + |c.data|
    ensures TakeChunk(cut).Some? ==>
              var p := TakeChunk(cut).value;
              && p.data == c.data && p.rest <= rest
              && |p.rest| == if |cut| < c.Length() then 0 else |cut| - c.Length()
  {
    var n := |c.Line()|;
    ChunkLineIsRead(c, rest, cut);
    if |cut| >= n + 2 {
      var after := cut[n + 2..];
      if |after| >= |c.data| {
        DataIsTaken(c.data, rest, after);
        assert TakeChunk(cut) == Some(Piece(after[..|c.data|], AfterLineEnd(after, |c.data|)));
      }
    }
  }

  lemma {:induction false} DataOfOneMore(chunks: seq<Chunk>, k: nat)
    requires k < |chunks|
    ensures Data(chunks[..k + 1]) == chunks[0].data + Data(chunks[1..][..k])
  {
    assert chunks[..k + 1][0] == chunks[0] && chunks[..k + 1][1..] == chunks[1..][..k];
  }

  /**
   Cut anywhere, an encoded body decodes to the data of the chunks that arrived whole. The chunks may hold anything,
   line ends and text that looks like a size line included.
   */
  lemma {:induction false} CutBodyDecodesToWholeChunks(chunks: seq<Chunk>, ending: Ending, cut: string)
    requires AllValid(chunks) && ending.Valid() && cut <= Encode(chunks, ending)
    ensures Decode(cut) == Data(chunks[..Whole(chunks, |cut|)])
  {
    if chunks == [] {
      EndingIsNoChunk(ending, cut);
    } else {
      var c, more := chunks[0], chunks[1..];
      ChunkIsTaken(c, Encode(more, ending), cut);
      if TakeChunk(cut).Some? {
        var rest := TakeChunk(cut).value.rest;
        CutBodyDecodesToWholeChunks(more, ending, rest);
        DataOfOneMore(chunks, Whole(more, |rest|));
      }
    }
  }

  lemma {:induction false} WholeOfAll(chunks: seq<Chunk>, ending: Ending)
    ensures Whole(chunks, |Encode(chunks, ending)|) == |chunks|
  {
    if chunks != [] {
      WholeOfAll(chunks[1..], ending);
    }
  }

  /** A complete chunked response yields the concatenation of its data, however it was chunked. */
  lemma {:induction false} ChunkingIsUndone(chunks: seq<Chunk>, ending: Ending)
    requires AllValid(chunks) && ending.Valid()
    ensures Decode(Encode(chunks, ending)) == Data(chunks)
  {
    CutBodyDecodesToWholeChunks(chunks, ending, Encode(chunks, ending));
    WholeOfAll(chunks, ending);
    assert chunks[..|chunks|] == chunks;
  }

  /** Any data that is not empty can be sent as one chunk. */
  lemma {:induction false} AnyDataMakesAChunk(data: string)
    requires 0 < |data| < U64_SPAN
    ensures Chunk(ToHex(|data|), [], data).Valid()
  {
    ToHexReadsBack(|data|);
  }

  /** A head that ends at its own first blank line: what follows it in a response is the body. */
  lemma {:induction false} HeadIsSplitOff(head: string, rest: string)
    requires Find(head + BLANK_LINE, BLANK_LINE) == Some(|head|)
    ensures Find(head + BLANK_LINE + rest, BLANK_LINE) == Some(|head|)
    ensures BodyOf(head + BLANK_LINE + rest)
         == if !Succeeded(head) then None else if IsChunked(head) then Some(Decode(rest)) else Some(rest)
  {
    var response := head + BLANK_LINE + rest;
    forall j: nat | j < |head| ensures !At(response, BLANK_LINE, j) {
      assert !At(head + BLANK_LINE, BLANK_LINE, j);
      assert response[j..j + 4] == (head + BLANK_LINE)[j..j + 4];
    }
    assert response[|head|..|head| + 4] == BLANK_LINE;
    FindIs(response, BLANK_LINE, |head|);
    assert response[..|head|] == head && response[|head| + 4..] == rest;
  }

  /** Until all of its head has arrived, a response has no body. */
  lemma {:induction false} CutHeadHasNoBody(head: string, cut: string)
    requires Find(head + BLANK_LINE, BLANK_LINE) == Some(|head|)
    requires cut <= head + BLANK_LINE && |cut| < |head| + |BLANK_LINE|
    ensures BodyOf(cut) == None
  {
    forall j: nat ensures !At(cut, BLANK_LINE, j) {
      if j + 4 <= |cut| {
        assert cut[j..j + 4] == (head + BLANK_LINE)[j..j + 4] && !At(head + BLANK_LINE, BLANK_LINE, j);
      }
    }
  }

  /** The line a response succeeds or fails by is the one before its first line end, or all of a head without one. */
  lemma {:induction false} StatusLineDecides(line: string, rest: string)
    requires '\n' !in line
    ensures FirstLine(line + CRLF + rest) == line == FirstLine(line)
    ensures Succeeded(line + CRLF + rest) <==> exists i: nat :: At(line, " 200", i)
    ensures Succeeded(line) <==> exists i: nat :: At(line, " 200", i)
  {
    forall j: nat ensures !At(line, "\n", j) {
      assert j < |line| ==> line[j..j + 1] == [line[j]] && line[j] in line;
    }
    var head := line + CRLF + rest;
    forall j: nat | j <= |line| ensures !At(head, "\n", j) {
      assert j < |line| ==> head[j] in line;
      assert head[j..j + 1] == [head[j]];
    }
    assert head[|line| + 1..|line| + 2] == "\n";
    FindIs(head, "\n", |line| + 1);
    assert head[..|line| + 1] == line + "\r" && Front(line + "\r") == line;
  }
}
