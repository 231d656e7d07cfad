/** The chunked transfer coding (section 4.1 of RFC 7230): what a byte string means as a chunked
    body, and the frames the proxy writes. */
module ChunkedCoding {
  import opened Text
  import PyInt

  const PROXY_BUFFER: nat := 64 * 1024
  const CRLF := "\r\n"
  const LAST_CHUNK := "0\r\n\r\n"

  datatype BodyFault =
    | ClosedBeforeTerminator
    | InvalidChunkSize
    | TruncatedTerminator
    | TruncatedChunk
    | InvalidChunkTerminator
    | TruncatedRequestBody

  /** A decoded body: the data of its chunks in order, then either what follows the blank line
      that ends the body, or why there is no such line. */
  datatype Decoded =
    | Done(chunks: seq<string>, rest: string)
    | Fault(chunks: seq<string>, why: BodyFault)

  function ChunkSize(line: string): Option<int> { PyInt.Parse(Before(line, ';'), 16) }

  predicate IsBlankLine(line: string) { line == "\r\n" || line == "\n" }

  /** What follows the trailer lines and the blank line after them. */
  function SkipTrailers(s: string): (r: Option<string>)
    ensures r.Some? ==> s != [] && |r.value| <= |s| - |Line(s)|
  {
    if s == [] then None
    else
      var line := Line(s);
      if IsBlankLine(line) then Some(s[|line|..]) else SkipTrailers(s[|line|..])
  }

  /** What one round of the decoder finds at a chunk boundary: a chunk with its data, the end of
      the body, or broken framing together with the data that came before the break. */
  datatype Item =
    | Chunk(data: string, rest: string)
    | Last(rest: string)
    | Broken(got: seq<string>, why: BodyFault)

  /** A negative size, which Python's int() lets through, stands for a chunk without data. */
  function Next(s: string): (item: Item)
    ensures !item.Broken? ==> s != [] && |item.rest| <= |s| - |Line(s)|
  {
    if s == [] then Broken([], ClosedBeforeTerminator)
    else
      var line := Line(s);
      match ChunkSize(line)
      case None => Broken([], InvalidChunkSize)
      case Some(size) => AfterSize(size, s[|line|..])
  }

  lemma NextAfterLine(s: string, size: int)
    requires s != [] && ChunkSize(Line(s)) == Some(size)
    ensures Next(s) == AfterSize(size, s[|Line(s)|..])
  {
  }

  lemma NextWithoutSize(s: string)
    ensures s == [] ==> Next(s) == Broken([], ClosedBeforeTerminator)
    ensures s != [] && ChunkSize(Line(s)).None? ==> Next(s) == Broken([], InvalidChunkSize)
  {
  }

  function AfterSize(size: int, rest: string): (item: Item)
    ensures !item.Broken? ==> |item.rest| <= |rest|
  {
    if size == 0 then
      match SkipTrailers(rest)
      case None => Broken([], TruncatedTerminator)
      case Some(r) => Last(r)
    else
      var n := if size < 0 then 0 else size;
      if |rest| < n then Broken([rest], TruncatedChunk)
      else if !(CRLF <= rest[n..]) then Broken([rest[..n]], InvalidChunkTerminator)
      else Chunk(rest[..n], rest[n + 2..])
  }

  /** The meaning of `s` as a chunked body. */
  function Decode(s: string): Decoded
    decreases |s|
  {
    match Next(s)
    case Chunk(data, rest) => PrependAll([data], Decode(rest))
    case Last(rest) => Done([], rest)
    case Broken(got, why) => Fault(got, why)
  }

  function PrependAll(pieces: seq<string>, d: Decoded): Decoded {
    match d
    case Done(chunks, rest) => Done(pieces + chunks, rest)
    case Fault(chunks, why) => Fault(pieces + chunks, why)
  }

  lemma PrependTwice(a: seq<string>, b: seq<string>, d: Decoded)
    ensures PrependAll(a, PrependAll(b, d)) == PrependAll(a + b, d)
  {
    assert a + (b + d.chunks) == a + b + d.chunks;
  }

  function Concat(pieces: seq<string>): string {
    if pieces == [] then [] else pieces[0] + Concat(pieces[1..])
  }

  lemma {:induction false} ConcatAppend(a: seq<string>, b: seq<string>)
    ensures Concat(a + b) == Concat(a) + Concat(b)
  {
    if a == [] {
      assert a + b == b;
    } else {
      assert (a + b)[1..] == a[1..] + b;
      ConcatAppend(a[1..], b);
    }
  }

  /** One chunk as the proxy writes it: size in hexadecimal, no extension. */
  function Frame(piece: string): (f: string)
    ensures f != []
  {
    PyInt.Hex(|piece|) + CRLF + piece + CRLF
  }

  function Frames(pieces: seq<string>): string {
    if pieces == [] then [] else Frame(pieces[0]) + Frames(pieces[1..])
  }

  lemma {:induction false} FramesAppend(a: seq<string>, b: seq<string>)
    ensures Frames(a + b) == Frames(a) + Frames(b)
  {
    if a == [] {
      assert a + b == b;
    } else {
      assert (a + b)[1..] == a[1..] + b;
      FramesAppend(a[1..], b);
    }
  }

  predicate NonEmpty(pieces: seq<string>) { forall i | 0 <= i < |pieces| :: pieces[i] != [] }

  predicate Bounded(pieces: seq<string>) {
    forall i | 0 <= i < |pieces| :: 1 <= |pieces[i]| <= PROXY_BUFFER
  }

  /** One chunk's data cut the way full reads of at most PROXY_BUFFER bytes cut it. */
  function Split(data: string): (pieces: seq<string>)
    ensures Bounded(pieces)
  {
    if data == [] then []
    else
      var n := if |data| < PROXY_BUFFER then |data| else PROXY_BUFFER;
      [data[..n]] + Split(data[n..])
  }

  function SplitAll(chunks: seq<string>): (pieces: seq<string>)
    ensures Bounded(pieces)
  {
    if chunks == [] then [] else Split(chunks[0]) + SplitAll(chunks[1..])
  }

  // ----- decoding undoes framing

  lemma Halves(a: string, b: string)
    ensures (a + b)[..|a|] == a && (a + b)[|a|..] == b
  {
  }

  lemma Associative(a: string, b: string, c: string)
    ensures a + b + c == a + (b + c)
  {
  }

  /** A chunk extension: nothing, or a `;` and anything that stays on the line. */
  predicate IsExtension(ext: string) {
    (ext == [] || ext[0] == ';') && '\n' !in ext
  }

  /** Any size line section 4.1 allows: hexadecimal digits, an optional extension, CRLF. */
  lemma SizeLine(size: string, ext: string, rest: string)
    requires PyInt.AllHex(size) && IsExtension(ext)
    ensures Line(size + ext + CRLF + rest) == size + ext + CRLF
    ensures ChunkSize(size + ext + CRLF) == Some(PyInt.HexValue(size))
  {
    hide PyInt.Parse, PyInt.HexValue, Before;
    LineOfToken(size + ext, rest);
    PyInt.ParsePlain(size);
    TokenOf(size, ext);
  }

  lemma TokenOf(size: string, ext: string)
    requires ';' !in size && IsExtension(ext)
    ensures Before(size + ext + CRLF, ';') == if ext == [] then size + CRLF else size
  {
    if ext == [] {
      assert size + ext + CRLF == size + CRLF;
      BeforeStops(size + CRLF, ';', []);
      assert size + CRLF + [] == size + CRLF;
    } else {
      assert size + ext + CRLF == size + (ext + CRLF);
      BeforeStops(size, ';', ext + CRLF);
    }
  }

  lemma LineOfToken(token: string, rest: string)
    requires '\n' !in token
    ensures Line(token + CRLF + rest) == token + CRLF
  {
    assert token + CRLF == (token + "\r") + "\n";
    LineEndsAtFirstLineFeed(token + "\r", rest);
  }

  lemma DataAndTerminator(data: string, t: string)
    requires data != []
    ensures AfterSize(|data|, data + CRLF + t) == Chunk(data, t)
  {
    var rest := data + CRLF + t;
    assert rest == data + (CRLF + t);
    Halves(data, CRLF + t);
    assert rest[|data| + 2..] == t;
  }

  lemma NextChunk(size: string, ext: string, data: string, t: string)
    requires PyInt.AllHex(size) && PyInt.HexValue(size) == |data|
    requires IsExtension(ext) && data != []
    ensures Next(size + ext + CRLF + data + CRLF + t) == Chunk(data, t)
  {
    var line := size + ext + CRLF;
    var rest := data + CRLF + t;
    assert line + data + CRLF + t == line + rest;
    SizeLine(size, ext, rest);
    DataAndTerminator(data, t);
    Halves(line, rest);
  }

  lemma NextFrame(piece: string, t: string)
    requires piece != []
    ensures Next(Frame(piece) + t) == Chunk(piece, t)
  {
    var size := PyInt.Hex(|piece|);
    PyInt.HexPrintsTheValue(|piece|);
    NextChunk(size, [], piece, t);
    assert size + [] == size;
  }

  lemma NextLastChunk(t: string)
    ensures Next(LAST_CHUNK + t) == Last(t)
  {
    var rest := CRLF + t;
    assert LAST_CHUNK + t == "0" + [] + CRLF + rest;
    assert PyInt.HexValue("0") == 16 * PyInt.HexValue("0"[..0]);
    SizeLine("0", [], rest);
    Halves("0\r\n", rest);
    BlankLineEnds(t);
  }

  lemma BlankLineEnds(t: string)
    ensures SkipTrailers(CRLF + t) == Some(t)
  {
    LineOfToken([], t);
    assert [] + CRLF == CRLF;
    Halves(CRLF, t);
  }

  lemma FramesSplit(pieces: seq<string>, t: string)
    requires pieces != []
    ensures Frames(pieces) + t == Frame(pieces[0]) + (Frames(pieces[1..]) + t)
    ensures [pieces[0]] + pieces[1..] == pieces
  {
    Associative(Frame(pieces[0]), Frames(pieces[1..]), t);
  }

  /** Whatever follows, frames decode to exactly the pieces they were made of. */
  lemma {:induction false} DecodeFrames(pieces: seq<string>, t: string)
    requires NonEmpty(pieces)
    ensures Decode(Frames(pieces) + t) == PrependAll(pieces, Decode(t))
  {
    if pieces == [] {
      assert [] + t == t;
      assert [] + Decode(t).chunks == Decode(t).chunks;
    } else {
      FramesSplit(pieces, t);
      NextFrame(pieces[0], Frames(pieces[1..]) + t);
      DecodeFrames(pieces[1..], t);
      PrependTwice([pieces[0]], pieces[1..], Decode(t));
    }
  }

  /** A complete output is a complete body: the pieces come back and nothing is left over. */
  lemma CompleteBodyDecodes(pieces: seq<string>, t: string)
    requires NonEmpty(pieces)
    ensures Decode(Frames(pieces) + LAST_CHUNK + t) == Done(pieces, t)
  {
    Associative(Frames(pieces), LAST_CHUNK, t);
    DecodeFrames(pieces, LAST_CHUNK + t);
    NextLastChunk(t);
    assert pieces + [] == pieces;
  }

  // ----- every body the RFC allows

  datatype WireChunk = WireChunk(size: string, ext: string, data: string)

  predicate ValidChunk(c: WireChunk) {
    && PyInt.AllHex(c.size) && PyInt.HexValue(c.size) == |c.data|
    && IsExtension(c.ext) && c.data != []
  }

  /** A trailer field: it fits on its line and does not look like the blank line. */
  predicate IsTrailer(field: string) {
    field != [] && field[0] != '\r' && '\n' !in field
  }

  function Wire(chunks: seq<WireChunk>): string {
    if chunks == [] then []
    else
      var c := chunks[0];
      c.size + c.ext + CRLF + c.data + CRLF + Wire(chunks[1..])
  }

  function Trailers(fields: seq<string>): string {
    if fields == [] then [] else fields[0] + CRLF + Trailers(fields[1..])
  }

  function Data(chunks: seq<WireChunk>): seq<string> {
    if chunks == [] then [] else [chunks[0].data] + Data(chunks[1..])
  }

  lemma {:induction false} TrailersAreSkipped(fields: seq<string>, t: string)
    requires forall i | 0 <= i < |fields| :: IsTrailer(fields[i])
    ensures SkipTrailers(Trailers(fields) + (CRLF + t)) == Some(t)
  {
    if fields == [] {
      BlankLineEnds(t);
      assert [] + (CRLF + t) == CRLF + t;
    } else {
      var more := Trailers(fields[1..]) + (CRLF + t);
      var line := fields[0] + CRLF;
      assert Trailers(fields) + (CRLF + t) == line + more;
      LineOfToken(fields[0], more);
      Halves(line, more);
      TrailersAreSkipped(fields[1..], t);
    }
  }

  /** Every body section 4.1 of RFC 7230 generates, with any digit case, leading zeros,
      extensions and trailers, decodes to the data of its chunks and ends at its blank line. */
  lemma {:induction false} EveryRfcBodyDecodes(
      chunks: seq<WireChunk>, zero: string, ext: string, fields: seq<string>, t: string)
    requires forall i | 0 <= i < |chunks| :: ValidChunk(chunks[i])
    requires PyInt.AllHex(zero) && PyInt.HexValue(zero) == 0 && IsExtension(ext)
    requires forall i | 0 <= i < |fields| :: IsTrailer(fields[i])
    ensures Decode(Wire(chunks) + (zero + ext + CRLF + (Trailers(fields) + (CRLF + t))))
         == Done(Data(chunks), t)
  {
    var end := Trailers(fields) + (CRLF + t);
    var last := zero + ext + CRLF + end;
    if chunks == [] {
      assert [] + last == last;
      SizeLine(zero, ext, end);
      Halves(zero + ext + CRLF, end);
      TrailersAreSkipped(fields, t);
    } else {
      var c := chunks[0];
      var more := Wire(chunks[1..]) + last;
      assert Wire(chunks) + last == c.size + c.ext + CRLF + c.data + CRLF + more;
      NextChunk(c.size, c.ext, c.data, more);
      EveryRfcBodyDecodes(chunks[1..], zero, ext, fields, t);
    }
  }

  /** What is reported of a body whose first chunk is not whole, by what is wrong with it. */
  lemma WhichFault(size: string, rest: string)
    requires PyInt.AllHex(size)
    ensures var n, d := PyInt.HexValue(size), Decode(size + "\r\n" + rest);
      && (|rest| < n ==> d == Fault([rest], TruncatedChunk))
      && (0 < n <= |rest| && !("\r\n" <= rest[n..]) ==> d == Fault([rest[..n]], InvalidChunkTerminator))
      && (n == 0 && rest == [] ==> d == Fault([], TruncatedTerminator))
    ensures Decode([]) == Fault([], ClosedBeforeTerminator)
  {
    hide PyInt.HexValue, PyInt.AllHex, ChunkSize, Line;
    var s := size + "\r\n" + rest;
    assert s == size + [] + CRLF + rest && size + [] + CRLF == size + "\r\n";
    SizeLine(size, [], rest);
    Halves(size + "\r\n", rest);
    NextAfterLine(s, PyInt.HexValue(size));
  }

  /** One body and one frame, byte for byte. */
  lemma OneBody()
    ensures Decode("3;q\r\nabc\r\n00\r\nt: 1\r\n\r\nGET") == Done(["abc"], "GET")
  {
    hide Decode;
    var c := WireChunk("3", ";q", "abc");
    assert PyInt.HexValue("3") == 16 * PyInt.HexValue("3"[..0]) + 3;
    ZeroNumerals();
    assert IsTrailer("t: 1");
    EveryRfcBodyDecodes([c], "00", [], ["t: 1"], "GET");
    assert Wire([c]) == "3;q\r\nabc\r\n" by {
      assert Wire([c]) == "3" + ";q" + CRLF + "abc" + CRLF + Wire([c][1..]);
    }
    assert Trailers(["t: 1"]) == "t: 1\r\n" by {
      assert Trailers(["t: 1"]) == "t: 1" + CRLF + Trailers(["t: 1"][1..]);
    }
    assert Wire([c]) + ("00" + [] + CRLF + (Trailers(["t: 1"]) + (CRLF + "GET")))
        == "3;q\r\nabc\r\n00\r\nt: 1\r\n\r\nGET";
    assert Data([c]) == ["abc"];
  }

  lemma OneFrame()
    ensures Frame("abc") == "3\r\nabc\r\n"
  {
    assert PyInt.Hex(3) == "3";
  }

  lemma ZeroNumerals()
    ensures PyInt.AllHex("0") && PyInt.HexValue("0") == 0
    ensures PyInt.AllHex("00") && PyInt.HexValue("00") == 0
  {
    assert "0"[..0] == [] && "00"[..1] == "0";
  }

  /** The size line and the blank line may end in a bare line feed. */
  lemma BareLineFeeds(t: string)
    ensures Decode("0" + "\n" + ("\n" + t)) == Done([], t)
  {
    hide PyInt.Parse, Before;
    var rest := "\n" + t;
    var s := "0" + "\n" + rest;
    LineEndsAtFirstLineFeed("0", rest);
    LineEndsAtFirstLineFeed([], t);
    assert [] + "\n" + t == rest && [] + "\n" == "\n";
    Halves("0\n", rest);
    Halves("\n", t);
    BeforeStops("0\n", ';', []);
    assert "0\n" + [] == "0\n" && "0" + "\n" == "0\n";
    assert Before("0\n", ';') == "0\n";
    ZeroWithLineFeed();
    assert Line(s) == "0\n" && ChunkSize(Line(s)) == Some(0);
    NextAfterLine(s, 0);
  }

  lemma ZeroWithLineFeed()
    ensures PyInt.Parse("0\n", 16) == Some(0)
  {
    hide PyInt.HexValue, PyInt.AllHex;
    ZeroNumerals();
    PyInt.ParsePlain("0");
    assert StripRight("0\n") == StripRight("0") by {
      assert "0\n"[..1] == "0";
    }
    StripTight("0");
  }

  // ----- a chunked body delimits itself

  lemma {:induction false} TrailersIgnoreWhatFollows(s: string, t: string)
    requires SkipTrailers(s).Some?
    ensures s != []
    ensures SkipTrailers(s + t) == Some(SkipTrailers(s).value + t)
    decreases |s|
  {
    var line := Line(s);
    LineKeepsItsEnd(s, t);
    if !IsBlankLine(line) {
      TrailersIgnoreWhatFollows(s[|line|..], t);
    }
  }

  lemma AfterSizeIgnoresWhatFollows(size: int, rest: string, t: string)
    requires !AfterSize(size, rest).Broken?
    ensures var item := AfterSize(size, rest);
      AfterSize(size, rest + t) == item.(rest := item.rest + t)
  {
    if size == 0 {
      TrailersIgnoreWhatFollows(rest, t);
    } else {
      var n := if size < 0 then 0 else size;
      assert (rest + t)[..n] == rest[..n];
      assert (rest + t)[n..] == rest[n..] + t;
      assert (rest + t)[n + 2..] == rest[n + 2..] + t;
    }
  }

  lemma NextIgnoresWhatFollows(s: string, t: string)
    requires !Next(s).Broken?
    ensures var item := Next(s); Next(s + t) == item.(rest := item.rest + t)
  {
    var line := Line(s);
    LineKeepsItsEnd(s, t);
    AfterSizeIgnoresWhatFollows(ChunkSize(line).value, s[|line|..], t);
  }

  /** Once a body has ended, no later byte can change what it was or where it ended. */
  lemma {:induction false} DecodeIgnoresWhatFollows(s: string, t: string)
    requires Decode(s).Done?
    ensures Decode(s + t) == Done(Decode(s).chunks, Decode(s).rest + t)
    decreases |s|
  {
    NextIgnoresWhatFollows(s, t);
    if Next(s).Chunk? {
      DecodeIgnoresWhatFollows(Next(s).rest, t);
    }
  }

  /** What can be left on the wire after the last whole frame when a send breaks off: a proper
      prefix of another frame or of the terminator. */
  ghost predicate OpenTail(tail: string) {
    || (tail <= LAST_CHUNK && tail != LAST_CHUNK)
    || exists piece :: piece != [] && tail <= Frame(piece)
  }

  /** An output that stops before its terminator never looks complete: not at its end, and not at
      any point before its end. */
  lemma OpenBodyNeverLooksComplete(pieces: seq<string>, tail: string, seen: string)
    requires NonEmpty(pieces) && OpenTail(tail)
    requires seen <= Frames(pieces) + tail
    ensures Decode(seen).Fault?
  {
    if Decode(seen).Done? {
      if tail <= LAST_CHUNK && tail != LAST_CHUNK {
        var whole := Frames(pieces) + LAST_CHUNK;
        CompleteBodyDecodes(pieces, []);
        assert whole + [] == whole;
        var missing := whole[|seen|..];
        assert seen + missing == whole by {
          PrefixThroughTail(Frames(pieces), tail, LAST_CHUNK, seen);
        }
        DecodeIgnoresWhatFollows(seen, missing);
      } else {
        var piece :| piece != [] && tail <= Frame(piece);
        var whole := Frames(pieces) + Frame(piece);
        DecodeFrames(pieces, Frame(piece));
        NextFrame(piece, []);
        assert Frame(piece) + [] == Frame(piece);
        var missing := whole[|seen|..];
        assert seen + missing == whole by {
          PrefixThroughTail(Frames(pieces), tail, Frame(piece), seen);
        }
        DecodeIgnoresWhatFollows(seen, missing);
      }
    }
  }

  lemma PrefixThroughTail(a: string, tail: string, b: string, seen: string)
    requires tail <= b && seen <= a + tail
    ensures seen <= a + b
    ensures seen + (a + b)[|seen|..] == a + b
  {
    assert a + tail <= a + b;
  }

  // ----- reframing

  lemma {:induction false} SplitConcat(data: string)
    ensures Concat(Split(data)) == data
  {
    if data != [] {
      var n := if |data| < PROXY_BUFFER then |data| else PROXY_BUFFER;
      SplitConcat(data[n..]);
      assert data == data[..n] + data[n..];
    }
  }

  /** Only the last piece is smaller than the buffer of 64 KiB. */
  lemma {:induction false} SplitIsFull(data: string)
    ensures forall i | 0 <= i < |Split(data)| - 1 :: |Split(data)[i]| == 65536
  {
    if data != [] {
      var n := if |data| < PROXY_BUFFER then |data| else PROXY_BUFFER;
      SplitIsFull(data[n..]);
    }
  }

  lemma {:induction false} SplitAllAppend(a: seq<string>, b: seq<string>)
    ensures SplitAll(a + b) == SplitAll(a) + SplitAll(b)
  {
    if a == [] {
      assert a + b == b;
    } else {
      assert (a + b)[1..] == a[1..] + b;
      SplitAllAppend(a[1..], b);
    }
  }

  lemma SplitSingle(data: string)
    ensures SplitAll([data]) == Split(data) && Concat([data]) == data
  {
    assert Split(data) + [] == Split(data);
  }

  /** Pieces that already fit the buffer are not cut again. */
  lemma {:induction false} SplitAllKeepsBounded(pieces: seq<string>)
    requires Bounded(pieces)
    ensures SplitAll(pieces) == pieces
  {
    if pieces != [] {
      var p := pieces[0];
      FitsBuffer(p);
      SplitAllKeepsBounded(pieces[1..]);
    }
  }

  lemma FitsBuffer(p: string)
    requires 1 <= |p| <= PROXY_BUFFER
    ensures Split(p) == [p]
  {
    assert p[..|p|] == p && p[|p|..] == [];
  }

  lemma {:induction false} SplitAllConcat(chunks: seq<string>)
    ensures Concat(SplitAll(chunks)) == Concat(chunks)
  {
    if chunks != [] {
      SplitConcat(chunks[0]);
      SplitAllConcat(chunks[1..]);
      ConcatAppend(Split(chunks[0]), SplitAll(chunks[1..]));
    }
  }

  /** The whole body a successful run over `s` writes when reads are full. */
  function Reframed(s: string): string
    requires Decode(s).Done?
  {
    Frames(SplitAll(Decode(s).chunks)) + LAST_CHUNK
  }

  /** Whatever reads a successful run had, its output decodes to the pieces it was made of with
      nothing left over, and a second proxy would send on the very same bytes. */
  lemma EveryOutputIsAFixedPoint(pieces: seq<string>)
    requires Bounded(pieces)
    ensures var out := Frames(pieces) + LAST_CHUNK;
      Decode(out) == Done(pieces, []) && Reframed(out) == out
  {
    var out := Frames(pieces) + LAST_CHUNK;
    CompleteBodyDecodes(pieces, []);
    assert out + [] == out;
    SplitAllKeepsBounded(pieces);
  }

  /** With full reads: reframing keeps the payload and is idempotent. */
  lemma ReframingIsIdempotent(s: string)
    requires Decode(s).Done?
    ensures Decode(Reframed(s)).Done? && Decode(Reframed(s)).rest == []
    ensures Concat(Decode(Reframed(s)).chunks) == Concat(Decode(s).chunks)
    ensures Reframed(Reframed(s)) == Reframed(s)
  {
    EveryOutputIsAFixedPoint(SplitAll(Decode(s).chunks));
    SplitAllConcat(Decode(s).chunks);
  }
}
