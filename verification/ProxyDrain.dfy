/** Draining what is left of a request body before an error response. */
module ProxyDrain {
  import opened Text
  import opened ChunkedCoding
  import opened ProxyStreams
  import PyInt

  const DRAIN_CAP: nat := 8 * PROXY_BUFFER

  // ----- what a drain without faults leaves unread

  /** After one round: the drain is over, or goes on with what is left of the cap. */
  datatype Round = Over(rest: string) | Onward(rest: string, cap: nat)

  function DrainedItem(size: int, rest: string, cap: nat): (d: Round)
    ensures |d.rest| <= |rest|
  {
    if size == 0 then
      match SkipTrailers(rest)
      case None => Over([])
      case Some(after) => Over(after)
    else
      var taken := Least(if size < 0 then 0 else size, cap, |rest|);
      var after := rest[taken..];
      if taken < size then Over(after) else Onward(after[|Line(after)|..], cap - taken)
  }

  function DrainedOnce(s: string, cap: nat): (d: Round)
    ensures |d.rest| <= |s| && (d.Onward? ==> |d.rest| < |s|)
  {
    if s == [] then Over([])
    else
      var line := Line(s);
      match ChunkSize(line)
      case None => Over(s[|line|..])
      case Some(size) => DrainedItem(size, s[|line|..], cap)
  }

  /** What the chunked drain leaves unread, wherever in the input it starts. */
  function DrainedTo(s: string, cap: nat): (t: string)
    ensures |t| <= |s|
    decreases |s|
  {
    if cap == 0 then s
    else
      match DrainedOnce(s, cap)
      case Over(rest) => rest
      case Onward(rest, left) => DrainedTo(rest, left)
  }

  // ----- the drain itself

  /** `drain_fixed`. The cap is shared by all calls, so it goes in and comes back out. */
  method DrainFixed(r: Reader, size: int, cap: nat) returns (left: nat, ok: bool)
    requires r.Valid()
    modifies r
    ensures r.Valid() && left <= cap
    ensures r.pos - old(r.pos) == r.bulk - old(r.bulk)
    ensures old(r.pos) <= r.pos <= old(r.pos) + (if size < 0 then 0 else size)
    ensures r.bulk - old(r.bulk) <= cap
    ensures ok ==> cap - left == r.bulk - old(r.bulk)
    // Stopped by the size, the cap or the end of input, whichever comes first.
    ensures ok ==>
      var taken := Least(if size < 0 then 0 else size, cap, |old(r.Rest())|);
      cap - left == taken && r.Rest() == old(r.Rest())[taken..]
    ensures !r.faulty ==> ok
  {
    var remaining := size;
    left := cap;
    while remaining > 0 && left > 0
      invariant r.Valid() && left <= cap
      invariant r.pos - old(r.pos) == r.bulk - old(r.bulk) == cap - left
      invariant remaining == size - (cap - left) && (size >= 0 ==> remaining >= 0)
      invariant size < 0 ==> left == cap
    {
      var n := if remaining < PROXY_BUFFER then remaining else PROXY_BUFFER;
      var chunk := r.Read(if left < n then left else n);
      if chunk.None? {
        return left, false;
      }
      if chunk.value == [] {
        break;
      }
      remaining := remaining - |chunk.value|;
      left := left - |chunk.value|;
    }
    ok := true;
  }

  /** What a size announces: trailers to the end, or data and the line after it. `more` says
      whether the loop goes on. */
  method DrainSized(r: Reader, size: int, cap: nat) returns (left: nat, more: bool)
    requires r.Valid()
    modifies r
    ensures r.Valid() && old(r.pos) <= r.pos
    ensures left <= cap && r.bulk - old(r.bulk) <= cap
    ensures more ==> r.bulk - old(r.bulk) == cap - left
    ensures StaysInside(AfterSize(size, old(r.Rest())), r.Rest(), cap, left, more)
    ensures !r.faulty ==>
      DrainedItem(size, old(r.Rest()), cap) == if more then Onward(r.Rest(), left) else Over(r.Rest())
  {
    hide Line, SkipTrailers;
    left, more := cap, false;
    if size == 0 {
      var _ := ReadTrailers(r);
      return;
    }
    ghost var rest := r.Rest();
    var ok;
    left, ok := DrainFixed(r, size, cap);
    if !ok || cap - left < size {
      return;
    }
    ghost var n := if size < 0 then 0 else size;
    assert r.Rest() == rest[n..];
    LineAtTerminator(rest[n..]);
    var end := r.ReadLine();
    more := end.Some?;
  }

  /** Even with faults the drain never goes past an item of the body, and goes on only at the next
      one. */
  ghost predicate StaysInside(item: Item, after: string, cap: nat, left: int, more: bool) {
    match item
    case Broken(_, _) => true
    case Last(rest) => !more && |rest| <= |after|
    case Chunk(data, rest) =>
      |rest| <= |after| && (more ==> after == rest && cap - left == |data|)
  }

  /** One round of the chunked drain. */
  method DrainRound(r: Reader, cap: nat) returns (left: nat, more: bool)
    requires r.Valid()
    modifies r
    ensures r.Valid() && old(r.pos) <= r.pos && (more ==> old(r.pos) < r.pos)
    ensures left <= cap && r.bulk - old(r.bulk) <= cap
    ensures more ==> r.bulk - old(r.bulk) == cap - left
    ensures StaysInside(Next(old(r.Rest())), r.Rest(), cap, left, more)
    ensures !r.faulty ==>
      DrainedOnce(old(r.Rest()), cap) == if more then Onward(r.Rest(), left) else Over(r.Rest())
  {
    hide ChunkSize, Line, Next, AfterSize, DrainedItem;
    ghost var here := r.Rest();
    NextWithoutSize(here);
    left, more := cap, false;
    var sizeLine := r.ReadLine();
    if sizeLine.None? || sizeLine.value == [] {
      return;
    }
    var size := ChunkSize(sizeLine.value);
    if size.None? {
      return;
    }
    NextAfterLine(here, size.value);
    left, more := DrainSized(r, size.value, cap);
  }

  lemma LineAtTerminator(s: string)
    ensures CRLF <= s ==> Line(s) == CRLF
  {
    if CRLF <= s {
      LineOfToken([], s[2..]);
      assert s == [] + CRLF + s[2..];
    }
  }

  method DrainChunks(r: Reader)
    requires r.Valid()
    modifies r
    ensures r.Valid() && old(r.pos) <= r.pos
    ensures r.bulk - old(r.bulk) <= DRAIN_CAP
    ensures var d := Decode(old(r.Rest()));
      d.Done? ==> |d.rest| <= |r.Rest()|
    ensures !r.faulty ==> r.Rest() == DrainedTo(old(r.Rest()), DRAIN_CAP)
  {
    hide Decode, Next, Concat, DrainedOnce;
    ghost var d := Decode(r.Rest());
    var cap: nat := DRAIN_CAP;
    while cap > 0
      invariant r.Valid() && old(r.pos) <= r.pos && cap <= DRAIN_CAP
      invariant r.bulk - old(r.bulk) == DRAIN_CAP - cap
      invariant d.Done? ==> Decode(r.Rest()).Done? && Decode(r.Rest()).rest == d.rest
      invariant !r.faulty ==> DrainedTo(old(r.Rest()), DRAIN_CAP) == DrainedTo(r.Rest(), cap)
      decreases |r.input| - r.pos
    {
      RestIsShorter(r.Rest());
      FirstItemOf(r.Rest());
      var left, more := DrainRound(r, cap);
      if !more {
        return;
      }
      cap := left;
    }
    RestIsShorter(r.Rest());
  }

  /** What a drain takes of what it finds: all of a fixed-length remainder that is there, up to the
      cap; of a chunked upload what reads as chunks, up to the cap. */
  predicate Drained(clRemaining: Option<int>, isChunked: bool, before: string, after: string) {
    if clRemaining.Some? then
      var wanted := if clRemaining.value < 0 then 0 else clRemaining.value;
      after == before[Least(wanted, DRAIN_CAP, |before|)..]
    else if isChunked then after == DrainedTo(before, DRAIN_CAP)
    else after == before
  }

  /** `_drain_request_body`. */
  method DrainRequestBody(r: Reader, clRemaining: Option<int>, isChunked: bool)
    requires r.Valid()
    modifies r
    ensures r.Valid() && old(r.pos) <= r.pos
    // Never more body bytes than the cap, however large the body or its chunks.
    ensures r.bulk - old(r.bulk) <= DRAIN_CAP
    // A fixed-length drain stays inside the count it was given, a chunked drain that starts at a
    // chunk boundary inside the body.
    ensures clRemaining.Some? ==>
      r.pos <= old(r.pos) + (if clRemaining.value < 0 then 0 else clRemaining.value)
    ensures clRemaining.None? && isChunked && Decode(old(r.Rest())).Done? ==>
      |Decode(old(r.Rest())).rest| <= |r.Rest()|
    ensures !r.faulty ==> Drained(clRemaining, isChunked, old(r.Rest()), r.Rest())
  {
    hide Decode, Concat, DrainedTo;
    if clRemaining.Some? {
      var _, _ := DrainFixed(r, clRemaining.value, DRAIN_CAP);
    } else if isChunked {
      DrainChunks(r);
    }
  }

  lemma {:induction false} RestIsShorter(s: string)
    ensures Decode(s).Done? ==> |Decode(s).rest| < |s|
    decreases |s|
  {
    if Next(s).Chunk? {
      RestIsShorter(Next(s).rest);
    }
  }

  lemma FirstItemOf(s: string)
    ensures Decode(s).Done? ==>
      match Next(s)
      case Broken(_, _) => false
      case Last(rest) => Decode(s).rest == rest
      case Chunk(data, rest) =>
        && Decode(rest).Done? && Decode(rest).rest == Decode(s).rest
        && |Decode(s).rest| < |rest|
        && |Concat(Decode(s).chunks)| == |data| + |Concat(Decode(rest).chunks)|
  {
    if Next(s).Chunk? {
      RestIsShorter(Next(s).rest);
    }
  }

  // ----- draining from a chunk boundary

  /** From a chunk boundary, a whole body is drained to its end, and no further, exactly when it is
      below the cap. A body at or above the cap stays partly unread. */
  lemma {:induction false} WholeBodyIsDrained(s: string, cap: nat)
    requires Decode(s).Done?
    ensures DrainedTo(s, cap) == Decode(s).rest <==> |Concat(Decode(s).chunks)| < cap
    ensures |DrainedTo(s, cap)| >= |Decode(s).rest|
    decreases |s|
  {
    hide Concat, ChunkSize, Next, Decode, DrainedOnce;
    RestIsShorter(s);
    FirstItemOf(s);
    DrainedItemIsNext(s, cap);
    if Next(s).Last? {
      NoDataAtEnd(s);
    } else if |Next(s).data| <= cap {
      WholeBodyIsDrained(Next(s).rest, cap - |Next(s).data|);
    }
  }

  lemma DrainedItemIsNext(s: string, cap: nat)
    ensures Next(s).Last? ==> DrainedOnce(s, cap) == Over(Next(s).rest)
    ensures Next(s).Chunk? && |Next(s).data| <= cap ==>
      DrainedOnce(s, cap) == Onward(Next(s).rest, cap - |Next(s).data|)
    ensures Next(s).Chunk? && |Next(s).data| > cap ==>
      DrainedOnce(s, cap).Over? && |DrainedOnce(s, cap).rest| > |Next(s).rest|
  {
    hide ChunkSize, SkipTrailers;
    if Next(s).Chunk? {
      var rest := s[|Line(s)|..];
      LineAtTerminator(rest[|Next(s).data|..]);
    }
  }

  /** Of a fixed-length remainder that is all there, exactly up to and including the cap. */
  lemma RemainderIsDrained(length: int, isChunked: bool, before: string, after: string)
    requires Drained(Some(length), isChunked, before, after) && length <= |before|
    ensures after == before[if length < 0 then 0 else length..] <==> length <= 524288
  {
  }

  /** Two uploads too large to be drained: of a chunk as large as the cap the terminator is left,
      of a fixed-length body one byte larger that byte. */
  lemma UploadsAboveTheCap(piece: string, body: string, after: string)
    requires |piece| == 524288 && |body| == 524289
    requires Drained(Some(|body|), false, body, after)
    ensures DrainedTo(Frame(piece) + LAST_CHUNK, DRAIN_CAP) == LAST_CHUNK && |after| == 1
  {
    hide Frame, Decode, Next, DrainedOnce;
    NextFrame(piece, LAST_CHUNK);
    DrainedItemIsNext(Frame(piece) + LAST_CHUNK, DRAIN_CAP);
  }

  /** Two uploads that are drained: 500000 bytes with a length, and the largest single chunk. */
  lemma UploadsBelowTheCap(piece: string, body: string, after: string)
    requires |piece| == 524287 && |body| == 500000
    requires Drained(Some(|body|), false, body, after)
    ensures DrainedTo(Frame(piece) + LAST_CHUNK, DRAIN_CAP) == [] && after == []
  {
    hide Frame, Decode, DrainedTo;
    OneChunk(piece);
    SinglePiece(piece);
    WholeBodyIsDrained(Frame(piece) + LAST_CHUNK, DRAIN_CAP);
  }

  // ----- draining after a send that failed inside a chunk

  lemma CrlfIsNoSize()
    ensures ChunkSize(CRLF).None?
  {
    assert Before(CRLF, ';') == CRLF by {
      BeforeStops(CRLF, ';', []);
      assert CRLF + [] == CRLF;
    }
    assert StripLeft(CRLF) == StripLeft("\n");
  }

  /** From the CRLF that closes a chunk's data the drain takes these two bytes and stops. */
  lemma DrainStopsAtCrlf(t: string)
    requires CRLF <= t
    ensures ChunkSize(Line(t)).None? && DrainedTo(t, DRAIN_CAP) == t[2..]
  {
    hide ChunkSize;
    LineAtTerminator(t);
    CrlfIsNoSize();
  }

  lemma {:induction false} LineEndsBy(s: string, i: nat)
    requires i < |s| && s[i] == '\n'
    ensures |Line(s)| <= i + 1
  {
    if s[0] != '\n' {
      LineEndsBy(s[1..], i - 1);
    }
  }

  lemma ChunkOnTheWire(s: string)
    requires Next(s).Chunk?
    ensures ChunkSize(Line(s)).Some?
    ensures |Next(s).data| == if ChunkSize(Line(s)).value < 0 then 0 else ChunkSize(Line(s)).value
    ensures s[|Line(s)|..] == Next(s).data + CRLF + Next(s).rest
  {
    hide ChunkSize, Line, SkipTrailers;
  }

  /** The chunk that a whole upload broke off in. */
  lemma BrokenChunk(s: string, t: string, full: bool)
    requires Decode(s).Done? && BrokeInFirst(s, t, full)
    ensures Next(s).Chunk? && Decode(Next(s).rest).Done?
    ensures var Chunk(data, rest) := Next(s);
      var k := |data| + |CRLF| + |rest| - |t|;
      && 1 <= k <= |data| && t == data[k..] + CRLF + rest
      && (full ==> AtPieceEnd(k, |data|, |data| + |CRLF| + |rest|))
  {
    hide ChunkSize, Line, AtPieceEnd;
    ChunkOnTheWire(s);
  }

  /** If the unread part of a whole upload does not start with something that reads as a size, the
      drain leaves part of the upload unread. */
  lemma {:induction false} BreakLeavesUpload(s: string, t: string, full: bool)
    requires Decode(s).Done? && BrokeInside(s, t, full) && ChunkSize(Line(t)).None?
    ensures |DrainedTo(t, DRAIN_CAP)| > |Decode(s).rest|
    decreases |s|
  {
    hide ChunkSize, Line, BrokeInFirst, SkipTrailers;
    FirstItemOf(s);
    if BrokeInFirst(s, t, full) {
      BrokenChunk(s, t, full);
      var Chunk(data, rest) := Next(s);
      LineEndsBy(t, |t| - |rest| - 1);
    } else {
      BreakLeavesUpload(Next(s).rest, t, full);
    }
  }

  predicate ChunksFit(chunks: seq<string>) {
    forall i | 0 <= i < |chunks| :: |chunks[i]| <= PROXY_BUFFER
  }

  lemma ChunksFitTail(s: string)
    requires Decode(s).Done? && Next(s).Chunk? && ChunksFit(Decode(s).chunks)
    ensures Decode(Next(s).rest).Done? && ChunksFit(Decode(Next(s).rest).chunks)
    ensures |Next(s).data| <= PROXY_BUFFER
  {
    hide Next;
    var Chunk(data, rest) := Next(s);
    assert Decode(s).chunks == [data] + Decode(rest).chunks;
    assert Decode(s).chunks[0] == data;
    assert forall i | 0 <= i < |Decode(rest).chunks| ::
      Decode(rest).chunks[i] == Decode(s).chunks[i + 1];
  }

  lemma OnlyPieceEnd(k: nat, size: nat, available: nat)
    requires AtPieceEnd(k, size, available) && 1 <= k <= size <= PROXY_BUFFER && size < available
    ensures k == size
  {
  }

  /** With full reads a chunk that fits the buffer is one piece: a send that fails inside the upload
      leaves the reader before a CRLF. */
  lemma {:induction false} SmallChunksBreakAtCrlf(s: string, t: string)
    requires Decode(s).Done? && BrokeInside(s, t, true) && ChunksFit(Decode(s).chunks)
    ensures CRLF <= t
    decreases |s|
  {
    hide ChunkSize, Line, BrokeInFirst, AtPieceEnd, Decode, ChunksFit;
    if BrokeInFirst(s, t, true) {
      BrokenChunk(s, t, true);
      ChunksFitTail(s);
      var Chunk(data, rest) := Next(s);
      OnlyPieceEnd(|data| + 2 + |rest| - |t|, |data|, |data| + 2 + |rest|);
    } else {
      ChunksFitTail(s);
      SmallChunksBreakAtCrlf(Next(s).rest, t);
    }
  }

  /** Whether every send that can fail inside a chunk leaves nothing of the upload unread. */
  ghost predicate SurvivesEveryBreak(s: string, full: bool)
    requires Decode(s).Done?
  {
    forall t :: BrokeInside(s, t, full) ==> |DrainedTo(t, DRAIN_CAP)| <= |Decode(s).rest|
  }

  /** Only uploads without data do, however reads are cut. */
  lemma WhenEveryBreakIsDrained(s: string, full: bool)
    requires Decode(s).Done?
    ensures SurvivesEveryBreak(s, full) <==> Concat(Decode(s).chunks) == []
  {
    hide Decode, BrokeInside, DrainedTo, Concat;
    if Concat(Decode(s).chunks) == [] {
      forall t ensures !BrokeInside(s, t, full) {
        NoDataNoBreak(s, t, full);
      }
    } else {
      var t := LastPieceOfSomeChunk(s, full);
      DrainStopsAtCrlf(t);
      BreakLeavesUpload(s, t, full);
    }
  }

  lemma {:induction false} NoDataNoBreak(s: string, t: string, full: bool)
    requires Decode(s).Done? && Concat(Decode(s).chunks) == []
    ensures !BrokeInside(s, t, full)
    decreases |s|
  {
    hide ChunkSize, Line, BrokeInFirst, Concat;
    FirstItemOf(s);
    if BrokeInFirst(s, t, full) {
      BrokenChunk(s, t, full);
      assert false;
    }
    if Next(s).Chunk? {
      NoDataNoBreak(Next(s).rest, t, full);
    }
  }

  lemma {:induction false} LastPieceOfSomeChunk(s: string, full: bool) returns (t: string)
    requires Decode(s).Done? && Concat(Decode(s).chunks) != []
    ensures BrokeInside(s, t, full) && CRLF <= t
    decreases |s|
  {
    hide ChunkSize, Line, Concat, SkipTrailers;
    FirstItemOf(s);
    NoDataAtEnd(s);
    var Chunk(data, rest) := Next(s);
    if data == [] {
      t := LastPieceOfSomeChunk(rest, full);
    } else {
      t := CRLF + rest;
      var after := s[|Line(s)|..];
      assert after == data + t;
      assert after[|data|..] == t;
    }
  }

  lemma NoDataAtEnd(s: string)
    ensures Next(s).Last? ==> Concat(Decode(s).chunks) == []
  {
  }

  /** What the drain leaves of a whole upload when a send failed. If that was the terminator's,
      nothing. Otherwise some of it, unless what is unread starts with something that reads as a
      size; with full reads and chunks that fit the buffer it never does. */
  lemma WhenBrokenUploadIsDrained(s: string, t: string, full: bool)
    requires Decode(s).Done? && SendBroke(s, t, full)
    ensures var nothingLeft := |DrainedTo(t, DRAIN_CAP)| <= |Decode(s).rest|;
      && (t == Decode(s).rest ==> nothingLeft)
      && (nothingLeft ==> t == Decode(s).rest || ChunkSize(Line(t)).Some?)
      && (full && ChunksFit(Decode(s).chunks) ==> (nothingLeft <==> t == Decode(s).rest))
  {
    hide Decode, BrokeInside, DrainedTo, ChunkSize, ChunksFit;
    if BrokeInside(s, t, full) {
      if full && ChunksFit(Decode(s).chunks) {
        SmallChunksBreakAtCrlf(s, t);
        DrainStopsAtCrlf(t);
      }
      if ChunkSize(Line(t)).None? {
        BreakLeavesUpload(s, t, full);
      }
    }
  }

  /** The usual case: an upload of one chunk that fits the buffer. Its frame cannot be sent, and the
      terminator stays unread. */
  lemma OneChunkUpload(piece: string)
    requires 1 <= |piece| <= PROXY_BUFFER
    ensures var upload := Frame(piece) + LAST_CHUNK;
      && Decode(upload) == Done([piece], [])
      && BrokeInside(upload, CRLF + LAST_CHUNK, true)
      && DrainedTo(CRLF + LAST_CHUNK, DRAIN_CAP) == LAST_CHUNK
  {
    hide Decode, DrainedTo;
    OneChunk(piece);
    BrokenFrame(piece, [], true);
    assert [] + CRLF + LAST_CHUNK == CRLF + LAST_CHUNK;
    DrainStopsAtCrlf(CRLF + LAST_CHUNK);
    assert (CRLF + LAST_CHUNK)[2..] == LAST_CHUNK;
  }

  /** Nothing stays unread if the unread data happens to read as chunks: here one more byte than
      the buffer holds, and that byte is a zero digit. */
  lemma LuckyUpload(piece: string)
    requires |piece| == PROXY_BUFFER
    ensures var upload := Frame(piece + "0") + LAST_CHUNK;
      && Decode(upload) == Done([piece + "0"], [])
      && BrokeInside(upload, "0" + CRLF + LAST_CHUNK, true)
      && DrainedTo("0" + CRLF + LAST_CHUNK, DRAIN_CAP) == []
  {
    hide Frame, Decode, DrainedTo, BrokeInside;
    OneChunk(piece + "0");
    assert (piece + "0")[PROXY_BUFFER..] == "0";
    BrokenFrame(piece + "0", "0", true);
    ZeroReadsAsTheEnd();
    WholeBodyIsDrained("0" + CRLF + LAST_CHUNK, DRAIN_CAP);
  }

  lemma ZeroReadsAsTheEnd()
    ensures Decode("0" + CRLF + LAST_CHUNK) == Done([], []) && Concat([]) == []
  {
    hide Decode;
    assert PyInt.HexValue("0") == 16 * PyInt.HexValue("0"[..0]);
    EveryRfcBodyDecodes([], "0", [], ["0"], []);
    assert Wire([]) + ("0" + [] + CRLF + (Trailers(["0"]) + (CRLF + [])))
        == "0" + CRLF + LAST_CHUNK by {
      assert Trailers(["0"]) == "0" + CRLF + Trailers(["0"][1..]);
    }
  }

  lemma OneChunk(piece: string)
    requires piece != []
    ensures Decode(Frame(piece) + LAST_CHUNK) == Done([piece], [])
  {
    hide Frame, Decode;
    CompleteBodyDecodes([piece], []);
    assert Frames([piece]) + LAST_CHUNK + [] == Frame(piece) + LAST_CHUNK by {
      SinglePiece(piece);
    }
  }

  /** A send that fails with `unread` of the frame's data still to be read. */
  lemma BrokenFrame(piece: string, unread: string, full: bool)
    requires |unread| < |piece| && unread == piece[|piece| - |unread|..]
    requires full ==> AtPieceEnd(|piece| - |unread|, |piece|, |piece| + 7)
    ensures BrokeInside(Frame(piece) + LAST_CHUNK, unread + CRLF + LAST_CHUNK, full)
  {
    hide ChunkSize, Line, AtPieceEnd;
    var s := Frame(piece) + LAST_CHUNK;
    var size := PyInt.Hex(|piece|);
    PyInt.HexPrintsTheValue(|piece|);
    var rest := piece + CRLF + LAST_CHUNK;
    assert s == size + [] + CRLF + rest && size + [] + CRLF == size + CRLF;
    SizeLine(size, [], rest);
    Halves(size + CRLF, rest);
    var t := unread + CRLF + LAST_CHUNK;
    assert rest[|piece| - |unread|..] == t;
    assert BrokeInFirst(s, t, full);
  }
}
