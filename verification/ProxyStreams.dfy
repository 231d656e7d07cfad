/** The two ends of a request body: what the proxy reads from the client and what it sends to the
    backend, with the loops that copy between them. */
module ProxyStreams {
  import opened Text
  import opened ChunkedCoding

  /** The client's side of the connection. Which of its freedoms a stream uses is fixed by two
      flags: `short` reads may end before both the count and the input do, and `faulty` reads may
      raise OSError, possibly after swallowing some bytes. */
  class Reader {
    const input: string
    const short: bool
    const faulty: bool
    var pos: nat
    ghost var bulk: nat  // bytes taken by Read, not by ReadLine

    ghost predicate Valid()
      reads this
    {
      pos <= |input|
    }

    ghost function Rest(): string
      requires Valid()
      reads this
    {
      input[pos..]
    }

    constructor (input: string, short: bool, faulty: bool)
      ensures Valid() && Rest() == input
      ensures this.input == input && this.short == short && this.faulty == faulty
    {
      this.input, this.short, this.faulty := input, short, faulty;
      pos, bulk := 0, 0;
    }

    /** `rfile.read(n)`; `None` is an OSError. */
    method Read(n: nat) returns (r: Option<string>)
      requires Valid()
      modifies this
      ensures Valid() && old(pos) <= pos <= old(pos) + n
      ensures bulk == old(bulk) + (pos - old(pos))
      ensures r.Some? ==> r.value <= old(Rest()) && Rest() == old(Rest())[|r.value|..]
      ensures r.Some? && n > 0 && old(Rest()) != [] ==> r.value != []
      ensures r.Some? && !short ==>
        r.value == old(Rest())[..if n < |old(Rest())| then n else |old(Rest())|]
      ensures !faulty ==> r.Some?
    {
      ghost var rest := input[pos..];
      var most := if n < |input| - pos then n else |input| - pos;
      var fails: bool := *;
      if faulty && fails {
        var lost :| 0 <= lost <= most;
        pos, bulk := pos + lost, bulk + lost;
        return None;
      }
      var k := most;
      if short {
        k :| 0 <= k <= most && (k == 0 ==> most == 0);
      }
      assert input[pos..pos + k] == rest[..k] && input[pos + k..] == rest[k..];
      r := Some(input[pos..pos + k]);
      pos, bulk := pos + k, bulk + k;
    }

    /** `rfile.readline()`. */
    method ReadLine() returns (r: Option<string>)
      requires Valid()
      modifies this
      ensures Valid() && old(pos) <= pos <= old(pos) + |Line(old(Rest()))| && bulk == old(bulk)
      ensures r.Some? ==> r.value == Line(old(Rest())) && Rest() == old(Rest())[|r.value|..]
      ensures !faulty ==> r.Some?
    {
      var line := Line(input[pos..]);
      var fails: bool := *;
      if faulty && fails {
        var k :| 0 <= k <= |line|;
        pos := pos + k;
        r := None;
      } else {
        pos := pos + |line|;
        r := Some(line);
      }
    }
  }

  /** The backend's side. A send that fails leaves part of its data on the wire, never all. */
  class Sink {
    const faulty: bool
    var out: string

    constructor (faulty: bool)
      ensures out == [] && this.faulty == faulty
    {
      this.faulty, out := faulty, [];
    }

    method Send(data: string) returns (ok: bool)
      requires data != []
      modifies this
      ensures ok ==> out == old(out) + data
      ensures !ok ==> exists part :: part <= data && part != data && out == old(out) + part
      ensures !faulty ==> ok
    {
      var fails: bool := *;
      ok := !(faulty && fails);
      if ok {
        out := out + data;
      } else {
        var k :| 0 <= k < |data|;
        ghost var part := data[..k];
        out := out + data[..k];
        assert part <= data && part != data;
      }
    }
  }

  datatype Outcome =
    | Sent
    | BodyError(why: BodyFault)   // ProxyBodyError
    | OsError

  ghost predicate Benign(r: Reader, w: Sink) { !r.short && !r.faulty && !w.faulty }

  // ----- where a send that fails leaves the reader

  /** After `k` bytes of a chunk: where full reads of at most PROXY_BUFFER bytes can stop. */
  predicate AtPieceEnd(k: nat, size: int, available: nat) {
    k % PROXY_BUFFER == 0 || k == size || k == available
  }

  /** `t` is what a send that failed on some piece of a chunk's data left unread: the piece has
      been read, the chunk's CRLF has not. `full` says that reads were full. */
  predicate BrokeInData(size: int, rest: string, t: string, full: bool) {
    var k := |rest| - |t|;
    1 <= k <= size && t == rest[k..] && (full ==> AtPieceEnd(k, size, |rest|))
  }

  predicate BrokeInFirst(s: string, t: string, full: bool) {
    && s != [] && ChunkSize(Line(s)).Some?
    && BrokeInData(ChunkSize(Line(s)).value, s[|Line(s)|..], t, full)
  }

  /** The same for a whole chunked upload: the failure came in some chunk. */
  predicate BrokeInside(s: string, t: string, full: bool)
    decreases |s|
  {
    || BrokeInFirst(s, t, full)
    || (Next(s).Chunk? && BrokeInside(Next(s).rest, t, full))
  }

  /** What a failed send of a chunked upload leaves unread: it was a send inside some chunk, or
      that of the terminator, when all of the upload has been read. */
  predicate SendBroke(s: string, t: string, full: bool) {
    BrokeInside(s, t, full) || (Decode(s).Done? && t == Decode(s).rest)
  }

  /** Whole chunks of `s` lead to `u`. */
  predicate Reaches(s: string, u: string)
    decreases |s|
  {
    s == u || (Next(s).Chunk? && Reaches(Next(s).rest, u))
  }

  lemma AlreadyThere(s: string)
    ensures Reaches(s, s)
  {
  }

  lemma {:induction false} ReachesNext(s: string, u: string)
    requires Reaches(s, u) && Next(u).Chunk?
    ensures Reaches(s, Next(u).rest)
    decreases |s|
  {
    if s != u {
      ReachesNext(Next(s).rest, u);
    }
  }

  lemma {:induction false} BreaksThere(s: string, u: string, t: string, full: bool)
    requires Reaches(s, u) && BrokeInFirst(u, t, full)
    ensures BrokeInside(s, t, full)
    decreases |s|
  {
    if s != u {
      BreaksThere(Next(s).rest, u, t, full);
    }
  }

  lemma NextPieceEnd(got: nat, size: nat, available: nat, n: nat)
    requires AtPieceEnd(got, size, available) && got < size && got < available
    requires n == Least(PROXY_BUFFER, size - got, available - got)
    ensures AtPieceEnd(got + n, size, available)
  {
  }

  lemma BrokeAfter(size: nat, start: string, k: nat, pieces: seq<string>, full: bool)
    requires k >= 1 && Copied(start, size, k, pieces, full) && k <= |start|
    ensures BrokeInData(size, start, start[k..], full)
  {
  }

  function Least(a: nat, b: nat, c: nat): nat {
    if a <= b && a <= c then a else if b <= c then b else c
  }

  /** One pass of the chunk's loop: read a piece and send it in a frame of its own. `piece` is what
      was read, also when the send fails. */
  method SendPiece(r: Reader, w: Sink, remaining: nat)
    returns (result: Outcome, piece: string, ghost tail: string)
    requires r.Valid() && r as object != w && remaining > 0
    modifies r, w
    ensures r.Valid() && old(r.pos) <= r.pos
    ensures piece <= old(r.Rest()) && |piece| <= remaining && |piece| <= PROXY_BUFFER
    ensures piece != [] ==> r.Rest() == old(r.Rest())[|piece|..]
    ensures piece != [] && !r.short ==> |piece| == Least(PROXY_BUFFER, remaining, |old(r.Rest())|)
    ensures OpenTail(tail) && (!result.OsError? ==> tail == [])
    ensures w.out == old(w.out) + (if result.Sent? then Frame(piece) else tail)
    ensures result.Sent? ==> piece != []
    ensures result.BodyError? ==>
      old(r.Rest()) == [] && r.Rest() == [] && piece == [] && result.why == TruncatedChunk
    ensures result.OsError? && !r.faulty ==> piece != []
    ensures Benign(r, w) ==> !result.OsError?
  {
    hide Frame;
    piece, tail := [], [];
    ghost var before := w.out;
    assert before + [] == before;
    var read := r.Read(if remaining < PROXY_BUFFER then remaining else PROXY_BUFFER);
    if read.None? {
      return OsError, [], [];
    }
    piece := read.value;
    if piece == [] {
      return BodyError(TruncatedChunk), [], [];
    }
    var sent := w.Send(Frame(piece));
    if sent {
      return Sent, piece, [];
    }
    ghost var part :| part <= Frame(piece) && part != Frame(piece) && w.out == before + part;
    return OsError, piece, part;
  }

  /** The data of one chunk of `size` bytes, cut into frames of at most PROXY_BUFFER bytes. */
  method CopyChunk(r: Reader, w: Sink, size: nat)
    returns (result: Outcome, ghost pieces: seq<string>, ghost tail: string)
    requires r.Valid() && r as object != w
    modifies r, w
    ensures r.Valid() && old(r.pos) <= r.pos
    ensures Bounded(pieces) && OpenTail(tail)
    ensures w.out == old(w.out) + Frames(pieces) + tail
    ensures result.Sent? ==>
      && size <= |old(r.Rest())| && Concat(pieces) == old(r.Rest())[..size]
      && r.Rest() == old(r.Rest())[size..] && tail == []
    ensures result.BodyError? ==>
      && |old(r.Rest())| < size && Concat(pieces) == old(r.Rest())
      && result.why == TruncatedChunk && tail == []
    ensures result.OsError? ==> Concat(pieces) <= old(r.Rest()) && |Concat(pieces)| <= size
    ensures result.OsError? && !r.faulty ==>
      BrokeInData(size, old(r.Rest()), r.Rest(), !r.short)
    ensures Benign(r, w) ==>
      && !result.OsError?
      && pieces == Split(Wanted(old(r.Rest()), size))
  {
    hide Frames, Frame, Concat, Split, Copied, BrokeInData, Least;
    ghost var start := r.Rest();
    ghost var before := w.out;
    pieces, tail := [], [];
    ghost var got := 0;
    NothingYet(before);
    NothingCopied(start, size, !r.short);
    var remaining := size;
    while remaining > 0
      invariant r.Valid() && old(r.pos) <= r.pos && got + remaining == size
      invariant Copied(start, size, got, pieces, !r.short) && got <= |start|
      invariant r.Rest() == start[got..] && w.out == before + Frames(pieces) && tail == []
    {
      var piece;
      CopiedMeans(start, size, got, pieces, !r.short);
      result, piece, tail := SendPiece(r, w, remaining);
      if result.BodyError? {
        return;
      }
      if piece != [] {
        CopiedOneMore(start, size, got, pieces, piece, !r.short);
        got := got + |piece|;
      }
      if result.OsError? {
        if !r.faulty {
          BrokeAfter(size, start, got, pieces + [piece], !r.short);
        }
        return;
      }
      OneMorePiece(pieces, piece, before);
      pieces := pieces + [piece];
      remaining := remaining - |piece|;
    }
    CopiedMeans(start, size, got, pieces, !r.short);
    result := Sent;
  }

  /** `got` bytes of the chunk have gone out as `pieces`; full reads cut them as Split does. */
  ghost predicate Copied(start: string, size: nat, got: nat, pieces: seq<string>, full: bool) {
    && got <= size && got <= |start| && Bounded(pieces) && Concat(pieces) == start[..got]
    && (full ==>
          && AtPieceEnd(got, size, |start|)
          && pieces + Split(Wanted(start, size)[got..]) == Split(Wanted(start, size)))
  }

  function Wanted(start: string, size: nat): (data: string)
    ensures |data| == if size < |start| then size else |start|
  {
    start[..if size < |start| then size else |start|]
  }

  lemma NothingCopied(start: string, size: nat, full: bool)
    ensures Copied(start, size, 0, [], full)
  {
    assert start[..0] == [] && Wanted(start, size)[0..] == Wanted(start, size);
    assert [] + Split(Wanted(start, size)) == Split(Wanted(start, size));
  }

  lemma CopiedMeans(start: string, size: nat, got: nat, pieces: seq<string>, full: bool)
    requires Copied(start, size, got, pieces, full)
    ensures got <= size && got <= |start| && Bounded(pieces) && Concat(pieces) == start[..got]
    ensures |Concat(pieces)| == got && Concat(pieces) <= start
    ensures got == |start| ==> Concat(pieces) == start
    ensures full && (got == size || got == |start|) ==> pieces == Split(Wanted(start, size))
  {
    SplitEnds(Wanted(start, size), pieces);
  }

  lemma CopiedOneMore(start: string, size: nat, got: nat, pieces: seq<string>, piece: string,
                      full: bool)
    requires Copied(start, size, got, pieces, full)
    requires piece != [] && piece <= start[got..] && got + |piece| <= size
    requires |piece| <= PROXY_BUFFER
    requires full ==> |piece| == Least(PROXY_BUFFER, size - got, |start| - got)
    ensures Copied(start, size, got + |piece|, pieces + [piece], full)
    ensures start[got..][|piece|..] == start[got + |piece|..]
  {
    hide Concat, Split, AtPieceEnd;
    Advance(start, got, piece);
    OneMorePiece(pieces, piece, []);
    if full {
      NextPieceEnd(got, size, |start|, |piece|);
      FullPiece(start, size, got, pieces, piece);
    }
  }

  lemma FullPiece(start: string, size: nat, got: nat, pieces: seq<string>, piece: string)
    requires got < size && got < |start| && piece <= start[got..]
    requires |piece| == Least(PROXY_BUFFER, size - got, |start| - got)
    ensures var data := Wanted(start, size);
      pieces + [piece] + Split(data[got + |piece|..]) == pieces + Split(data[got..])
  {
    SplitStep(start, |Wanted(start, size)|, got, piece, pieces);
  }

  lemma Advance(start: string, got: nat, piece: string)
    requires got <= |start| && piece <= start[got..]
    ensures got + |piece| <= |start|
    ensures start[..got] + piece == start[..got + |piece|]
    ensures start[got..][|piece|..] == start[got + |piece|..]
    ensures piece == start[got..got + |piece|]
  {
  }

  lemma SinglePiece(piece: string)
    ensures Frames([piece]) == Frame(piece) && Concat([piece]) == piece
  {
  }

  lemma OneMorePiece(pieces: seq<string>, piece: string, before: string)
    ensures before + Frames(pieces) + Frame(piece) == before + Frames(pieces + [piece])
    ensures Concat(pieces + [piece]) == Concat(pieces) + piece
  {
    FramesAppend(pieces, [piece]);
    ConcatAppend(pieces, [piece]);
    SinglePiece(piece);
    Associative(before, Frames(pieces), Frame(piece));
  }

  /** One full read takes exactly the next piece of the split. */
  lemma SplitStep(start: string, end: nat, got: nat, piece: string, pieces: seq<string>)
    requires got < end <= |start| && piece <= start[got..]
    requires |piece| == if end - got < PROXY_BUFFER then end - got else PROXY_BUFFER
    ensures pieces + Split(start[..end][got..])
         == pieces + [piece] + Split(start[..end][got + |piece|..])
  {
    var goal := start[..end];
    assert goal[got..][..|piece|] == piece;
    assert goal[got..][|piece|..] == goal[got + |piece|..];
  }

  lemma SplitEnds(goal: string, pieces: seq<string>)
    ensures pieces + Split(goal[|goal|..]) == pieces
  {
  }

  /** One pass of the Content-Length loop: read a piece and send it as it is. */
  method MovePiece(r: Reader, w: Sink, remaining: nat)
    returns (result: Outcome, moved: nat, ghost wired: nat)
    requires r.Valid() && r as object != w && remaining > 0
    modifies r, w
    ensures r.Valid() && old(r.pos) <= r.pos
    ensures r.pos - old(r.pos) <= if remaining < PROXY_BUFFER then remaining else PROXY_BUFFER
    ensures wired <= |old(r.Rest())| && w.out == old(w.out) + old(r.Rest())[..wired]
    ensures result.Sent? ==> 0 < moved == wired == r.pos - old(r.pos)
    ensures result.BodyError? ==>
      old(r.Rest()) == [] && r.pos == old(r.pos) && result.why == TruncatedRequestBody
    ensures Benign(r, w) ==>
      result == if old(r.Rest()) == [] then BodyError(TruncatedRequestBody) else Sent
  {
    moved, wired := 0, 0;
    ghost var start, before := r.Rest(), w.out;
    var piece := r.Read(if remaining < PROXY_BUFFER then remaining else PROXY_BUFFER);
    if piece.None? {
      return OsError, 0, 0;
    }
    if piece.value == [] {
      return BodyError(TruncatedRequestBody), 0, 0;
    }
    var sent := w.Send(piece.value);
    wired := |w.out| - |before|;
    if sent {
      return Sent, |piece.value|, wired;
    }
    result := OsError;
  }

  /** The Content-Length path of `_proxy`. `remaining` is the handler's `cl_remaining`: at a
      failure it may still count the piece that was being moved, never more than that. */
  method ForwardFixed(r: Reader, w: Sink, length: int) returns (result: Outcome, remaining: int)
    requires r.Valid() && r as object != w
    modifies r, w
    ensures r.Valid() && old(r.pos) <= r.pos <= old(r.pos) + (if length < 0 then 0 else length)
    ensures result.Sent? ==>
      var n := if length < 0 then 0 else length;
      && n <= |old(r.Rest())| && r.Rest() == old(r.Rest())[n..]
      && w.out == old(w.out) + old(r.Rest())[..n] && remaining == length - n
    ensures result.BodyError? ==>
      && |old(r.Rest())| < length && w.out == old(w.out) + old(r.Rest())
      && remaining == length - (r.pos - old(r.pos))
    ensures result.OsError? ==>
      && 0 <= remaining - (length - (r.pos - old(r.pos))) <= PROXY_BUFFER
      && exists k | 0 <= k <= |old(r.Rest())| :: w.out == old(w.out) + old(r.Rest())[..k]
    ensures remaining <= length
    ensures Benign(r, w) ==> (result.Sent? <==> length <= |old(r.Rest())|) && !result.OsError?
  {
    ghost var start := r.Rest();
    ghost var before := w.out;
    remaining := length;
    ghost var got := 0;
    assert before + start[..0] == before;
    while remaining > 0
      invariant r.Valid() && got <= |start| && r.pos == old(r.pos) + got
      invariant got + remaining == length && (got > 0 ==> remaining >= 0)
      invariant w.out == before + start[..got]
    {
      var moved;
      ghost var wired;
      result, moved, wired := MovePiece(r, w, remaining);
      Onward(before, start, got, wired);
      got := got + wired;
      if !result.Sent? {
        assert result.BodyError? ==> start[..got] == start;
        return;
      }
      remaining := remaining - moved;
    }
    result := Sent;
  }

  lemma Onward(before: string, start: string, got: nat, moved: nat)
    requires got <= |start| && moved <= |start[got..]|
    ensures before + start[..got] + start[got..][..moved] == before + start[..got + moved]
  {
    assert start[..got] + start[got..][..moved] == start[..got + moved];
    Associative(before, start[..got], start[got..][..moved]);
  }

  /** The trailer lines after a zero-size chunk, up to the blank line. */
  method ReadTrailers(r: Reader) returns (result: Outcome)
    requires r.Valid()
    modifies r
    ensures r.Valid() && old(r.pos) <= r.pos && r.bulk == old(r.bulk)
    ensures result.Sent? ==> SkipTrailers(old(r.Rest())) == Some(r.Rest())
    ensures result.BodyError? ==>
      SkipTrailers(old(r.Rest())).None? && result.why == TruncatedTerminator && r.Rest() == []
    ensures SkipTrailers(old(r.Rest())).Some? ==>
      |SkipTrailers(old(r.Rest())).value| <= |r.Rest()|
    ensures !r.faulty ==> !result.OsError?
  {
    while true
      invariant r.Valid() && old(r.pos) <= r.pos && r.bulk == old(r.bulk)
      invariant SkipTrailers(old(r.Rest())) == SkipTrailers(r.Rest())
      decreases |r.input| - r.pos
    {
      var trailer := r.ReadLine();
      if trailer.None? {
        return OsError;
      }
      if trailer.value == [] {
        return BodyError(TruncatedTerminator);
      }
      if IsBlankLine(trailer.value) {
        return Sent;
      }
    }
  }

  datatype Round = Again | Ended | Stopped(why: Outcome)

  /** The data a chunk brought, whole or not. */
  function DataOf(item: Item): seq<string> {
    match item
    case Chunk(data, _) => [data]
    case Last(_) => []
    case Broken(got, _) => got
  }

  /** What a size announces: trailers and the end, or data and its CRLF. */
  method CopySized(r: Reader, w: Sink, size: int)
    returns (round: Round, ghost more: seq<string>, ghost tail: string)
    requires r.Valid() && r as object != w
    modifies r, w
    ensures r.Valid() && old(r.pos) <= r.pos
    ensures Bounded(more) && OpenTail(tail) && w.out == old(w.out) + Frames(more) + tail
    ensures var item := AfterSize(size, old(r.Rest()));
      && (round.Again? ==> item == Chunk(Concat(more), r.Rest()) && tail == [])
      && (round.Ended? ==> item == Last(r.Rest()) && more == [] && tail == [])
      && (round.Stopped? ==> !round.why.Sent? && Concat(more) <= Concat(DataOf(item)))
      && (round.Stopped? && round.why.BodyError? ==> tail == [])
      && (Benign(r, w) ==> more == SplitAll(DataOf(item)))
      && (Benign(r, w) && round.Stopped? ==> item.Broken? && round.why == BodyError(item.why))
      && (!r.short && round.Stopped? && round.why.BodyError? ==>
            item.Broken? && round.why == BodyError(item.why))
    ensures round.Stopped? && round.why.OsError? && !r.faulty ==>
      BrokeInData(size, old(r.Rest()), r.Rest(), !r.short)
  {
    hide Frames, Concat, Split, SplitAll, SkipTrailers, AtPieceEnd;
    ghost var rest := r.Rest();
    NothingYet(w.out);
    if size == 0 {
      var ended := ReadTrailers(r);
      return if ended.Sent? then Ended else Stopped(ended), [], [];
    }
    var n := if size < 0 then 0 else size;
    var copied;
    copied, more, tail := CopyChunk(r, w, n);
    ghost var data := if n <= |rest| then rest[..n] else rest;
    SplitSingle(data);
    assert rest[..|rest|] == rest;
    assert DataOf(AfterSize(size, rest)) == [data];
    if !copied.Sent? {
      return Stopped(copied), more, tail;
    }
    var end := r.Read(2);
    if end.None? {
      return Stopped(OsError), more, tail;
    }
    if end.value != CRLF {
      return Stopped(BodyError(InvalidChunkTerminator)), more, tail;
    }
    round := Again;
  }

  /** One round of the loop of `_stream_chunked_body`: a size line and what it announces. */
  method CopyRound(r: Reader, w: Sink)
    returns (round: Round, ghost more: seq<string>, ghost tail: string)
    requires r.Valid() && r as object != w
    modifies r, w
    ensures r.Valid() && old(r.pos) <= r.pos && (round.Again? ==> old(r.pos) < r.pos)
    ensures Bounded(more) && OpenTail(tail) && w.out == old(w.out) + Frames(more) + tail
    ensures var item := Next(old(r.Rest()));
      && (round.Again? ==> item == Chunk(Concat(more), r.Rest()) && tail == [])
      && (round.Ended? ==> item == Last(r.Rest()) && more == [] && tail == [])
      && (round.Stopped? ==> !round.why.Sent? && Concat(more) <= Concat(DataOf(item)))
      && (round.Stopped? && round.why.BodyError? ==> tail == [])
      && (Benign(r, w) ==> more == SplitAll(DataOf(item)))
      && (Benign(r, w) && round.Stopped? ==> item.Broken? && round.why == BodyError(item.why))
      && (!r.short && round.Stopped? && round.why.BodyError? ==>
            item.Broken? && round.why == BodyError(item.why))
    ensures round.Stopped? && round.why.OsError? && !r.faulty ==>
      BrokeInFirst(old(r.Rest()), r.Rest(), !r.short)
  {
    hide Frames, Concat, Split, SplitAll, ChunkSize, Line, Next, AfterSize, BrokeInData;
    more, tail := [], [];
    NothingYet(w.out);
    ghost var here := r.Rest();
    NextWithoutSize(here);
    var sizeLine := r.ReadLine();
    if sizeLine.None? {
      return Stopped(OsError), [], [];
    }
    if sizeLine.value == [] {
      return Stopped(BodyError(ClosedBeforeTerminator)), [], [];
    }
    var size := ChunkSize(sizeLine.value);
    if size.None? {
      return Stopped(BodyError(InvalidChunkSize)), [], [];
    }
    NextAfterLine(here, size.value);
    round, more, tail := CopySized(r, w, size.value);
  }

  /** `_stream_chunked_body`: decode the client's chunks, send the data on in bounded frames. */
  method StreamChunkedBody(r: Reader, w: Sink)
    returns (result: Outcome, ghost pieces: seq<string>, ghost tail: string)
    requires r.Valid() && r as object != w
    modifies r, w
    ensures r.Valid() && old(r.pos) <= r.pos
    ensures Bounded(pieces)
    // What a normal return, a framing error and an OSError leave on the backend's wire.
    ensures result.Sent? ==>
      && w.out == old(w.out) + Frames(pieces) + LAST_CHUNK
      && Decode(old(r.Rest())).Done? && r.Rest() == Decode(old(r.Rest())).rest
      && Concat(pieces) == Concat(Decode(old(r.Rest())).chunks)
    ensures !result.Sent? ==>
      && OpenTail(tail) && w.out == old(w.out) + Frames(pieces) + tail
      && Concat(pieces) <= Concat(Decode(old(r.Rest())).chunks)
    ensures result.BodyError? ==> tail == []
    // When only sends can fail, where the one that failed leaves the reader.
    ensures result.OsError? && !r.faulty ==> SendBroke(old(r.Rest()), r.Rest(), !r.short)
    // With full reads, framing errors are only reported of broken framing, and as what it is.
    ensures !r.short && result.BodyError? ==> result == Verdict(Decode(old(r.Rest())))
    // With full reads and no faults the input alone decides everything.
    ensures Benign(r, w) ==>
      && pieces == SplitAll(Decode(old(r.Rest())).chunks)
      && result == Verdict(Decode(old(r.Rest())))
  {
    hide Decode, Next, Frames, Concat, SplitAll, BrokeInside, BrokeInFirst, Reaches;
    ghost var start := r.Rest();
    ghost var before := w.out;
    ghost var chunks := [];
    pieces, tail := [], [];
    PrependNothing(Decode(start));
    NothingYet(before);
    AlreadyThere(start);
    while true
      invariant r.Valid() && old(r.pos) <= r.pos
      invariant Decode(start) == PrependAll(chunks, Decode(r.Rest())) && Reaches(start, r.Rest())
      invariant Concat(pieces) == Concat(chunks) && Bounded(pieces)
      invariant w.out == before + Frames(pieces)
      invariant Benign(r, w) ==> pieces == SplitAll(chunks)
      decreases |r.input| - r.pos
    {
      ghost var here := r.Rest();
      var round, more, part := CopyRound(r, w);
      MoreFrames(before, pieces, more, part);
      if round.Stopped? {
        DataComesFirst(here);
        StoppedAt(start, chunks, here, pieces, more);
        if round.why.OsError? && !r.faulty {
          BreaksThere(start, here, r.Rest(), !r.short);
        }
        return round.why, pieces + more, part;
      }
      if round.Ended? {
        LastAt(start, chunks, here);
        break;
      }
      ChunkAt(start, chunks, here);
      ReachesNext(start, here);
      pieces, chunks := pieces + more, chunks + [Next(here).data];
    }
    var sent := w.Send(LAST_CHUNK);
    if sent {
      return Sent, pieces, [];
    }
    tail := w.out[|before + Frames(pieces)|..];
    result := OsError;
  }

  function Verdict(d: Decoded): Outcome {
    match d
    case Done(_, _) => Sent
    case Fault(_, why) => BodyError(why)
  }

  /** Wherever the copying stops inside the input, what was sent is a prefix of the payload. */
  lemma StoppedAt(start: string, chunks: seq<string>, here: string,
                  pieces: seq<string>, more: seq<string>)
    requires Decode(start) == PrependAll(chunks, Decode(here))
    requires Concat(pieces) == Concat(chunks)
    requires Concat(more) <= Concat(Decode(here).chunks)
    ensures Concat(pieces + more) <= Concat(Decode(start).chunks)
    ensures Next(here).Broken? ==>
      && Decode(start) == Fault(chunks + Next(here).got, Next(here).why)
      && SplitAll(Decode(start).chunks) == SplitAll(chunks) + SplitAll(Next(here).got)
  {
    ConcatAppend(pieces, more);
    ConcatAppend(chunks, Decode(here).chunks);
    LongerPrefix(Concat(pieces), Concat(more), Concat(Decode(here).chunks));
    SplitAllAppend(chunks, Decode(here).chunks);
  }

  lemma MoreFrames(before: string, pieces: seq<string>, more: seq<string>, tail: string)
    ensures before + Frames(pieces) + Frames(more) + tail
         == before + Frames(pieces + more) + tail
    ensures before + Frames(pieces) + Frames(more) == before + Frames(pieces + more)
    ensures Concat(pieces + more) == Concat(pieces) + Concat(more)
  {
    ConcatAppend(pieces, more);
    FramesAppend(pieces, more);
    Associative(before, Frames(pieces), Frames(more));
  }

  lemma LongerPrefix(a: string, b: string, c: string)
    requires b <= c
    ensures a + b <= a + c
  {
  }

  lemma DataComesFirst(s: string)
    ensures Concat(DataOf(Next(s))) <= Concat(Decode(s).chunks)
  {
    if Next(s).Chunk? {
      SplitSingle(Next(s).data);
    }
  }

  lemma NothingYet(before: string)
    ensures before + Frames([]) == before && before + Frames([]) + [] == before
    ensures Concat([]) == [] && Split([]) == [] && SplitAll([]) == []
  {
  }

  lemma PrependNothing(d: Decoded)
    ensures PrependAll([], d) == d
  {
    assert [] + d.chunks == d.chunks;
  }

  lemma LastAt(start: string, chunks: seq<string>, here: string)
    requires Decode(start) == PrependAll(chunks, Decode(here))
    requires Next(here).Last?
    ensures Decode(start) == Done(chunks, Next(here).rest)
  {
    assert chunks + [] == chunks;
  }

  lemma ChunkAt(start: string, chunks: seq<string>, here: string)
    requires Decode(start) == PrependAll(chunks, Decode(here))
    requires Next(here).Chunk?
    ensures var Chunk(data, rest) := Next(here);
      && Decode(start) == PrependAll(chunks + [data], Decode(rest))
      && Concat(chunks + [data]) == Concat(chunks) + data
      && SplitAll(chunks + [data]) == SplitAll(chunks) + SplitAll(DataOf(Next(here)))
  {
    var Chunk(data, rest) := Next(here);
    PrependTwice(chunks, [data], Decode(rest));
    ConcatAppend(chunks, [data]);
    SplitAllAppend(chunks, [data]);
  }
}
