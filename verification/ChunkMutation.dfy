/** Deferred updates of a Chunk: the mutation collects deltas call by call, and `sqlSave` turns
    them into one update. */
module ChunkMutation {
  import opened Text

  const TWO31: int := 0x8000_0000
  const TWO32: int := 0x1_0000_0000

  type uint32 = x: int | 0 <= x < TWO32
  type int32 = x: int | -TWO31 <= x < TWO31

  /** Go's conversion of a sum to int32. */
  function Wrap(x: int): int32 { (x + TWO31) % TWO32 - TWO31 }

  lemma WrapAdds(a: int, b: int)
    ensures Wrap(Wrap(a) + b) == Wrap(a + b)
    ensures -TWO31 <= b < TWO31 ==> Wrap(b) == b
  {
    var k := (a + TWO31) / TWO32;
    assert Wrap(a) == a - k * TWO32;
  }

  // ----- the calls

  datatype SizeCall = SetSize(v: uint32) | AddSize(d: int32) | ResetSize

  datatype TimeCall = SetTime(t: int) | ClearTime | ResetTime

  datatype LinkCall = AddLinks(ids: seq<int>) | RemoveLinks(ids: seq<int>) | ClearLinks | ResetLinks

  // ----- what a history of calls means

  /** The last Set since the last Reset. */
  function SizeValue(log: seq<SizeCall>): Option<uint32> {
    if log == [] then None
    else
      match log[|log| - 1]
      case SetSize(v) => Some(v)
      case AddSize(_) => SizeValue(log[..|log| - 1])
      case ResetSize => None
  }

  /** The Adds since the last Set or Reset. */
  function PendingAdds(log: seq<SizeCall>): seq<int32> {
    if log == [] then []
    else
      match log[|log| - 1]
      case AddSize(d) => PendingAdds(log[..|log| - 1]) + [d]
      case _ => []
  }

  function Sum(ds: seq<int32>): int {
    if ds == [] then 0 else Sum(ds[..|ds| - 1]) + ds[|ds| - 1]
  }

  /** The addend that one update carries for them: none, or their sum as an int32. */
  function SizeAddend(log: seq<SizeCall>): Option<int32> {
    if PendingAdds(log) == [] then None else Some(Wrap(Sum(PendingAdds(log))))
  }

  /** A Set or a Reset forgets what was to be added. */
  lemma OneMoreSet(log: seq<SizeCall>, v: uint32)
    ensures SizeValue(log + [SizeCall.SetSize(v)]) == Some(v)
    ensures SizeAddend(log + [SizeCall.SetSize(v)]) == None
    ensures SizeValue(log + [SizeCall.ResetSize]) == None
    ensures SizeAddend(log + [SizeCall.ResetSize]) == None
    ensures SizeValue([]) == None && SizeAddend([]) == None
  {
  }

  lemma OneMoreAdd(log: seq<SizeCall>, d: int32)
    ensures var more := log + [SizeCall.AddSize(d)];
      && SizeValue(more) == SizeValue(log)
      && SizeAddend(more) ==
           Some(if SizeAddend(log).Some? then Wrap(SizeAddend(log).value + d) else d)
  {
    var pending := PendingAdds(log);
    assert (log + [SizeCall.AddSize(d)])[..|log|] == log;
    assert (pending + [d])[..|pending|] == pending;
    WrapAdds(Sum(pending), d);
  }

  function TimeValue(log: seq<TimeCall>): Option<int> {
    if log != [] && log[|log| - 1].SetTime? then Some(log[|log| - 1].t) else None
  }

  /** Whether some Clear has not been Reset; a later Set does not undo it. */
  predicate TimeCleared(log: seq<TimeCall>) {
    log != [] && !log[|log| - 1].ResetTime?
    && (log[|log| - 1].ClearTime? || TimeCleared(log[..|log| - 1]))
  }

  /** One call on the nullable field: the update sets it only right after a Set, and clears it from
      a Clear until the next Reset. */
  lemma OneMoreTime(log: seq<TimeCall>, t: int)
    ensures TimeValue(log + [SetTime(t)]) == Some(t)
    ensures TimeValue(log + [ClearTime]) == None && TimeValue(log + [ResetTime]) == None
    ensures TimeValue([]) == None && !TimeCleared([])
    ensures TimeCleared(log + [SetTime(t)]) == TimeCleared(log)
    ensures TimeCleared(log + [ClearTime]) && !TimeCleared(log + [ResetTime])
  {
    assert (log + [SetTime(t)])[..|log|] == log;
  }

  /** The calls since the last Reset. */
  function Since(log: seq<LinkCall>): seq<LinkCall> {
    if log == [] || log[|log| - 1] == ResetLinks then []
    else Since(log[..|log| - 1]) + [log[|log| - 1]]
  }

  function Ids(ids: seq<int>): set<int> { set id | id in ids }

  lemma OneMoreId(ids: seq<int>, id: int)
    ensures Ids(ids + [id]) == Ids(ids) + {id}
  {
  }

  lemma NoIds(ids: seq<int>)
    ensures Ids(ids[..0]) == {}
  {
  }

  lemma IdsOfPrefix(ids: seq<int>, i: nat)
    requires i < |ids|
    ensures Ids(ids[..i + 1]) == Ids(ids[..i]) + {ids[i]}
  {
    assert ids[..i + 1] == ids[..i] + [ids[i]];
    OneMoreId(ids[..i], ids[i]);
  }

  /** The Adds and Removes in call order, on top of `links`. */
  function Replay(calls: seq<LinkCall>, links: set<int>): set<int> {
    if calls == [] then links
    else
      var before := Replay(calls[..|calls| - 1], links);
      match calls[|calls| - 1]
      case AddLinks(ids) => before + Ids(ids)
      case RemoveLinks(ids) => before - Ids(ids)
      case _ => before
  }

  predicate Names(call: LinkCall, id: int) { (call.AddLinks? || call.RemoveLinks?) && id in call.ids }

  /** `k` is the last call that names the ID. */
  predicate NamesLast(calls: seq<LinkCall>, k: int, id: int) {
    && 0 <= k < |calls| && Names(calls[k], id)
    && forall j | k < j < |calls| :: !Names(calls[j], id)
  }

  /** A link's last mention decides; without any it stays as it was. */
  lemma {:induction false} LastMentionDecides(calls: seq<LinkCall>, links: set<int>, id: int)
    ensures id in Replay(calls, links) <==>
      || (exists k :: NamesLast(calls, k, id) && calls[k].AddLinks?)
      || (id in links && forall k | 0 <= k < |calls| :: !Names(calls[k], id))
  {
    if calls != [] {
      var n := |calls| - 1;
      var init := calls[..n];
      LastMentionDecides(init, links, id);
      assert forall k | 0 <= k < n :: init[k] == calls[k];
      if Names(calls[n], id) {
        assert NamesLast(calls, n, id);
      } else {
        assert forall k :: NamesLast(calls, k, id) <==> NamesLast(init, k, id);
      }
    }
  }

  /** `Since` cuts the log right after its last Reset. */
  lemma {:induction false} SinceIsAfterReset(log: seq<LinkCall>) returns (k: nat)
    ensures k <= |log| && Since(log) == log[k..] && ResetLinks !in log[k..]
    ensures k > 0 ==> log[k - 1] == ResetLinks
  {
    k := |log|;
    if log != [] && log[|log| - 1] != ResetLinks {
      k := SinceIsAfterReset(log[..|log| - 1]);
      assert log[k..] == log[..|log| - 1][k..] + [log[|log| - 1]];
    }
  }

  function AddedBy(calls: seq<LinkCall>): set<int> {
    if calls == [] then {}
    else AddedBy(calls[..|calls| - 1])
           + if calls[|calls| - 1].AddLinks? then Ids(calls[|calls| - 1].ids) else {}
  }

  function RemovedBy(calls: seq<LinkCall>): set<int> {
    if calls == [] then {}
    else RemovedBy(calls[..|calls| - 1])
           + if calls[|calls| - 1].RemoveLinks? then Ids(calls[|calls| - 1].ids) else {}
  }

  /** Removing up front and adding at the end comes to the same as going through the calls. */
  lemma {:induction false} DeltaIsReplay(calls: seq<LinkCall>, links: set<int>)
    ensures Replay(calls, links) == (links - RemovedBy(calls)) + Replay(calls, {})
  {
    if calls != [] {
      DeltaIsReplay(calls[..|calls| - 1], links);
    }
  }

  lemma {:induction false} ReplayBounds(calls: seq<LinkCall>)
    ensures AddedBy(calls) - RemovedBy(calls) <= Replay(calls, {}) <= AddedBy(calls)
  {
    if calls != [] {
      ReplayBounds(calls[..|calls| - 1]);
    }
  }

  // ----- the single update

  /** An edge of the update; a Clear edge without nodes clears every link. */
  datatype EdgeSpec = EdgeSpec(nodes: seq<int>)

  datatype UpdateSpec = UpdateSpec(
    setUpdatedAt: Option<int>, clearUpdatedAt: bool, setHash: Option<string>,
    setSize: Option<uint32>, addSize: Option<int32>,
    setCompressedSize: Option<uint32>, addCompressedSize: Option<int32>,
    clearEdges: seq<EdgeSpec>, addEdges: seq<EdgeSpec>)

  function Cleared(edges: seq<EdgeSpec>, links: set<int>): set<int> {
    if edges == [] then links
    else
      var rest := Cleared(edges[..|edges| - 1], links);
      var last := edges[|edges| - 1];
      if last.nodes == [] then {} else rest - Ids(last.nodes)
  }

  function Linked(edges: seq<EdgeSpec>, links: set<int>): set<int> {
    if edges == [] then links
    else Linked(edges[..|edges| - 1], links) + Ids(edges[|edges| - 1].nodes)
  }

  /** The database clears before it adds. */
  function Applied(spec: UpdateSpec, links: set<int>): set<int> {
    Linked(spec.addEdges, Cleared(spec.clearEdges, links))
  }

  /** What an update does to a link: an Add edge makes it, otherwise a Clear edge unmakes it. */
  lemma EdgesDecide(spec: UpdateSpec, links: set<int>, id: int)
    ensures id in Applied(spec, links) <==>
      || (exists k | 0 <= k < |spec.addEdges| :: id in spec.addEdges[k].nodes)
      || (id in links && forall k | 0 <= k < |spec.clearEdges| ::
            spec.clearEdges[k].nodes != [] && id !in spec.clearEdges[k].nodes)
  {
    EdgesLink(spec.addEdges, Cleared(spec.clearEdges, links), id);
    EdgesClear(spec.clearEdges, links, id);
  }

  lemma {:induction false} EdgesLink(edges: seq<EdgeSpec>, links: set<int>, id: int)
    ensures id in Linked(edges, links)
      <==> id in links || exists k | 0 <= k < |edges| :: id in edges[k].nodes
  {
    if edges != [] {
      EdgesLink(edges[..|edges| - 1], links, id);
    }
  }

  lemma {:induction false} EdgesClear(edges: seq<EdgeSpec>, links: set<int>, id: int)
    ensures id in Cleared(edges, links)
      <==> id in links && forall k | 0 <= k < |edges| :: edges[k].nodes != [] && id !in edges[k].nodes
  {
    if edges != [] {
      EdgesClear(edges[..|edges| - 1], links, id);
    }
  }

  datatype SaveError = ValidationError | DatabaseError

  class Mutation {
    var hash: Option<string>
    var size: Option<uint32>
    var addsize: Option<int32>
    var compressedSize: Option<uint32>
    var addcompressedSize: Option<int32>
    var updatedAt: Option<int>
    var clearedUpdatedAt: bool
    var links: Option<set<int>>         // nil until the first Add
    var removedLinks: Option<set<int>>  // nil until the first Remove
    var clearedLinks: bool
    var done: bool
    ghost var sizeLog: seq<SizeCall>
    ghost var compressedLog: seq<SizeCall>
    ghost var timeLog: seq<TimeCall>
    ghost var linkLog: seq<LinkCall>

    ghost predicate ValidSize()
      reads `size, `addsize, `sizeLog, `compressedSize, `addcompressedSize, `compressedLog
    {
      && size == SizeValue(sizeLog) && addsize == SizeAddend(sizeLog)
      && compressedSize == SizeValue(compressedLog)
      && addcompressedSize == SizeAddend(compressedLog)
    }

    ghost predicate ValidTime()
      reads `updatedAt, `clearedUpdatedAt, `timeLog
    {
      updatedAt == TimeValue(timeLog) && clearedUpdatedAt == TimeCleared(timeLog)
    }

    ghost predicate ValidLinks()
      reads `links, `removedLinks, `clearedLinks, `linkLog
    {
      var calls := Since(linkLog);
      && (if links.None? then {} else links.value) == Replay(calls, {})
      && (if removedLinks.None? then {} else removedLinks.value) == RemovedBy(calls)
      && clearedLinks == (ClearLinks in calls)
    }

    ghost predicate Valid()
      reads this
    {
      ValidSize() && ValidTime() && ValidLinks()
    }

    constructor ()
      ensures Valid() && sizeLog == [] && compressedLog == [] && timeLog == [] && linkLog == []
      ensures !done && hash == None
    {
      hash, size, addsize, compressedSize, addcompressedSize := None, None, None, None, None;
      updatedAt, links, removedLinks := None, None, None;
      clearedUpdatedAt, clearedLinks, done := false, false, false;
      sizeLog, compressedLog, timeLog, linkLog := [], [], [], [];
    }

    method SetHash(s: string)
      requires Valid()
      modifies `hash
      ensures Valid() && hash == Some(s)
    {
      hash := Some(s);
    }

    method ResetHash()
      requires Valid()
      modifies `hash
      ensures Valid() && hash == None
    {
      hash := None;
    }

    method SetSize(u: uint32)
      requires Valid()
      modifies `size, `addsize, `sizeLog
      ensures Valid() && sizeLog == old(sizeLog) + [SizeCall.SetSize(u)]
    {
      size, addsize := Some(u), None;
      sizeLog := sizeLog + [SizeCall.SetSize(u)];
    }

    method AddSize(u: int32)
      requires Valid()
      modifies `addsize, `sizeLog
      ensures Valid() && sizeLog == old(sizeLog) + [SizeCall.AddSize(u)]
    {
      hide SizeValue, SizeAddend, ValidTime, ValidLinks, Wrap;
      OneMoreAdd(sizeLog, u);
      if addsize.Some? {
        addsize := Some(Wrap(addsize.value + u));
      } else {
        addsize := Some(u);
      }
      sizeLog := sizeLog + [SizeCall.AddSize(u)];
    }

    method ResetSize()
      requires Valid()
      modifies `size, `addsize, `sizeLog
      ensures Valid() && sizeLog == old(sizeLog) + [SizeCall.ResetSize]
    {
      size, addsize := None, None;
      sizeLog := sizeLog + [SizeCall.ResetSize];
    }

    method SetCompressedSize(u: uint32)
      requires Valid()
      modifies `compressedSize, `addcompressedSize, `compressedLog
      ensures Valid() && compressedLog == old(compressedLog) + [SizeCall.SetSize(u)]
    {
      compressedSize, addcompressedSize := Some(u), None;
      compressedLog := compressedLog + [SizeCall.SetSize(u)];
    }

    method AddCompressedSize(u: int32)
      requires Valid()
      modifies `addcompressedSize, `compressedLog
      ensures Valid() && compressedLog == old(compressedLog) + [SizeCall.AddSize(u)]
    {
      hide SizeValue, SizeAddend, ValidTime, ValidLinks, Wrap;
      OneMoreAdd(compressedLog, u);
      if addcompressedSize.Some? {
        addcompressedSize := Some(Wrap(addcompressedSize.value + u));
      } else {
        addcompressedSize := Some(u);
      }
      compressedLog := compressedLog + [SizeCall.AddSize(u)];
    }

    method ResetCompressedSize()
      requires Valid()
      modifies `compressedSize, `addcompressedSize, `compressedLog
      ensures Valid() && compressedLog == old(compressedLog) + [SizeCall.ResetSize]
    {
      compressedSize, addcompressedSize := None, None;
      compressedLog := compressedLog + [SizeCall.ResetSize];
    }

    method SetUpdatedAt(t: int)
      requires Valid()
      modifies `updatedAt, `timeLog
      ensures Valid() && timeLog == old(timeLog) + [SetTime(t)]
    {
      updatedAt := Some(t);
      timeLog := timeLog + [SetTime(t)];
      assert timeLog[..|timeLog| - 1] == old(timeLog);
    }

    method ClearUpdatedAt()
      requires Valid()
      modifies `updatedAt, `clearedUpdatedAt, `timeLog
      ensures Valid() && timeLog == old(timeLog) + [ClearTime]
    {
      updatedAt, clearedUpdatedAt := None, true;
      timeLog := timeLog + [ClearTime];
    }

    method ResetUpdatedAt()
      requires Valid()
      modifies `updatedAt, `clearedUpdatedAt, `timeLog
      ensures Valid() && timeLog == old(timeLog) + [ResetTime]
    {
      updatedAt, clearedUpdatedAt := None, false;
      timeLog := timeLog + [ResetTime];
    }

    method AddNarFileLinkIDs(ids: seq<int>)
      requires Valid()
      modifies `links, `linkLog
      ensures Valid() && linkLog == old(linkLog) + [AddLinks(ids)]
      ensures links.Some?
    {
      hide ValidSize, ValidTime, Since, Replay, RemovedBy, Ids;
      if links.None? {
        links := Some({});
      }
      ghost var start := links.value;
      assert Ids(ids[..0]) == {} by { NoIds(ids); }
      for i := 0 to |ids|
        invariant links.Some? && links.value == start + Ids(ids[..i])
        invariant ValidSize() && ValidTime() && linkLog == old(linkLog)
      {
        links := Some(links.value + {ids[i]});
        IdsOfPrefix(ids, i);
      }
      assert ids[..|ids|] == ids;
      LogOneMore(linkLog, AddLinks(ids));
      linkLog := linkLog + [AddLinks(ids)];
    }

    method ClearNarFileLinks()
      requires Valid()
      modifies `clearedLinks, `linkLog
      ensures Valid() && linkLog == old(linkLog) + [ClearLinks]
    {
      hide ValidSize, ValidTime, Since, Replay, RemovedBy;
      clearedLinks := true;
      LogOneMore(linkLog, ClearLinks);
      linkLog := linkLog + [ClearLinks];
    }

    method RemoveNarFileLinkIDs(ids: seq<int>)
      requires Valid()
      modifies `links, `removedLinks, `linkLog
      ensures Valid() && linkLog == old(linkLog) + [RemoveLinks(ids)]
      ensures removedLinks.Some?
    {
      hide ValidSize, ValidTime, Since, Replay, RemovedBy, Ids;
      if removedLinks.None? {
        removedLinks := Some({});
      }
      ghost var start := if links.None? then {} else links.value;
      ghost var removed := removedLinks.value;
      assert Ids(ids[..0]) == {} by { NoIds(ids); }
      for i := 0 to |ids|
        invariant (if links.None? then {} else links.value) == start - Ids(ids[..i])
        invariant removedLinks.Some? && removedLinks.value == removed + Ids(ids[..i])
        invariant ValidSize() && ValidTime() && linkLog == old(linkLog)
      {
        if links.Some? {
          links := Some(links.value - {ids[i]});  // delete() on a nil map does nothing
        }
        removedLinks := Some(removedLinks.value + {ids[i]});
        IdsOfPrefix(ids, i);
      }
      assert ids[..|ids|] == ids;
      LogOneMore(linkLog, RemoveLinks(ids));
      linkLog := linkLog + [RemoveLinks(ids)];
    }

    method ResetNarFileLinks()
      requires Valid()
      modifies `links, `removedLinks, `clearedLinks, `linkLog
      ensures Valid() && linkLog == old(linkLog) + [ResetLinks]
      ensures links.None? && removedLinks.None?
    {
      links, removedLinks, clearedLinks := None, None, false;
      linkLog := linkLog + [ResetLinks];
    }
  }

  /** What one more call, not a Reset, does to the meaning of the log. */
  lemma LogOneMore(log: seq<LinkCall>, call: LinkCall)
    requires !call.ResetLinks?
    ensures var calls, more := Since(log), Since(log + [call]);
      && (call.AddLinks? ==> Replay(more, {}) == Replay(calls, {}) + Ids(call.ids))
      && (call.RemoveLinks? ==> Replay(more, {}) == Replay(calls, {}) - Ids(call.ids))
      && (call.ClearLinks? ==> Replay(more, {}) == Replay(calls, {}))
      && RemovedBy(more) == RemovedBy(calls) + (if call.RemoveLinks? then Ids(call.ids) else {})
      && (ClearLinks in more <==> ClearLinks in calls || call == ClearLinks)
  {
    assert (log + [call])[..|log|] == log;
    var calls, more := Since(log), Since(log + [call]);
    assert more[..|more| - 1] == calls;
  }

  /** The IDs of a Go map, in an order that nothing determines. */
  method IdsOf(ids: set<int>) returns (list: seq<int>)
    ensures Ids(list) == ids
  {
    list := [];
    var rest := ids;
    while rest != {}
      invariant rest <= ids && Ids(list) == ids - rest
      decreases rest
    {
      assert (forall id :: id !in rest) ==> rest == {};
      var id :| id in rest;
      OneMoreId(list, id);
      rest, list := rest - {id}, list + [id];
    }
  }

  // ----- sqlSave

  class ChunkUpdate {
    const mutation: Mutation

    constructor (mutation: Mutation)
      ensures this.mutation == mutation
    {
      this.mutation := mutation;
    }

    /** The builder's SetSize resets before it sets. */
    method SetSize(v: uint32)
      requires mutation.Valid()
      modifies mutation`size, mutation`addsize, mutation`sizeLog
      ensures mutation.Valid() && mutation.size == Some(v) && mutation.addsize == None
      ensures mutation.sizeLog == old(mutation.sizeLog) + [SizeCall.ResetSize, SizeCall.SetSize(v)]
    {
      hide Mutation.ValidTime, Mutation.ValidLinks;
      mutation.ResetSize();
      mutation.SetSize(v);
    }

    /** `sqlSave`, with the database's verdict as a parameter. The update it sends has on any
        links the effect of the calls since the last Reset: on no links at all if one of the calls
        was a Clear, on the links there were otherwise. */
    method SqlSave(accepted: bool) returns (saved: Result<UpdateSpec>)
      requires mutation.Valid()
      modifies mutation`done
      ensures saved.Failure? && saved.error == ValidationError <==> mutation.hash == Some([])
      ensures saved.Success? <==> mutation.hash != Some([]) && accepted
      ensures mutation.done == (old(mutation.done) || saved.Success?)
      ensures saved.Success? ==>
        var calls := Since(mutation.linkLog);
        forall links: set<int> ::
          Applied(saved.value, links) == Replay(calls, if ClearLinks in calls then {} else links)
      ensures saved.Success? ==>
        && saved.value.setHash == mutation.hash
        && saved.value.setCompressedSize == SizeValue(mutation.compressedLog)
        && saved.value.addCompressedSize == SizeAddend(mutation.compressedLog)
        && saved.value.setSize == SizeValue(mutation.sizeLog)
        && saved.value.addSize == SizeAddend(mutation.sizeLog)
        && saved.value.setUpdatedAt == TimeValue(mutation.timeLog)
        && saved.value.clearUpdatedAt == TimeCleared(mutation.timeLog)
    {
      if mutation.hash == Some([]) {
        return Failure(ValidationError);
      }
      var clearEdges, addEdges: seq<EdgeSpec> := [], [];
      if mutation.clearedLinks {
        clearEdges := clearEdges + [EdgeSpec([])];
      }
      var removed := IdsOf(if mutation.removedLinks.None? then {} else mutation.removedLinks.value);
      if |removed| > 0 && !mutation.clearedLinks {
        clearEdges := clearEdges + [EdgeSpec(removed)];
      }
      var added := IdsOf(if mutation.links.None? then {} else mutation.links.value);
      if |added| > 0 {
        addEdges := addEdges + [EdgeSpec(added)];
      }
      var spec := UpdateSpec(
        mutation.updatedAt, mutation.clearedUpdatedAt, mutation.hash,
        mutation.size, mutation.addsize, mutation.compressedSize, mutation.addcompressedSize,
        clearEdges, addEdges);
      OneUpdateReplays(Since(mutation.linkLog), removed, added, spec);
      if !accepted {
        return Failure(DatabaseError);
      }
      mutation.done := true;
      saved := Success(spec);
    }
  }

  datatype Result<+T> = Success(value: T) | Failure(error: SaveError)

  /** What the calls start from: nothing if one of them is a Clear. */
  function StartOf(calls: seq<LinkCall>, links: set<int>): set<int> {
    if ClearLinks in calls then {} else links
  }

  lemma OneUpdateReplays(calls: seq<LinkCall>, removed: seq<int>, added: seq<int>, spec: UpdateSpec)
    requires Ids(removed) == RemovedBy(calls) && Ids(added) == Replay(calls, {})
    requires spec.addEdges == if |added| > 0 then [EdgeSpec(added)] else []
    requires spec.clearEdges ==
      if ClearLinks in calls then [EdgeSpec([])]
      else if |removed| > 0 then [EdgeSpec(removed)] else []
    ensures forall links: set<int> :: Applied(spec, links) == Replay(calls, StartOf(calls, links))
  {
    forall links: set<int> ensures Applied(spec, links) == Replay(calls, StartOf(calls, links)) {
      DeltaIsReplay(calls, StartOf(calls, links));
      OneEdge(spec.addEdges, added, Cleared(spec.clearEdges, links));
      OneClear(spec.clearEdges, removed, links);
    }
  }

  lemma OneEdge(edges: seq<EdgeSpec>, added: seq<int>, links: set<int>)
    requires edges == if |added| > 0 then [EdgeSpec(added)] else []
    ensures Linked(edges, links) == links + Ids(added)
  {
  }

  lemma OneClear(edges: seq<EdgeSpec>, removed: seq<int>, links: set<int>)
    ensures edges == [EdgeSpec([])] ==> Cleared(edges, links) == {}
    ensures edges == (if |removed| > 0 then [EdgeSpec(removed)] else []) ==>
      Cleared(edges, links) == links - Ids(removed)
  {
  }

  // ----- Clear in its place

  /** The calls with every one, Clear included, taking effect where it stands. */
  function InOrder(calls: seq<LinkCall>, links: set<int>): set<int> {
    if calls == [] then links
    else
      var before := InOrder(calls[..|calls| - 1], links);
      match calls[|calls| - 1]
      case AddLinks(ids) => before + Ids(ids)
      case RemoveLinks(ids) => before - Ids(ids)
      case ClearLinks => {}
      case ResetLinks => before
  }

  /** Where the last Clear stands. */
  function LastClear(calls: seq<LinkCall>): (k: nat)
    requires ClearLinks in calls
    ensures k < |calls| && calls[k] == ClearLinks
    ensures ClearLinks !in calls[k + 1..]
  {
    if calls[|calls| - 1] == ClearLinks then |calls| - 1
    else
      assert ClearLinks in calls[..|calls| - 1];
      var k := LastClear(calls[..|calls| - 1]);
      assert calls[k + 1..] == calls[..|calls| - 1][k + 1..] + [calls[|calls| - 1]];
      k
  }

  lemma {:induction false} ReplayAppend(a: seq<LinkCall>, b: seq<LinkCall>, links: set<int>)
    ensures Replay(a + b, links) == Replay(b, Replay(a, links))
  {
    if b == [] {
      assert a + b == a;
    } else {
      assert (a + b)[..|a + b| - 1] == a + b[..|b| - 1];
      ReplayAppend(a, b[..|b| - 1], links);
    }
  }

  lemma {:induction false} InOrderAfterClear(calls: seq<LinkCall>, k: nat, links: set<int>)
    requires k < |calls| && calls[k] == ClearLinks && ClearLinks !in calls[k + 1..]
    ensures InOrder(calls, links) == Replay(calls[k + 1..], {})
  {
    var init := calls[..|calls| - 1];
    if k == |calls| - 1 {
      assert calls[k + 1..] == [];
    } else {
      assert calls[k + 1..][..|calls| - k - 2] == init[k + 1..];
      assert calls[k + 1..][|calls| - k - 2] == calls[|calls| - 1];
      assert ClearLinks !in init[k + 1..] by {
        assert init[k + 1..] <= calls[k + 1..];
      }
      InOrderAfterClear(init, k, links);
    }
  }

  /** A Clear is hoisted: it spares the links added before it. So the update agrees with the calls
      taken in order exactly when each link that is pending when Clear is last called is named
      again by a later Add or Remove. */
  lemma ClearSparesPendingAdds(calls: seq<LinkCall>, links: set<int>)
    requires ClearLinks in calls
    ensures var k := LastClear(calls);
      Replay(calls, {}) == InOrder(calls, links)
      <==> Replay(calls[..k], {}) <= AddedBy(calls[k + 1..]) + RemovedBy(calls[k + 1..])
  {
    var k := LastClear(calls);
    var pending, later := Replay(calls[..k], {}), calls[k + 1..];
    assert calls == calls[..k] + [ClearLinks] + later;
    ReplayAppend(calls[..k] + [ClearLinks], later, {});
    assert (calls[..k] + [ClearLinks])[..k] == calls[..k];
    InOrderAfterClear(calls, k, links);
    DeltaIsReplay(later, pending);
    ReplayBounds(later);
  }

  /** The shortest case: a link added and then cleared is still added. */
  lemma AddThenClearStillAdds(id: int)
    ensures Replay([AddLinks([id]), ClearLinks], {}) == {id}
    ensures InOrder([AddLinks([id]), ClearLinks], {}) == {}
  {
    var calls := [AddLinks([id]), ClearLinks];
    var first := calls[..1];
    assert first == [AddLinks([id])] && first[..0] == [];
    assert Replay(first, {}) == Replay([], {}) + Ids([id]);
  }

  // ----- Set after Clear

  /** A Set leaves an earlier Clear standing, so the update both sets and clears the field exactly
      when the last call is a Set and a Clear since the last Reset came before it. */
  lemma {:induction false} SetAndCleared(log: seq<TimeCall>)
    ensures TimeValue(log).Some? && TimeCleared(log)
      <==> log != [] && log[|log| - 1].SetTime?
           && exists k | 0 <= k < |log| :: ClearStands(log, k)
  {
    ClearedSince(log);
  }

  /** The shortest case: a field cleared and then set is cleared and set. */
  lemma ClearThenSetDoesBoth(t: int)
    ensures TimeValue([ClearTime, SetTime(t)]) == Some(t) && TimeCleared([ClearTime, SetTime(t)])
  {
    assert [ClearTime, SetTime(t)][..1] == [ClearTime];
  }

  ghost predicate ClearStands(log: seq<TimeCall>, k: nat)
    requires k < |log|
  {
    log[k] == ClearTime && forall j | k < j < |log| :: log[j] != ResetTime
  }

  lemma {:induction false} ClearedSince(log: seq<TimeCall>)
    ensures TimeCleared(log) <==> exists k | 0 <= k < |log| :: ClearStands(log, k)
  {
    if log != [] {
      var n, init := |log| - 1, log[..|log| - 1];
      ClearedSince(init);
      if log[n] == ClearTime {
        assert ClearStands(log, n);
      } else if log[n] != ResetTime {
        forall k | 0 <= k < n ensures ClearStands(log, k) <==> ClearStands(init, k) {
          assert forall j | 0 <= j < n :: init[j] == log[j];
        }
      }
    }
  }
}
