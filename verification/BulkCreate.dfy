/** Bulk creation of NAR files: a chain of mutators that ends in one batch write. */
module BulkCreate {
  import opened Text
  import opened HookChain

  /** What a mutation sets of a NAR file: its columns, and the IDs on its two edges. */
  datatype Fields = Fields(
    createdAt: Option<int>, updatedAt: Option<int>, hash: Option<string>,
    compression: Option<string>, fileSize: Option<nat>, query: Option<string>,
    totalChunks: Option<int>, chunkingStartedAt: Option<int>, verifiedAt: Option<int>,
    bytesStoredAt: Option<int>, dechunkResidueFlaggedAt: Option<int>, lastAccessedAt: Option<int>,
    narInfoNarFiles: set<int>, chunkLinks: set<int>)

  function OrElse<T>(value: Option<T>, default: T): Option<T> {
    if value.Some? then value else Some(default)
  }

  /** `defaults`. */
  function WithDefaults(f: Fields, now: int): Fields {
    f.(createdAt := OrElse(f.createdAt, now), compression := OrElse(f.compression, []),
       query := OrElse(f.query, []), totalChunks := OrElse(f.totalChunks, 0),
       lastAccessedAt := OrElse(f.lastAccessedAt, now))
  }

  /** `check`: the name of the first field that is missing or not valid. */
  function Check(f: Fields): Option<string> {
    if f.createdAt.None? then Some("created_at")
    else if f.hash.None? || f.hash.value == [] then Some("hash")
    else if f.compression.None? then Some("compression")
    else if f.fileSize.None? then Some("file_size")
    else if f.query.None? then Some("query")
    else if f.totalChunks.None? then Some("total_chunks")
    else None
  }

  /** Of the required fields only the hash and the file size are left to the caller, and are
      reported in this order. */
  lemma DefaultsLeaveHashAndSize(f: Fields, now: int)
    ensures Check(WithDefaults(f, now)) ==
      if f.hash == None || f.hash == Some("") then Some("hash")
      else if f.fileSize == None then Some("file_size")
      else None
    ensures WithDefaults(WithDefaults(f, now), now) == WithDefaults(f, now)
  {
  }

  /** What the caller set is kept; five fields have a default, and no other gets a value. */
  lemma DefaultsFieldByField(f: Fields, now: int)
    ensures var d := WithDefaults(f, now);
      && d.createdAt == (if f.createdAt == None then Some(now) else f.createdAt)
      && d.compression == (if f.compression == None then Some("") else f.compression)
      && d.query == (if f.query == None then Some("") else f.query)
      && d.totalChunks == (if f.totalChunks == None then Some(0) else f.totalChunks)
      && d.lastAccessedAt == (if f.lastAccessedAt == None then Some(now) else f.lastAccessedAt)
      && d.updatedAt == f.updatedAt && d.hash == f.hash && d.fileSize == f.fileSize
      && d.chunkingStartedAt == f.chunkingStartedAt && d.verifiedAt == f.verifiedAt
      && d.bytesStoredAt == f.bytesStoredAt
      && d.dechunkResidueFlaggedAt == f.dechunkResidueFlaggedAt
      && d.narInfoNarFiles == f.narInfoNarFiles && d.chunkLinks == f.chunkLinks
  {
  }

  class Mutation {
    var fields: Fields
    var id: Option<int>
    var done: bool

    constructor (fields: Fields)
      ensures this.fields == fields && id == None && !done
    {
      this.fields, id, done := fields, None, false;
    }
  }

  datatype SaveError = ValidationError(name: string) | DatabaseError | HookError

  /** Where the chain stops, or the length of the path if nothing stops it. */
  function FirstStop(path: seq<Stage>): (k: nat)
    ensures k <= |path| && (k < |path| ==> Stops(path[k]))
    ensures forall i | 0 <= i < k :: !Stops(path[i])
  {
    if path == [] || Stops(path[0]) then 0 else 1 + FirstStop(path[1..])
  }

  /** The error of a call that runs the path: that of the first stage that stops the chain; if
      none does, the database's; if the write went well, that of an objecting hook. */
  function ErrorOf(path: seq<Stage>, accepted: bool): (error: Option<SaveError>)
    ensures error.None? <==> Succeeds(path, accepted)
  {
    var k := FirstStop(path);
    if k < |path| then
      Some(if path[k].HookStage? then HookError else ValidationError(path[k].fault.value))
    else if !accepted then Some(DatabaseError)
    else if Unopposed(path) then None else Some(HookError)
  }

  lemma ErrorOfRest(path: seq<Stage>, accepted: bool)
    requires path != []
    ensures ErrorOf(path, accepted) ==
      if Stops(path[0]) then
        Some(if path[0].HookStage? then HookError else ValidationError(path[0].fault.value))
      else if ErrorOf(path[1..], accepted).None? && ObjectsTo(path[0]) then Some(HookError)
      else ErrorOf(path[1..], accepted)
  {
    ReachesRest(path);
  }

  datatype BulkMutator = Own(i: nat) | Wrapped(i: nat, index: nat, hook: Hook, next: BulkMutator)

  // ----- the chain, flattened

  /** The builders of one call, after defaults: their fields and their hooks. */
  datatype Plan = Plan(drafts: seq<Fields>, hooks: seq<seq<Hook>>) {
    predicate Valid() { |drafts| == |hooks| }

    /** The stages from hook `j` of builder `i` to the end of the chain. */
    function Path(i: nat, j: nat): seq<Stage>
      requires Valid() && i <= |drafts| && (i < |drafts| ==> j <= |hooks[i]|)
      decreases |drafts| - i, if i < |drafts| then |hooks[i]| - j else 0
    {
      if i == |drafts| then []
      else if j < |hooks[i]| then [HookStage(i, j, hooks[i][j])] + Path(i, j + 1)
      else [OwnStage(i, Check(drafts[i]))] + Path(i + 1, 0)
    }

    function Chain(i: nat, j: nat): BulkMutator
      requires Valid() && i < |drafts| && j <= |hooks[i]|
      decreases |hooks[i]| - j
    {
      if j == |hooks[i]| then Own(i) else Wrapped(i, j, hooks[i][j], Chain(i, j + 1))
    }

    lemma PathStep(i: nat, j: nat)
      requires Valid() && i < |drafts| && j <= |hooks[i]|
      ensures Path(i, j) != []
      ensures Path(i, j)[0] == if j < |hooks[i]| then HookStage(i, j, hooks[i][j])
                               else OwnStage(i, Check(drafts[i]))
      ensures Path(i, j)[1..] == if j < |hooks[i]| then Path(i, j + 1) else Path(i + 1, 0)
    {
    }

    lemma PathEnd(j: nat)
      requires Valid()
      ensures Enters(Path(|drafts|, j)) == []
    {
    }

    lemma PathEnds()
      requires Valid()
      ensures Path(|drafts|, 0) == []
      ensures Trace([]) == [Ran] && Reaches([]) && Unopposed([])
      ensures forall accepted ::
        ErrorOf([], accepted) == if accepted then None else Some(DatabaseError)
    {
    }

    /** No hook between builder `k`'s own part and the write objects. */
    predicate CalmInside(k: nat)
      requires Valid() && k < |drafts|
    {
      Unopposed(Path(k + 1, 0))
    }
  }

  /** What the batch write answers: nothing if it is refused, else an ID for each row, or none if
      the driver leaves a row's ID out. */
  type Database = Option<seq<Option<int>>>

  function NodeID(ids: seq<Option<int>>, k: nat): int
    requires k < |ids|
  {
    if ids[k].Some? then ids[k].value else 0
  }

  class BulkSave {
    ghost const plan: Plan  // what the builders ask for, after defaults
    const mutations: seq<Mutation>
    const database: Database
    const specs: array<Option<Fields>>
    const nodes: array<int>
    const mutators: array<BulkMutator>
    var trace: seq<Event>
    var writes: seq<seq<Option<Fields>>>  // the batches handed to the database

    ghost predicate Valid()
      reads this, mutations
    {
      && plan.Valid()
      && |mutations| == |plan.drafts| == specs.Length == nodes.Length == mutators.Length
      && (forall a, b | 0 <= a < b < |mutations| :: mutations[a] != mutations[b])
      && (forall k | 0 <= k < |mutations| :: mutations[k].fields == plan.drafts[k])
      && (database.Some? ==> |database.value| == |mutations|)
    }

    ghost predicate Linked()
      requires plan.Valid() && mutators.Length == |plan.drafts|
      reads mutators
    {
      forall k | 0 <= k < mutators.Length :: mutators[k] == plan.Chain(k, 0)
    }

    constructor (ghost plan: Plan, mutations: seq<Mutation>, database: Database)
      ensures fresh(specs) && fresh(nodes) && fresh(mutators) && trace == [] && writes == []
      ensures specs.Length == nodes.Length == mutators.Length == |mutations|
      ensures this.plan == plan && this.mutations == mutations && this.database == database
    {
      this.plan, this.mutations, this.database := plan, mutations, database;
      specs := new Option<Fields>[|mutations|](_ => None);
      nodes := new int[|mutations|](_ => 0);
      mutators := new BulkMutator[|mutations|](_ => Own(0));
      trace, writes := [], [];
    }

    /** What happens, in which order, and what comes back. */
    twostate predicate Happened(i: nat, j: nat, new error: Option<SaveError>)
      requires plan.Valid() && i < |plan.drafts| && j <= |plan.hooks[i]|
      reads this
    {
      && trace == old(trace) + Trace(plan.Path(i, j))
      && error == ErrorOf(plan.Path(i, j), database.Some?)
    }

    /** One write if the end of the chain is reached, with every spec from here on filled in. */
    twostate predicate Wrote(i: nat, j: nat)
      requires plan.Valid() && i < |plan.drafts| == specs.Length == nodes.Length
      requires j <= |plan.hooks[i]|
      reads this, specs, nodes
    {
      && writes == old(writes) + (if Reaches(plan.Path(i, j)) then [specs[..]] else [])
      && (forall k | 0 <= k < i :: specs[k] == old(specs[k]) && nodes[k] == old(nodes[k]))
      && (Reaches(plan.Path(i, j)) ==>
            forall k | i <= k < specs.Length :: specs[k] == Some(plan.drafts[k]))
    }

    /** Builder `k` has gone through when the chain is called at hook `j` of builder `i`. */
    ghost predicate Finishes(k: nat, i: nat, j: nat)
      requires plan.Valid() && k < |plan.drafts| && i < |plan.drafts| && j <= |plan.hooks[i]|
    {
      i <= k && Reaches(plan.Path(i, j)) && database.Some? && plan.CalmInside(k)
    }

    /** Who is done, and with which ID. */
    twostate predicate Marked(i: nat, j: nat)
      requires Valid() && i < |mutations| && j <= |plan.hooks[i]|
      reads this, nodes, mutations
    {
      forall k | 0 <= k < |mutations| ::
        && mutations[k].done == (Finishes(k, i, j) || old(mutations[k].done))
        && (Finishes(k, i, j) ==>
              mutations[k].id == Some(nodes[k]) && nodes[k] == NodeID(database.value, k))
        && (!Finishes(k, i, j) ==> mutations[k].id == old(mutations[k].id))
    }

    /** Calling the chain at hook `j` of builder `i`. */
    method Mutate(mut: BulkMutator, ghost i: nat, ghost j: nat) returns (error: Option<SaveError>)
      requires Valid() && Linked()
      requires i < |mutations| && j <= |plan.hooks[i]| && mut == plan.Chain(i, j)
      modifies this, specs, nodes, mutations
      ensures Valid() && Happened(i, j, error) && Wrote(i, j) && Marked(i, j)
      decreases |mutations| - i, |plan.hooks[i]| - j, 1
    {
      match mut {
        case Wrapped(owner, index, hook, next) =>
          error := RunHook(owner, index, hook, next);
        case Own(own) =>
          error := RunOwn(own);
      }
    }

    method RunHook(i: nat, j: nat, hook: Hook, next: BulkMutator) returns (error: Option<SaveError>)
      requires Valid() && Linked()
      requires i < |mutations| && j < |plan.hooks[i]|
      requires hook == plan.hooks[i][j] && next == plan.Chain(i, j + 1)
      modifies this, specs, nodes, mutations
      ensures Valid() && Happened(i, j, error) && Wrote(i, j) && Marked(i, j)
      decreases |mutations| - i, |plan.hooks[i]| - j, 0
    {
      hide Trace, Reaches, Unopposed, Plan.Path, Plan.Chain, Check, ErrorOf;
      plan.PathStep(i, j);
      ReachesRest(plan.Path(i, j));
      ErrorOfRest(plan.Path(i, j), database.Some?);
      TraceFirst(plan.Path(i, j));
      assert writes + [] == writes && trace + [] == trace;
      trace := trace + [Enter(i, j)];
      if hook.Refuses? {
        trace := trace + [Exit(i, j)];
        assert trace == old(trace) + Trace(plan.Path(i, j)) && writes == old(writes) + [];
        return Some(HookError);
      }
      error := Mutate(next, i, j + 1);
      trace := trace + [Exit(i, j)];
      assert trace == old(trace) + Trace(plan.Path(i, j));
      assert writes == old(writes) + if Reaches(plan.Path(i, j)) then [specs[..]] else [];
      if error.None? && hook.Objects? {
        error := Some(HookError);
      }
    }

    method RunOwn(i: nat) returns (error: Option<SaveError>)
      requires Valid() && Linked() && i < |mutations|
      modifies this, specs, nodes, mutations
      ensures Valid() && Happened(i, |plan.hooks[i]|, error)
      ensures Wrote(i, |plan.hooks[i]|) && Marked(i, |plan.hooks[i]|)
      decreases |mutations| - i, 0, 0
    {
      hide Trace, Reaches, Unopposed, Plan.Path, Plan.Chain, Check, ErrorOf;
      ghost var j := |plan.hooks[i]|;
      plan.PathStep(i, j);
      ReachesRest(plan.Path(i, j));
      ErrorOfRest(plan.Path(i, j), database.Some?);
      TraceFirst(plan.Path(i, j));
      assert writes + [] == writes && trace + [] == trace;
      var invalid := Check(mutations[i].fields);
      if invalid.Some? {
        assert trace == old(trace) + Trace(plan.Path(i, j)) && writes == old(writes) + [];
        return Some(ValidationError(invalid.value));
      }
      specs[i], nodes[i] := Some(mutations[i].fields), 0;
      if i < |mutations| - 1 {
        error := Mutate(mutators[i + 1], i + 1, 0);
      } else {
        plan.PathEnds();
        trace := trace + [Ran];
        writes := writes + [specs[..]];
        error := if database.None? then Some(DatabaseError) else None;
      }
      if error.Some? {
        return;
      }
      assert Finishes(i, i, j);
      MarkDone(i);
    }

    /** The last step of a builder's own part, on the way back out of the chain. */
    method MarkDone(i: nat)
      requires Valid() && i < |mutations| && database.Some? && nodes[i] == 0
      modifies nodes, mutations[i]
      ensures Valid() && nodes[i] == (match database.value[i] case Some(id) => id case None => 0)
      ensures forall k | 0 <= k < nodes.Length && k != i :: nodes[k] == old(nodes[k])
      ensures mutations[i].id == Some(nodes[i]) && mutations[i].done
    {
      if database.value[i].Some? {
        nodes[i] := database.value[i].value;
      }
      mutations[i].id, mutations[i].done := Some(nodes[i]), true;
    }
  }

  /** Defaults first, then the hooks around the builder's own part, innermost first. */
  method Prepare(run: BulkSave, mutation: Mutation, i: nat, hooks: seq<Hook>, now: int)
    requires run.plan.Valid() && i < |run.plan.drafts| == run.mutators.Length
    requires hooks == run.plan.hooks[i]
    modifies mutation`fields, run.mutators
    ensures mutation.fields == WithDefaults(old(mutation.fields), now)
    ensures run.mutators[i] == run.plan.Chain(i, 0)
    ensures forall k | 0 <= k < run.mutators.Length && k != i :: run.mutators[k] == old(run.mutators[k])
  {
    mutation.fields := WithDefaults(mutation.fields, now);
    var mut := Own(i);
    var j := |hooks|;
    while j > 0
      invariant 0 <= j <= |hooks| && mut == run.plan.Chain(i, j)
    {
      j := j - 1;
      mut := Wrapped(i, j, hooks[j], mut);
    }
    run.mutators[i] := mut;
  }

  function Drafts(fields: seq<Fields>, now: int): (drafts: seq<Fields>)
    ensures |drafts| == |fields|
    ensures forall k | 0 <= k < |fields| :: drafts[k] == WithDefaults(fields[k], now)
  {
    seq(|fields|, k requires 0 <= k < |fields| => WithDefaults(fields[k], now))
  }

  ghost function FieldsOf(mutations: seq<Mutation>): seq<Fields>
    reads mutations
  {
    seq(|mutations|, k requires 0 <= k < |mutations| reads mutations => mutations[k].fields)
  }

  /** `NarFileCreateBulk.Save`; `earlier` is an error from building the builders, and their
      mutations are distinct objects. */
  method Save(earlier: Option<SaveError>, mutations: seq<Mutation>, hooks: seq<seq<Hook>>,
              database: Database, now: int)
    returns (error: Option<SaveError>, run: BulkSave)
    requires |hooks| == |mutations| && (database.Some? ==> |database.value| == |mutations|)
    requires forall a, b | 0 <= a < b < |mutations| :: mutations[a] != mutations[b]
    modifies mutations
    ensures fresh(run) && run.mutations == mutations && run.database == database
    ensures run.plan == Plan(Drafts(old(FieldsOf(mutations)), now), hooks) && run.plan.Valid()
    ensures earlier.Some? ==>
      && error == earlier && run.trace == [] && run.writes == []
      && forall m <- mutations :: m.fields == old(m.fields) && m.done == old(m.done)
    ensures earlier.None? && mutations == [] ==> error.None? && run.writes == []
    ensures earlier.None? && mutations != [] ==>
      var path := run.plan.Path(0, 0);
      && error == ErrorOf(path, database.Some?)
      && run.trace == Trace(path)
      && run.writes == (if Reaches(path) then [Filled(run.plan.drafts)] else [])
      && forall k | 0 <= k < |mutations| ::
           && mutations[k].done == (Finished(run.plan, k, database.Some?) || old(mutations[k].done))
           && (!Finished(run.plan, k, database.Some?) ==> mutations[k].id == old(mutations[k].id))
    // A builder that is done has the ID the database gave its own row, or 0 if it gave none.
    ensures earlier.None? ==>
      forall k | 0 <= k < |mutations| && Finished(run.plan, k, database.Some?) ::
        mutations[k].id == if database.value[k].Some? then database.value[k] else Some(0)
  {
    hide Check, Reaches, Unopposed, Trace, ErrorOf, WithDefaults, Plan.Path;
    ghost var plan := Plan(Drafts(FieldsOf(mutations), now), hooks);
    run := new BulkSave(plan, mutations, database);
    if earlier.Some? {
      return earlier, run;
    }
    for i := 0 to |mutations|
      invariant forall k | 0 <= k < i :: mutations[k].fields == plan.drafts[k]
      invariant forall k | i <= k < |mutations| :: mutations[k].fields == old(mutations[k].fields)
      invariant forall k | 0 <= k < i :: run.mutators[k] == plan.Chain(k, 0)
      invariant forall k | 0 <= k < |mutations| ::
        mutations[k].done == old(mutations[k].done) && mutations[k].id == old(mutations[k].id)
      invariant run.trace == [] && run.writes == []
    {
      Prepare(run, mutations[i], i, hooks[i], now);
    }
    error := None;
    if |mutations| > 0 {
      error := run.Mutate(run.mutators[0], 0, 0);
      assert Reaches(plan.Path(0, 0)) ==> run.specs[..] == Filled(plan.drafts);
    }
  }

  function Filled(drafts: seq<Fields>): (specs: seq<Option<Fields>>)
    ensures |specs| == |drafts| && forall k | 0 <= k < |drafts| :: specs[k] == Some(drafts[k])
  {
    seq(|drafts|, k requires 0 <= k < |drafts| => Some(drafts[k]))
  }

  // ----- what the plan says about the chain

  /** From hook `j` of builder `i` on, the write is reached exactly when every draft checks out
      and no hook refuses, and is unopposed exactly when no hook objects. */
  lemma {:induction false} ReachesWhen(plan: Plan, i: nat, j: nat)
    requires plan.Valid() && i <= |plan.drafts| && (i < |plan.drafts| ==> j <= |plan.hooks[i]|)
    ensures Reaches(plan.Path(i, j)) <==>
      && (forall b | i <= b < |plan.drafts| :: Check(plan.drafts[b]).None?)
      && !UsesFrom(plan, Refuses, i, j)
    ensures Unopposed(plan.Path(i, j)) <==> !UsesFrom(plan, Objects, i, j)
    decreases |plan.drafts| - i, if i < |plan.drafts| then |plan.hooks[i]| - j else 0
  {
    if i < |plan.drafts| {
      plan.PathStep(i, j);
      ReachesRest(plan.Path(i, j));
      UsesRest(plan, Refuses, i, j);
      UsesRest(plan, Objects, i, j);
      if j < |plan.hooks[i]| {
        ReachesWhen(plan, i, j + 1);
      } else {
        ReachesWhen(plan, i + 1, 0);
      }
    }
  }

  ghost predicate UsesFrom(plan: Plan, hook: Hook, i: nat, j: nat)
    requires plan.Valid()
  {
    exists b, x | i <= b < |plan.drafts| && 0 <= x < |plan.hooks[b]| && (b == i ==> j <= x) ::
      plan.hooks[b][x] == hook
  }

  lemma UsesRest(plan: Plan, hook: Hook, i: nat, j: nat)
    requires plan.Valid() && i < |plan.drafts| && j <= |plan.hooks[i]|
    ensures UsesFrom(plan, hook, i, j) <==>
      if j < |plan.hooks[i]| then plan.hooks[i][j] == hook || UsesFrom(plan, hook, i, j + 1)
      else UsesFrom(plan, hook, i + 1, 0)
  {
  }

  /** A successful call leaves every builder done, and a failed one leaves none done. */
  ghost predicate AllOrNone(plan: Plan, accepted: bool)
    requires plan.Valid()
  {
    forall k | 0 <= k < |plan.drafts| ::
      Finished(plan, k, accepted) <==> Succeeds(plan.Path(0, 0), accepted)
  }

  /** A bulk creation is all or nothing, whatever the database answers, exactly when a draft does
      not check out, some hook refuses, or no hook objects after going on. */
  lemma WhenAllOrNothing(plan: Plan)
    requires plan.Valid() && plan.drafts != []
    ensures (forall accepted :: AllOrNone(plan, accepted)) <==>
      || (exists b | 0 <= b < |plan.drafts| :: Check(plan.drafts[b]).Some?)
      || UsesFrom(plan, Refuses, 0, 0)
      || !UsesFrom(plan, Objects, 0, 0)
  {
    hide Check, UsesFrom, Reaches, Unopposed, Plan.Path;
    var path, n := plan.Path(0, 0), |plan.drafts|;
    ReachesWhen(plan, 0, 0);
    if Reaches(path) && !Unopposed(path) {
      plan.PathEnds();
      assert Finished(plan, n - 1, true) && !Succeeds(path, true);
      assert !AllOrNone(plan, true);
    } else {
      forall accepted ensures AllOrNone(plan, accepted) {
        AllOrNoneOtherwise(plan, accepted);
      }
    }
  }

  lemma AllOrNoneOtherwise(plan: Plan, accepted: bool)
    requires plan.Valid() && (Reaches(plan.Path(0, 0)) ==> Unopposed(plan.Path(0, 0)))
    ensures AllOrNone(plan, accepted)
  {
    hide Check, UsesFrom, Reaches, Unopposed, Plan.Path;
    ReachesWhen(plan, 0, 0);
    forall k | 0 <= k < |plan.drafts| && Unopposed(plan.Path(0, 0)) ensures plan.CalmInside(k) {
      ReachesWhen(plan, k + 1, 0);
      if UsesFrom(plan, Objects, k + 1, 0) {
        FewerUses(plan, Objects, k + 1);
      }
    }
  }

  lemma FewerUses(plan: Plan, hook: Hook, i: nat)
    requires plan.Valid() && UsesFrom(plan, hook, i, 0)
    ensures UsesFrom(plan, hook, 0, 0)
  {
    var b, x :| i <= b < |plan.drafts| && 0 <= x < |plan.hooks[b]| && plan.hooks[b][x] == hook;
  }

  /** The smallest failing plan: one good draft and one hook that objects. The row is written and
      its builder done, and the call reports an error. */
  lemma ObjectingHookComesTooLate(draft: Fields)
    requires Check(draft).None?
    ensures var plan := Plan([draft], [[Objects]]);
      && ErrorOf(plan.Path(0, 0), true) == Some(HookError)
      && Reaches(plan.Path(0, 0)) && Finished(plan, 0, true)
  {
    var plan := Plan([draft], [[Objects]]);
    plan.PathEnds();
    plan.PathStep(0, 0);
    plan.PathStep(0, 1);
    assert plan.Path(0, 0) == [HookStage(0, 0, Objects), OwnStage(0, None)];
  }

  /** What `BulkSave.Finishes` says of a whole call. */
  ghost predicate Finished(plan: Plan, k: nat, accepted: bool)
    requires plan.Valid() && k < |plan.drafts|
  {
    Reaches(plan.Path(0, 0)) && accepted && plan.CalmInside(k)
  }

  /** Exactly which builders end up done. */
  lemma WhoIsDone(plan: Plan, k: nat, accepted: bool)
    requires plan.Valid() && k < |plan.drafts|
    ensures Finished(plan, k, accepted) <==>
      && (forall b | 0 <= b < |plan.drafts| :: Check(plan.drafts[b]) == None)
      && (forall b, x | 0 <= b < |plan.drafts| && 0 <= x < |plan.hooks[b]| ::
            && plan.hooks[b][x] != Refuses
            && (b > k ==> plan.hooks[b][x] != Objects))
      && accepted
  {
    hide Check, Reaches, Unopposed, Plan.Path;
    ReachesWhen(plan, 0, 0);
    ReachesWhen(plan, k + 1, 0);
  }

  /** The stages of one builder: its hooks by index, then its own part, then the next builder's. */
  lemma {:induction false} PathOfBuilder(plan: Plan, i: nat, j: nat)
    requires plan.Valid() && i < |plan.drafts| && j <= |plan.hooks[i]|
    ensures var path, n := plan.Path(i, j), |plan.hooks[i]| - j;
      && |path| == n + 1 + |plan.Path(i + 1, 0)|
      && (forall x | 0 <= x < n :: path[x] == HookStage(i, j + x, plan.hooks[i][j + x]))
      && path[n] == OwnStage(i, Check(plan.drafts[i]))
      && path[n + 1..] == plan.Path(i + 1, 0)
      && plan.Path(|plan.drafts|, 0) == []
    decreases |plan.hooks[i]| - j
  {
    hide Plan.Path, Check;
    plan.PathStep(i, j);
    plan.PathEnds();
    if j < |plan.hooks[i]| {
      PathOfBuilder(plan, i, j + 1);
      assert plan.Path(i, j) == [plan.Path(i, j)[0]] + plan.Path(i, j + 1);
    }
  }

  ghost predicate Before(a: Event, b: Event) {
    && a.Enter? && b.Enter?
    && (a.owner < b.owner || (a.owner == b.owner && a.index < b.index))
  }

  lemma EarlierEvent(first: Event, rest: seq<Event>)
    requires first.Enter? && forall e <- rest :: e.Enter?
    requires forall b: nat, x: nat :: Enter(b, x) in rest ==> Before(first, Enter(b, x))
    requires forall p, q | 0 <= p < q < |rest| :: Before(rest[p], rest[q])
    ensures forall p, q | 0 <= p < q < |rest| + 1 ::
      Before(([first] + rest)[p], ([first] + rest)[q])
  {
    forall q | 0 <= q < |rest| ensures Before(first, rest[q]) {
      assert rest[q] in rest && Enter(rest[q].owner, rest[q].index) in rest;
    }
  }

  /** The hooks of the chain, as entered when nothing stops it: those of builder 0 by index, then
      those of builder 1, and so on, each once. */
  lemma {:induction false} HooksInOrder(plan: Plan, i: nat, j: nat)
    requires plan.Valid() && i <= |plan.drafts| && (i < |plan.drafts| ==> j <= |plan.hooks[i]|)
    ensures var events := Enters(plan.Path(i, j));
      && (forall p, q | 0 <= p < q < |events| :: Before(events[p], events[q]))
      && (forall b: nat, x: nat :: Enter(b, x) in events <==>
            i <= b < |plan.drafts| && x < |plan.hooks[b]| && (b == i ==> j <= x))
      && (forall e <- events :: e.Enter?)
    decreases |plan.drafts| - i, if i < |plan.drafts| then |plan.hooks[i]| - j else 0
  {
    hide Plan.Path, Enters;
    HooksListed(plan, i, j);
    if i == |plan.drafts| {
      plan.PathEnd(j);
    } else if j < |plan.hooks[i]| {
      FirstEnter(plan, i, j);
      HooksInOrder(plan, i, j + 1);
      EarlierEvent(Enter(i, j), Enters(plan.Path(i, j + 1)));
    } else {
      FirstEnter(plan, i, j);
      HooksInOrder(plan, i + 1, 0);
    }
  }

  lemma {:induction false} HooksListed(plan: Plan, i: nat, j: nat)
    requires plan.Valid() && i <= |plan.drafts| && (i < |plan.drafts| ==> j <= |plan.hooks[i]|)
    ensures var events := Enters(plan.Path(i, j));
      && (forall b: nat, x: nat :: Enter(b, x) in events <==>
            i <= b < |plan.drafts| && x < |plan.hooks[b]| && (b == i ==> j <= x))
      && (forall e <- events :: e.Enter?)
    decreases |plan.drafts| - i, if i < |plan.drafts| then |plan.hooks[i]| - j else 0
  {
    hide Plan.Path, Enters;
    if i == |plan.drafts| {
      plan.PathEnd(j);
    } else if j < |plan.hooks[i]| {
      FirstEnter(plan, i, j);
      HooksListed(plan, i, j + 1);
    } else {
      FirstEnter(plan, i, j);
      HooksListed(plan, i + 1, 0);
    }
  }

  lemma FirstEnter(plan: Plan, i: nat, j: nat)
    requires plan.Valid() && i < |plan.drafts| && j <= |plan.hooks[i]|
    ensures Enters(plan.Path(i, j)) ==
      if j < |plan.hooks[i]| then [Enter(i, j)] + Enters(plan.Path(i, j + 1))
      else Enters(plan.Path(i + 1, 0))
  {
    hide Plan.Path;
    plan.PathStep(i, j);
  }

  /** A chain that reaches the write calls all of its stages. */
  lemma {:induction false} ReachingCallsAll(path: seq<Stage>)
    requires Reaches(path)
    ensures Called(path) == path
  {
    if path != [] {
      ReachesRest(path);
      ReachingCallsAll(path[1..]);
    }
  }
}
