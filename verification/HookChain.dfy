/** How hooks wrap an operation, and the order in which a chain of them is entered and left. */
module HookChain {
  import opened Text

  /** A hook that is passed its successor once and returns what it got, one that returns an error
      of its own instead of going on, and one that goes on and then returns an error. */
  datatype Hook = Passes | Refuses | Objects

  /** One stage of a chain: hook `index` of builder `owner`, or the builder's own part, which
      stops at once if its draft has a fault. */
  datatype Stage =
    | HookStage(owner: nat, index: nat, hook: Hook)
    | OwnStage(owner: nat, fault: Option<string>)

  /** `Ran` is the operation at the end of the chain. */
  datatype Event = Enter(owner: nat, index: nat) | Exit(owner: nat, index: nat) | Ran

  /** The stage keeps the chain from going any further. */
  predicate Stops(s: Stage) {
    match s
    case HookStage(_, _, hook) => hook.Refuses?
    case OwnStage(_, fault) => fault.Some?
  }

  predicate ObjectsTo(s: Stage) { s.HookStage? && s.hook.Objects? }

  predicate Reaches(path: seq<Stage>) { forall i | 0 <= i < |path| :: !Stops(path[i]) }

  predicate Unopposed(path: seq<Stage>) { forall i | 0 <= i < |path| :: !ObjectsTo(path[i]) }

  /** The chain's result is a success. */
  predicate Succeeds(path: seq<Stage>, operationOk: bool) {
    Reaches(path) && operationOk && Unopposed(path)
  }

  /** What calling the first stage of the path makes happen. */
  function Trace(path: seq<Stage>): seq<Event> {
    if path == [] then [Ran]
    else
      match path[0]
      case OwnStage(_, fault) => if fault.None? then Trace(path[1..]) else []
      case HookStage(o, i, hook) =>
        [Enter(o, i)] + (if hook.Refuses? then [] else Trace(path[1..])) + [Exit(o, i)]
  }

  lemma TraceFirst(path: seq<Stage>)
    requires path != []
    ensures path[0].OwnStage? ==> Trace(path) == if Stops(path[0]) then [] else Trace(path[1..])
    ensures path[0].HookStage? ==>
      var enter, exit := Enter(path[0].owner, path[0].index), Exit(path[0].owner, path[0].index);
      Trace(path) == [enter] + (if Stops(path[0]) then [] else Trace(path[1..])) + [exit]
  {
  }

  // ----- the order of events, said without following the calls

  /** The stages that are called: up to and with the first that stops. */
  function Called(path: seq<Stage>): seq<Stage> {
    if path == [] then [] else if Stops(path[0]) then path[..1] else path[..1] + Called(path[1..])
  }

  function Enters(path: seq<Stage>): seq<Event> {
    if path == [] then []
    else (if path[0].HookStage? then [Enter(path[0].owner, path[0].index)] else []) + Enters(path[1..])
  }

  function Exits(path: seq<Stage>): seq<Event> {
    if path == [] then []
    else (if path[0].HookStage? then [Exit(path[0].owner, path[0].index)] else []) + Exits(path[1..])
  }

  function Reverse(events: seq<Event>): seq<Event> {
    if events == [] then [] else Reverse(events[1..]) + [events[0]]
  }

  lemma {:induction false} ReverseAppend(a: seq<Event>, b: seq<Event>)
    ensures Reverse(a + b) == Reverse(b) + Reverse(a)
  {
    if a == [] {
      assert a + b == b;
    } else {
      assert (a + b)[1..] == a[1..] + b;
      ReverseAppend(a[1..], b);
    }
  }

  lemma ReachesRest(path: seq<Stage>)
    requires path != []
    ensures Reaches(path) <==> !Stops(path[0]) && Reaches(path[1..])
    ensures Unopposed(path) <==> !ObjectsTo(path[0]) && Unopposed(path[1..])
  {
    assert path == path[..1] + path[1..];
  }

  lemma EventsOfCons(s: Stage, inner: seq<Stage>)
    ensures Enters([s] + inner)
         == (if s.HookStage? then [Enter(s.owner, s.index)] else []) + Enters(inner)
    ensures Reverse(Exits([s] + inner))
         == Reverse(Exits(inner)) + if s.HookStage? then [Exit(s.owner, s.index)] else []
  {
    assert ([s] + inner)[1..] == inner;
    if s.HookStage? {
      assert ([Exit(s.owner, s.index)] + Exits(inner))[1..] == Exits(inner);
    } else {
      assert [] + Exits(inner) == Exits(inner) && Reverse(Exits(inner)) + [] == Reverse(Exits(inner));
    }
  }

  lemma Regroup(a: seq<Event>, b: seq<Event>, c: seq<Event>, d: seq<Event>, e: seq<Event>)
    ensures a + (b + c + d) + e == (a + b) + c + (d + e)
  {
  }

  lemma NoEvents()
    ensures Enters([]) == [] && Exits([]) == [] && Reverse([]) == [] && Reaches([])
    ensures Trace([]) == [Ran] && Called([]) == []
  {
  }

  lemma CalledFirst(path: seq<Stage>)
    requires path != []
    ensures Called(path) == if Stops(path[0]) then path[..1] else path[..1] + Called(path[1..])
  {
  }

  /** Hooks nest: the ones called are entered in path order, the operation runs at the innermost
      point if and only if no stage stops the chain, and they are left in exactly the opposite
      order. */
  lemma {:induction false} HooksNest(path: seq<Stage>)
    ensures Trace(path)
         == Enters(Called(path)) + (if Reaches(path) then [Ran] else []) + Reverse(Exits(Called(path)))
  {
    hide Enters, Exits, Reverse, Reaches, Trace, Called;
    NoEvents();
    if path != [] {
      var s, rest := path[0], path[1..];
      ReachesRest(path);
      TraceFirst(path);
      CalledFirst(path);
      assert path[..1] == [s];
      if Stops(s) {
        EventsOfCons(s, []);
        assert [s] + [] == [s];
      } else {
        var inner := Called(rest);
        EventsOfCons(s, inner);
        HooksNest(rest);
        if s.HookStage? {
          Regroup([Enter(s.owner, s.index)], Enters(inner), if Reaches(rest) then [Ran] else [],
                  Reverse(Exits(inner)), [Exit(s.owner, s.index)]);
        }
      }
    }
  }

  // ----- withHooks

  /** A Mutator value: the operation itself, or a hook around another Mutator. */
  datatype Mutator = Operation | Hooked(owner: nat, index: nat, hook: Hook, next: Mutator)

  function HookPath(owner: nat, hooks: seq<Hook>, from: nat): seq<Stage>
    requires from <= |hooks|
    decreases |hooks| - from
  {
    if from == |hooks| then []
    else [HookStage(owner, from, hooks[from])] + HookPath(owner, hooks, from + 1)
  }

  /** One stage for each hook, in order. */
  lemma {:induction false} HookPathIs(owner: nat, hooks: seq<Hook>, from: nat)
    requires from <= |hooks|
    ensures |HookPath(owner, hooks, from)| == |hooks| - from
    ensures forall k | 0 <= k < |hooks| - from ::
      HookPath(owner, hooks, from)[k] == HookStage(owner, from + k, hooks[from + k])
    decreases |hooks| - from
  {
    hide HookPath;
    if from == |hooks| {
      HookPathEnds(owner, hooks);
    } else {
      HookPathStep(owner, hooks, from);
      HookPathIs(owner, hooks, from + 1);
      var path, rest := HookPath(owner, hooks, from), HookPath(owner, hooks, from + 1);
      assert forall k | 0 < k < |path| :: path[k] == rest[k - 1];
    }
  }

  lemma HookPathEnds(owner: nat, hooks: seq<Hook>)
    ensures HookPath(owner, hooks, |hooks|) == []
  {
  }

  lemma HookPathStep(owner: nat, hooks: seq<Hook>, from: nat)
    requires from < |hooks|
    ensures HookPath(owner, hooks, from)
         == [HookStage(owner, from, hooks[from])] + HookPath(owner, hooks, from + 1)
  {
  }

  lemma WhenHooksPass(hooks: seq<Hook>, operationOk: bool)
    ensures Succeeds(HookPath(0, hooks, 0), operationOk)
      <==> operationOk && forall k | 0 <= k < |hooks| :: hooks[k] == Passes
  {
    var path := HookPath(0, hooks, 0);
    HookPathIs(0, hooks, 0);
    assert forall k | 0 <= k < |hooks| :: path[k].hook == hooks[k];
  }

  /** `Enter(0, from)` to `Enter(0, to - 1)`. */
  function Entering(from: nat, to: nat): (events: seq<Event>)
    requires from <= to
    ensures |events| == to - from && forall k | 0 <= k < to - from :: events[k] == Enter(0, from + k)
  {
    seq(to - from, k requires 0 <= k < to - from => Enter(0, from + k))
  }

  /** `Exit(0, to - 1)` down to `Exit(0, from)`. */
  function Leaving(from: nat, to: nat): (events: seq<Event>)
    requires from <= to
    ensures |events| == to - from && forall k | 0 <= k < to - from :: events[k] == Exit(0, to - 1 - k)
  {
    seq(to - from, k requires 0 <= k < to - from => Exit(0, to - 1 - k))
  }

  /** The events when the first hook that refuses is `stop - 1`, or there is none up to the end. */
  lemma {:induction false} TraceOfHooks(hooks: seq<Hook>, from: nat, stop: nat, refused: bool)
    requires from <= stop <= |hooks|
    requires if refused then from < stop && hooks[stop - 1] == Refuses else stop == |hooks|
    requires forall k | from <= k < (if refused then stop - 1 else stop) :: hooks[k] != Refuses
    ensures Trace(HookPath(0, hooks, from))
         == Entering(from, stop) + (if refused then [] else [Ran]) + Leaving(from, stop)
    decreases stop - from
  {
    hide HookPath, Trace;
    if from == |hooks| {
      HookPathEnds(0, hooks);
      NoEvents();
    }
    if from < stop {
      var rest := HookPath(0, hooks, from + 1);
      HookPathStep(0, hooks, from);
      TraceFirst(HookPath(0, hooks, from));
      assert HookPath(0, hooks, from)[1..] == rest;
      assert Entering(from, stop) == [Enter(0, from)] + Entering(from + 1, stop);
      assert Leaving(from, stop) == Leaving(from + 1, stop) + [Exit(0, from)];
      if hooks[from] != Refuses {
        TraceOfHooks(hooks, from + 1, stop, refused);
      }
    }
  }

  function PathOf(mut: Mutator): seq<Stage> {
    match mut
    case Operation => []
    case Hooked(o, i, hook, next) => [HookStage(o, i, hook)] + PathOf(next)
  }

  /** `mut.Mutate`. */
  method Mutate(mut: Mutator, operationOk: bool) returns (ok: bool, trace: seq<Event>)
    ensures trace == Trace(PathOf(mut))
    ensures ok <==> Succeeds(PathOf(mut), operationOk)
  {
    match mut
    case Operation =>
      return operationOk, [Ran];
    case Hooked(o, i, hook, next) =>
      assert PathOf(mut)[1..] == PathOf(next);
      ReachesRest(PathOf(mut));
      if hook.Refuses? {
        return false, [Enter(o, i)] + [] + [Exit(o, i)];
      }
      var innerOk, inner := Mutate(next, operationOk);
      ok, trace := innerOk && !hook.Objects?, [Enter(o, i)] + inner + [Exit(o, i)];
  }

  /** `withHooks`: a nil hook is found before anything is called. */
  method WithHooks(hooks: seq<Option<Hook>>, operationOk: bool) returns (ok: bool, trace: seq<Event>)
    ensures None in hooks ==> !ok && trace == []
    // Otherwise a success is that of the operation with hooks that all pass it on.
    ensures None !in hooks ==>
      (ok <==> operationOk && forall i | 0 <= i < |hooks| :: hooks[i] == Some(Passes))
    // If none refuses, all are entered by index, then the operation runs, then all are left again.
    ensures None !in hooks && Some(Refuses) !in hooks ==>
      trace == Entering(0, |hooks|) + [Ran] + Leaving(0, |hooks|)
    // The first that refuses is the last to be entered, and the operation does not run.
    ensures forall k | 0 <= k < |hooks| ::
      None !in hooks && hooks[k] == Some(Refuses) && Some(Refuses) !in hooks[..k] ==>
        trace == Entering(0, k + 1) + Leaving(0, k + 1)
  {
    hide Trace, HookPath, Succeeds, Reaches, Unopposed;
    if |hooks| == 0 {
      return operationOk, [Ran];
    }
    ghost var present := Present(hooks);
    var mut := Operation;
    var i := |hooks|;
    HookPathEnds(0, present);
    while i > 0
      invariant 0 <= i <= |hooks|
      invariant None !in hooks[i..]
      invariant None !in hooks ==> PathOf(mut) == HookPath(0, present, i)
    {
      i := i - 1;
      if hooks[i].None? {
        return false, [];
      }
      HookPathStep(0, present, i);
      mut := Hooked(0, i, hooks[i].value, mut);
      assert hooks[i..] == [hooks[i]] + hooks[i + 1..];
    }
    assert hooks[0..] == hooks;
    ok, trace := Mutate(mut, operationOk);
    WhenHooksPass(present, operationOk);
    assert forall k | 0 <= k < |hooks| :: hooks[k] == Some(present[k]);
    if Some(Refuses) !in hooks {
      TraceOfHooks(present, 0, |hooks|, false);
    }
    forall k | 0 <= k < |hooks| && hooks[k] == Some(Refuses) && Some(Refuses) !in hooks[..k]
      ensures trace == Entering(0, k + 1) + Leaving(0, k + 1)
    {
      assert forall j | 0 <= j < k :: hooks[j] == hooks[..k][j];
      TraceOfHooks(present, 0, k + 1, true);
    }
  }

  ghost function Present(hooks: seq<Option<Hook>>): (present: seq<Hook>)
    ensures |present| == |hooks|
    ensures forall i | 0 <= i < |hooks| :: hooks[i].Some? ==> present[i] == hooks[i].value
  {
    seq(|hooks|, i requires 0 <= i < |hooks| => if hooks[i].Some? then hooks[i].value else Passes)
  }
}
