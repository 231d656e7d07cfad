/** The shared counter that spreads requests over the backends, under any interleaving of the
    server's threads. */
module RoundRobin {

  /** Where a thread is inside `_next_backend`; `c` is the local `counter`. */
  datatype Pc =
    | Idle
    | Locked             // holds the lock, has not read yet
    | Read(c: nat)       // has read its counter
    | Bumped(c: nat)     // has stored the incremented counter
    | Unlocked(c: nat)   // has left the lock, has not picked yet

  /** `picked` lists the counters that finished calls used, in the order they returned. */
  datatype State = State(counter: nat, lock: int, pcs: seq<Pc>, picked: seq<nat>)

  const FREE := -1

  ghost predicate Init(s: State) {
    s.counter == 0 && s.lock == FREE && s.picked == [] && forall t | 0 <= t < |s.pcs| :: s.pcs[t] == Idle
  }

  /** One atomic step of thread `t`. */
  ghost predicate Step(s: State, t: nat, s': State)
  {
    t < |s.pcs| &&
    match s.pcs[t]
    case Idle => s.lock == FREE && s' == s.(lock := t, pcs := s.pcs[t := Locked])
    case Locked => s' == s.(pcs := s.pcs[t := Read(s.counter)])
    case Read(c) => s' == s.(counter := s.counter + 1, pcs := s.pcs[t := Bumped(c)])
    case Bumped(c) => s' == s.(lock := FREE, pcs := s.pcs[t := Unlocked(c)])
    case Unlocked(c) => s' == s.(picked := s.picked + [c], pcs := s.pcs[t := Idle])
  }

  predicate Holds(pc: Pc) { pc.Locked? || pc.Read? || pc.Bumped? }

  /** The thread has taken a counter value out of circulation and not yet used it. */
  predicate Carries(pc: Pc) { pc.Bumped? || pc.Unlocked? }

  ghost predicate CarriedBy(s: State, c: nat, t: nat) {
    t < |s.pcs| && Carries(s.pcs[t]) && s.pcs[t].c == c
  }

  /** Mutual exclusion: the lock's owner, if any, is the one thread inside, and what it has read
      is still the counter. */
  ghost predicate Exclusive(s: State) {
    && (forall t | 0 <= t < |s.pcs| :: Holds(s.pcs[t]) <==> s.lock == t)
    && (forall t | 0 <= t < |s.pcs| :: s.pcs[t].Read? ==> s.pcs[t].c == s.counter)
  }

  ghost predicate UsedOnce(s: State) {
    && (forall i | 0 <= i < |s.picked| :: s.picked[i] < s.counter)
    && (forall i, j | 0 <= i < j < |s.picked| :: s.picked[i] != s.picked[j])
  }

  ghost predicate CarriedOnce(s: State) {
    && (forall t | 0 <= t < |s.pcs| && Carries(s.pcs[t]) ::
          s.pcs[t].c < s.counter && s.pcs[t].c !in s.picked)
    && (forall t, u | 0 <= t < u < |s.pcs| && Carries(s.pcs[t]) && Carries(s.pcs[u]) ::
          s.pcs[t].c != s.pcs[u].c)
  }

  ghost predicate Accounted(s: State) {
    forall c: nat | c < s.counter :: c in s.picked || exists t: nat :: CarriedBy(s, c, t)
  }

  /** Each value below the counter is with exactly one call, finished or still under way, and no
      value at or above it is with any. */
  ghost predicate Inv(s: State) {
    Exclusive(s) && UsedOnce(s) && CarriedOnce(s) && Accounted(s)
  }

  lemma StepKeepsExclusive(s: State, t: nat, s': State)
    requires Exclusive(s) && Step(s, t, s')
    ensures Exclusive(s')
  {
  }

  lemma StepKeepsPicked(s: State, t: nat, s': State)
    requires Inv(s) && Step(s, t, s')
    ensures UsedOnce(s')
  {
  }

  lemma StepKeepsCarried(s: State, t: nat, s': State)
    requires Inv(s) && Step(s, t, s')
    ensures CarriedOnce(s')
  {
    assert forall u | 0 <= u < |s.pcs| && u != t :: s'.pcs[u] == s.pcs[u];
    if s.pcs[t].Unlocked? {
      assert forall u | 0 <= u < |s.pcs| && u != t && Carries(s.pcs[u]) :: s.pcs[u].c != s.pcs[t].c;
    }
  }

  lemma StepKeepsAccounted(s: State, t: nat, s': State)
    requires Inv(s) && Step(s, t, s')
    ensures Accounted(s')
  {
    forall c: nat | c < s'.counter
      ensures c in s'.picked || exists u: nat :: CarriedBy(s', c, u)
    {
      if c < s.counter && c !in s.picked {
        var u: nat :| CarriedBy(s, c, u);
        assert u != t ==> CarriedBy(s', c, u);
      }
      if !(c in s'.picked) {
        assert CarriedBy(s', c, t) || c < s.counter;
      }
    }
  }

  lemma StepKeepsInv(s: State, t: nat, s': State)
    requires Inv(s) && Step(s, t, s')
    ensures Inv(s')
  {
    StepKeepsExclusive(s, t, s');
    StepKeepsPicked(s, t, s');
    StepKeepsCarried(s, t, s');
    StepKeepsAccounted(s, t, s');
  }

  ghost predicate Run(states: seq<State>, threads: seq<nat>) {
    && |states| == |threads| + 1 && Init(states[0])
    && forall i | 0 <= i < |threads| :: Step(states[i], threads[i], states[i + 1])
  }

  lemma {:induction false} RunKeepsInv(states: seq<State>, threads: seq<nat>, i: nat)
    requires Run(states, threads) && i < |states|
    ensures Inv(states[i])
  {
    if i > 0 {
      RunKeepsInv(states, threads, i - 1);
      StepKeepsInv(states[i - 1], threads[i - 1], states[i]);
    }
  }

  // ----- fairness

  /** `pick_backend`, as an index. */
  function PickBackend(backends: nat, counter: nat): (i: nat)
    requires backends > 0
    ensures i < backends
  {
    counter % backends
  }

  /** One backend after the other, and from the last to the first. */
  lemma TakesTurns(backends: nat, counter: nat)
    requires backends > 0
    ensures PickBackend(backends, 0) == 0
    ensures PickBackend(backends, counter + 1)
         == if PickBackend(backends, counter) == backends - 1 then 0
            else PickBackend(backends, counter) + 1
  {
    var q, m := counter / backends, counter % backends;
    assert counter == q * backends + m;
    if m + 1 < backends {
      RemainderIs(q, m + 1, backends);
    } else {
      assert counter + 1 == (q + 1) * backends + 0;
      RemainderIs(q + 1, 0, backends);
    }
  }

  lemma RemainderIs(q: nat, r: nat, k: nat)
    requires r < k
    ensures (q * k + r) % k == r
  {
    QuotientIs(q, r, k);
    var x := q * k + r;
    assert x == x / k * k + x % k;
  }

  /** A thread that finds the lock free can make one call in five steps, which takes the counter and
      leaves it one higher. */
  lemma OneCall(s: State, t: nat)
    requires t < |s.pcs| && s.pcs[t] == Idle && s.lock == FREE
    ensures exists s1, s2, s3, s4 ::
      && Step(s, t, s1) && Step(s1, t, s2) && Step(s2, t, s3) && Step(s3, t, s4)
      && Step(s4, t, s.(counter := s.counter + 1, picked := s.picked + [s.counter]))
  {
    var s1 := s.(lock := t, pcs := s.pcs[t := Locked]);
    var s2 := s1.(pcs := s1.pcs[t := Read(s.counter)]);
    var s3 := s2.(counter := s.counter + 1, pcs := s2.pcs[t := Bumped(s.counter)]);
    var s4 := s3.(lock := FREE, pcs := s3.pcs[t := Unlocked(s.counter)]);
    var s5 := s.(counter := s.counter + 1, picked := s.picked + [s.counter]);
    assert s4.pcs[t := Idle] == s.pcs;
    assert Step(s, t, s1) && Step(s1, t, s2) && Step(s2, t, s3) && Step(s3, t, s4) && Step(s4, t, s5);
  }

  /** How many of the calls got backend `i`. */
  function Tally(picked: seq<nat>, backends: nat, i: nat): nat
    requires backends > 0
  {
    if picked == [] then 0
    else (if PickBackend(backends, picked[0]) == i then 1 else 0) + Tally(picked[1..], backends, i)
  }

  function Tallies(picked: seq<nat>, backends: nat, n: nat): nat
    requires backends > 0
  {
    if n == 0 then 0 else Tallies(picked, backends, n - 1) + Tally(picked, backends, n - 1)
  }

  /** Every call got exactly one backend: the tallies add up to the calls. */
  lemma {:induction false} TalliesAddUp(picked: seq<nat>, backends: nat)
    requires backends > 0
    ensures Tallies(picked, backends, backends) == |picked|
  {
    if picked == [] {
      NoTallies(backends, backends);
    } else {
      TalliesAddUp(picked[1..], backends);
      OneMoreTally(picked, backends, backends);
    }
  }

  lemma {:induction false} NoTallies(backends: nat, n: nat)
    requires backends > 0
    ensures Tallies([], backends, n) == 0
  {
    if n > 0 {
      NoTallies(backends, n - 1);
    }
  }

  lemma {:induction false} OneMoreTally(picked: seq<nat>, backends: nat, n: nat)
    requires backends > 0 && picked != []
    ensures Tallies(picked, backends, n)
         == Tallies(picked[1..], backends, n) + if PickBackend(backends, picked[0]) < n then 1 else 0
  {
    if n > 0 {
      OneMoreTally(picked, backends, n - 1);
    }
  }

  function Share(calls: nat, backends: nat, i: nat): nat
    requires i < backends
  {
    (calls + backends - 1 - i) / backends
  }

  ghost function Below(n: nat): (s: set<nat>)
    ensures forall c: nat :: c in s <==> c < n
    ensures |s| == n
  {
    if n == 0 then {} else Below(n - 1) + {n - 1}
  }

  ghost function Elements(picked: seq<nat>): set<nat> { set c | c in picked }

  ghost function Hits(counters: set<nat>, backends: nat, i: nat): set<nat>
    requires backends > 0
  {
    set c | c in counters && PickBackend(backends, c) == i
  }

  lemma HitsInsert(some: set<nat>, c: nat, backends: nat, i: nat)
    requires backends > 0 && c !in some
    ensures |Hits({c} + some, backends, i)|
         == |Hits(some, backends, i)| + if PickBackend(backends, c) == i then 1 else 0
  {
    assert Hits({c} + some, backends, i)
        == if PickBackend(backends, c) == i then {c} + Hits(some, backends, i)
           else Hits(some, backends, i);
  }

  lemma {:induction false} TallyCountsDistinct(picked: seq<nat>, backends: nat, i: nat)
    requires backends > 0
    requires forall a, b | 0 <= a < b < |picked| :: picked[a] != picked[b]
    ensures Tally(picked, backends, i) == |Hits(Elements(picked), backends, i)|
  {
    if picked != [] {
      var first, rest := picked[0], picked[1..];
      TallyCountsDistinct(rest, backends, i);
      var all, some := Elements(picked), Elements(rest);
      assert first !in some;
      assert all == {first} + some;
      HitsInsert(some, first, backends, i);
    }
  }

  lemma {:induction false} HitsBelow(calls: nat, backends: nat, i: nat)
    requires i < backends
    ensures |Hits(Below(calls), backends, i)| == Share(calls, backends, i)
  {
    if calls == 0 {
      QuotientIs(0, backends - 1 - i, backends);
    } else {
      var last := calls - 1;
      HitsBelow(last, backends, i);
      ShareStep(last, backends, i);
      var all, some := Below(calls), Below(last);
      assert all == {last} + some;
      HitsInsert(some, last, backends, i);
    }
  }

  lemma Scales(a: int, b: int, k: nat)
    requires a <= b
    ensures a * k <= b * k
  {
  }

  lemma QuotientIs(q: nat, r: nat, k: nat)
    requires r < k
    ensures (q * k + r) / k == q
  {
    var y := (q * k + r) / k;
    Bracketed(q * k + r, k);
    if y > q {
      Scales(q + 1, y, k);
    } else if y < q {
      Scales(y + 1, q, k);
    }
  }

  lemma Bracketed(x: nat, k: nat)
    requires k > 0
    ensures x / k * k <= x < x / k * k + k
    ensures (x / k + 1) * k == x / k * k + k
  {
  }

  lemma ShareIs(q: nat, m: nat, k: nat, i: nat)
    requires m < k && i < k
    ensures Share(q * k + m, k, i) == q + if m > i then 1 else 0
  {
    if m > i {
      assert q * k + m + k - 1 - i == (q + 1) * k + (m - 1 - i);
      QuotientIs(q + 1, m - 1 - i, k);
    } else {
      QuotientIs(q, m + k - 1 - i, k);
    }
  }

  lemma ShareStep(calls: nat, k: nat, i: nat)
    requires i < k
    ensures Share(calls + 1, k, i) == Share(calls, k, i) + if PickBackend(k, calls) == i then 1 else 0
  {
    var q, m := calls / k, calls % k;
    assert calls == q * k + m;
    ShareIs(q, m, k, i);
    if m + 1 < k {
      ShareIs(q, m + 1, k, i);
    } else {
      assert calls + 1 == (q + 1) * k + 0;
      ShareIs(q + 1, 0, k, i);
    }
  }

  /** Whatever the interleaving, once every call that took a counter has returned, the calls are
      spread evenly: backend `i` got its exact share of them, and any two backends are within
      one of each other. */
  lemma RoundRobinIsFair(states: seq<State>, threads: seq<nat>, n: nat, backends: nat, i: nat, j: nat)
    requires Run(states, threads) && n < |states| && i < backends && j < backends
    requires forall t | 0 <= t < |states[n].pcs| :: !Carries(states[n].pcs[t])
    ensures |states[n].picked| == states[n].counter
    ensures Tally(states[n].picked, backends, i) == Share(|states[n].picked|, backends, i)
    ensures -1 <= Tally(states[n].picked, backends, i) - Tally(states[n].picked, backends, j) <= 1
  {
    RunKeepsInv(states, threads, n);
    AllPicked(states[n]);
    FairAt(states[n], backends, i);
    FairAt(states[n], backends, j);
    SharesAreClose(states[n].counter, backends, i, j);
  }

  lemma AllPicked(s: State)
    requires Inv(s) && forall t | 0 <= t < |s.pcs| :: !Carries(s.pcs[t])
    ensures Elements(s.picked) == Below(s.counter)
    ensures |s.picked| == s.counter
  {
    forall c: nat | c < s.counter ensures c in s.picked {
      assert forall t: nat :: !CarriedBy(s, c, t);
    }
    DistinctCount(s.picked);
  }

  lemma FairAt(s: State, backends: nat, i: nat)
    requires UsedOnce(s) && Elements(s.picked) == Below(s.counter) && i < backends
    ensures Tally(s.picked, backends, i) == Share(s.counter, backends, i)
  {
    TallyCountsDistinct(s.picked, backends, i);
    HitsBelow(s.counter, backends, i);
  }

  lemma SharesAreClose(calls: nat, backends: nat, i: nat, j: nat)
    requires i < backends && j < backends
    ensures -1 <= Share(calls, backends, i) - Share(calls, backends, j) <= 1
  {
    var q, m := calls / backends, calls % backends;
    assert calls == q * backends + m;
    ShareIs(q, m, backends, i);
    ShareIs(q, m, backends, j);
  }

  lemma {:induction false} DistinctCount(picked: seq<nat>)
    requires forall a, b | 0 <= a < b < |picked| :: picked[a] != picked[b]
    ensures |Elements(picked)| == |picked|
  {
    if picked != [] {
      DistinctCount(picked[1..]);
      assert Elements(picked) == {picked[0]} + Elements(picked[1..]);
    }
  }
}
