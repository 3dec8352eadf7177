/**
 The cache of finished host searches, as the protocol between callers, running searches and their completion
 callbacks. A completed search stays pending until the event loop has run its callback.
 */
module SearchCache {
  import opened Wrappers

  type Key = string
  type Answer = string

  datatype Outcome = Running | Succeeded(answer: Answer) | Failed | Cancelled

  /** One search; `finishedAt` is when its callback ran. */
  datatype Search = Search(key: Key, outcome: Outcome, finishedAt: Option<real>)

  datatype Entry = Entry(at: real, answer: Answer)

  type Done = map<Key, Entry>

  /** All searches ever started, the finished answers, the searches in flight, and the latest clock reading. */
  datatype State = State(searches: seq<Search>, done: Done, pending: map<Key, nat>, clock: real)

  datatype Limits = Limits(ttl: real, maxEntries: nat)

  predicate InFlight(s: Search) {
    s.finishedAt.None?
  }

  // ---- Steps ----

  datatype Reply = Hit(answer: Answer) | Wait(search: nat)

  predicate Fresh(lim: Limits, e: Entry, now: real) {
    now - e.at < lim.ttl
  }

  function ReplyTo(lim: Limits, s: State, key: Key, now: real): Reply {
    if key in s.done && Fresh(lim, s.done[key], now) then Hit(s.done[key].answer)
    else if key in s.pending then Wait(s.pending[key])
    else Wait(|s.searches|)
  }

  /** A call starts a search only when there is neither a fresh answer nor a search in flight. */
  function AfterCall(lim: Limits, s: State, key: Key, now: real): State {
    if (key in s.done && Fresh(lim, s.done[key], now)) || key in s.pending then s.(clock := now)
    else s.(searches := s.searches + [Search(key, Running, None)],
      pending := s.pending[key := |s.searches|], clock := now)
  }

  /** What eviction may leave: the allowed number of entries, none older than an evicted one. */
  ghost predicate Evicted(lim: Limits, done: Done, done': Done) {
    && done'.Keys <= done.Keys && (forall k :: k in done' ==> done'[k] == done[k])
    && |done'| <= lim.maxEntries && (|done| <= lim.maxEntries ==> done' == done)
    && (forall k, k' :: k in done && k !in done' && k' in done' ==> done[k].at <= done[k'].at)
    && (forall k :: k in done && k !in done' ==> |done'| == lim.maxEntries)
  }

  /** The callback takes the search out of flight and stores its answer if it has one. */
  ghost predicate AfterCallback(lim: Limits, s: State, i: nat, now: real, s': State)
    requires i < |s.searches|
  {
    var run := s.searches[i];
    && s'.searches == s.searches[i := run.(finishedAt := Some(now))]
    && s'.pending == s.pending - {run.key}
    && s'.clock == now
    && (if run.outcome.Succeeded? then Evicted(lim, s.done[run.key := Entry(now, run.outcome.answer)], s'.done)
        else s'.done == s.done)
  }

  datatype Step =
    | Call(key: Key, now: real)
    | Complete(search: nat, outcome: Outcome)
    | Callback(finished: nat, at: real)

  ghost predicate Next(lim: Limits, s: State, step: Step, s': State) {
    match step
    case Call(key, now) => s.clock <= now && s' == AfterCall(lim, s, key, now)
    case Complete(i, outcome) =>
      && i < |s.searches| && s.searches[i].outcome.Running? && !outcome.Running?
      && s' == s.(searches := s.searches[i := s.searches[i].(outcome := outcome)])
    case Callback(i, now) =>
      && i < |s.searches| && !s.searches[i].outcome.Running? && InFlight(s.searches[i])
      && s.clock <= now && AfterCallback(lim, s, i, now, s')
  }

  // ---- Invariant ----

  /** The entry is the answer of a search for this key, stored when its callback ran. */
  predicate ComesFrom(s: State, key: Key, e: Entry, i: nat) {
    i < |s.searches| && s.searches[i] == Search(key, Succeeded(e.answer), Some(e.at))
  }

  /** Exactly the searches in flight are pending, each under its key. */
  predicate PendingIsInFlight(s: State) {
    && (forall key :: key in s.pending ==>
          s.pending[key] < |s.searches|
          && s.searches[s.pending[key]].key == key && InFlight(s.searches[s.pending[key]]))
    && (forall i :: 0 <= i < |s.searches| && InFlight(s.searches[i]) ==>
          s.searches[i].key in s.pending && s.pending[s.searches[i].key] == i)
  }

  predicate Over(s: State, search: Search) {
    search.finishedAt.Some? ==> !search.outcome.Running? && search.finishedAt.value <= s.clock
  }

  /** The stored answer of a key is its newest successful one. */
  predicate NewestOf(s: State, key: Key, e: Entry) {
    forall i :: 0 <= i < |s.searches| && s.searches[i].key == key && s.searches[i].outcome.Succeeded? ==>
      s.searches[i].finishedAt.None? || s.searches[i].finishedAt.value <= e.at
  }

  predicate AllOver(s: State) {
    forall i :: 0 <= i < |s.searches| ==> Over(s, s.searches[i])
  }

  ghost predicate EntrySound(s: State, key: Key, e: Entry) {
    e.at <= s.clock && NewestOf(s, key, e) && exists i: nat :: ComesFrom(s, key, e, i)
  }

  ghost predicate DoneSound(s: State) {
    forall key :: key in s.done ==> EntrySound(s, key, s.done[key])
  }

  ghost predicate Invariant(lim: Limits, s: State) {
    PendingIsInFlight(s) && AllOver(s) && DoneSound(s) && |s.done| <= lim.maxEntries
  }

  lemma CallKeepsInvariant(lim: Limits, s: State, key: Key, now: real)
    requires Invariant(lim, s) && s.clock <= now
    ensures Invariant(lim, AfterCall(lim, s, key, now))
  {
    var s' := AfterCall(lim, s, key, now);
    CallKeepsPending(lim, s, key, now);
    hide PendingIsInFlight;
    hide EntrySound;
    forall i | 0 <= i < |s'.searches|
      ensures Over(s', s'.searches[i])
    {
      if i < |s.searches| {
        assert Over(s, s.searches[i]);
      }
    }
    forall k | k in s.done
      ensures EntrySound(s', k, s.done[k])
    {
      CallKeepsEntry(lim, s, key, now, k, s.done[k]);
    }
  }

  lemma CallKeepsEntry(lim: Limits, s: State, key: Key, now: real, k: Key, e: Entry)
    requires EntrySound(s, k, e) && s.clock <= now
    ensures EntrySound(AfterCall(lim, s, key, now), k, e)
  {
    var i: nat :| ComesFrom(s, k, e, i);
    assert ComesFrom(AfterCall(lim, s, key, now), k, e, i);
  }

  lemma CallKeepsPending(lim: Limits, s: State, key: Key, now: real)
    requires PendingIsInFlight(s)
    ensures PendingIsInFlight(AfterCall(lim, s, key, now))
  {
  }

  lemma CompleteKeepsInvariant(lim: Limits, s: State, i: nat, outcome: Outcome, s': State)
    requires Invariant(lim, s) && Next(lim, s, Complete(i, outcome), s')
    ensures Invariant(lim, s')
  {
    assert Over(s, s.searches[i]);
    hide EntrySound;
    forall j | 0 <= j < |s'.searches|
      ensures Over(s', s'.searches[j])
    {
      assert Over(s, s.searches[j]);
    }
    forall k | k in s'.done
      ensures EntrySound(s', k, s'.done[k])
    {
      CompleteKeepsEntry(s, i, outcome, k, s.done[k]);
    }
  }

  lemma CompleteKeepsEntry(s: State, i: nat, outcome: Outcome, k: Key, e: Entry)
    requires EntrySound(s, k, e) && i < |s.searches| && s.searches[i].outcome.Running? && InFlight(s.searches[i])
    ensures EntrySound(s.(searches := s.searches[i := s.searches[i].(outcome := outcome)]), k, e)
  {
    var s' := s.(searches := s.searches[i := s.searches[i].(outcome := outcome)]);
    var j: nat :| ComesFrom(s, k, e, j);
    assert ComesFrom(s', k, e, j);
  }

  lemma CallbackKeepsInvariant(lim: Limits, s: State, i: nat, now: real, s': State)
    requires Invariant(lim, s) && Next(lim, s, Callback(i, now), s')
    ensures Invariant(lim, s')
  {
    hide PendingIsInFlight;
    hide Evicted;
    hide EntrySound;
    CallbackKeepsPending(s, i, now, s');
    forall j | 0 <= j < |s'.searches|
      ensures Over(s', s'.searches[j])
    {
      assert Over(s, s.searches[j]);
    }
    CallbackKeepsDone(lim, s, i, now, s');
  }

  lemma CallbackKeepsDone(lim: Limits, s: State, i: nat, now: real, s': State)
    requires Invariant(lim, s) && Next(lim, s, Callback(i, now), s') && AllOver(s')
    ensures DoneSound(s') && |s'.done| <= lim.maxEntries
  {
    hide PendingIsInFlight;
    hide Over;
    var run := s.searches[i];
    forall k | k in s'.done
      ensures EntrySound(s', k, s'.done[k])
    {
      if run.outcome.Succeeded? && k == run.key {
        NewEntryIsSound(s, i, now, s');
      } else {
        OldEntryStaysSound(s, i, now, s', k);
      }
    }
  }

  lemma NewEntryIsSound(s: State, i: nat, now: real, s': State)
    requires i < |s.searches| && s.searches[i].outcome.Succeeded? && AllOver(s') && s'.clock == now
    requires s'.searches == s.searches[i := s.searches[i].(finishedAt := Some(now))]
    ensures EntrySound(s', s.searches[i].key, Entry(now, s.searches[i].outcome.answer))
  {
    var run := s.searches[i];
    assert ComesFrom(s', run.key, Entry(now, run.outcome.answer), i);
    assert forall j :: 0 <= j < |s'.searches| ==> Over(s', s'.searches[j]);
  }

  /** An entry of another key, or of a search that did not succeed, keeps its searches. */
  lemma OldEntryStaysSound(s: State, i: nat, now: real, s': State, k: Key)
    requires i < |s.searches| && InFlight(s.searches[i]) && k in s.done && EntrySound(s, k, s.done[k])
    requires !(s.searches[i].outcome.Succeeded? && k == s.searches[i].key)
    requires s'.searches == s.searches[i := s.searches[i].(finishedAt := Some(now))]
      && s'.clock == now && s.clock <= now
    ensures EntrySound(s', k, s.done[k])
  {
    var j: nat :| ComesFrom(s, k, s.done[k], j);
    assert j != i;
    assert ComesFrom(s', k, s.done[k], j);
  }

  lemma CallbackKeepsPending(s: State, i: nat, now: real, s': State)
    requires PendingIsInFlight(s) && i < |s.searches| && InFlight(s.searches[i])
    requires s'.searches == s.searches[i := s.searches[i].(finishedAt := Some(now))]
    requires s'.pending == s.pending - {s.searches[i].key}
    ensures PendingIsInFlight(s')
  {
  }

  lemma StepKeepsInvariant(lim: Limits, s: State, step: Step, s': State)
    requires Invariant(lim, s) && Next(lim, s, step, s')
    ensures Invariant(lim, s')
  {
    match step
    case Call(key, now) => CallKeepsInvariant(lim, s, key, now);
    case Complete(i, outcome) => CompleteKeepsInvariant(lim, s, i, outcome, s');
    case Callback(i, now) => CallbackKeepsInvariant(lim, s, i, now, s');
  }

  // ---- What the protocol promises ----

  /** At most one search of a key is in flight. */
  lemma OneRunPerKey(lim: Limits, s: State, i: nat, j: nat)
    requires Invariant(lim, s) && i < |s.searches| && j < |s.searches|
    requires InFlight(s.searches[i]) && InFlight(s.searches[j]) && s.searches[i].key == s.searches[j].key
    ensures i == j
  {
  }

  /**
   A hit is the answer of the newest successful search of the key, stored less than the time to live ago; any
   other caller waits for a search of its key that is in flight.
   */
  lemma ReplyIsOfTheKey(lim: Limits, s: State, key: Key, now: real)
    requires Invariant(lim, s) && s.clock <= now
    ensures var s', reply := AfterCall(lim, s, key, now), ReplyTo(lim, s, key, now);
      match reply
      case Hit(answer) =>
        exists i: nat :: i < |s'.searches| && s'.searches[i].key == key && s'.searches[i].outcome == Succeeded(answer)
          && s'.searches[i].finishedAt.Some? && now - s'.searches[i].finishedAt.value < lim.ttl
          && NewestOf(s', key, Entry(s'.searches[i].finishedAt.value, answer))
      case Wait(i) => i < |s'.searches| && s'.searches[i].key == key && InFlight(s'.searches[i])
  {
    if key in s.done && Fresh(lim, s.done[key], now) {
      var i: nat :| ComesFrom(s, key, s.done[key], i);
      assert s.searches[i].key == key;
    }
  }

  /** No step ever takes a key or a result back: what a waiter will be given is settled by its own search. */
  predicate Settled(s: State, s': State) {
    |s.searches| <= |s'.searches| &&
    forall i :: 0 <= i < |s.searches| ==>
      && s'.searches[i].key == s.searches[i].key
      && (!s.searches[i].outcome.Running? ==> s'.searches[i].outcome == s.searches[i].outcome)
      && (s.searches[i].finishedAt.Some? ==> s'.searches[i] == s.searches[i])
  }

  lemma StepSettles(lim: Limits, s: State, step: Step, s': State)
    requires Invariant(lim, s) && Next(lim, s, step, s')
    ensures Settled(s, s')
  {
    hide PendingIsInFlight;
    hide NewestOf;
    hide ComesFrom;
    hide Evicted;
    match step
    case Call(_, _) =>
    case Complete(i, _) => assert Over(s, s.searches[i]);
    case Callback(_, _) =>
  }

  // ---- Runs ----

  const EMPTY: State := State([], map[], map[], 0.0)

  ghost predicate IsRun(lim: Limits, states: seq<State>, steps: seq<Step>) {
    && |states| == |steps| + 1 && states[0] == EMPTY
    && forall i :: 0 <= i < |steps| ==> Next(lim, states[i], steps[i], states[i + 1])
  }

  lemma EmptyIsInvariant(lim: Limits)
    ensures Invariant(lim, EMPTY)
  {
  }

  /** Over all interleavings of calls, completions and callbacks. */
  lemma {:induction false} RunsKeepInvariant(lim: Limits, states: seq<State>, steps: seq<Step>, i: nat)
    requires IsRun(lim, states, steps) && i < |states|
    ensures Invariant(lim, states[i])
  {
    hide Next;
    hide Invariant;
    EmptyIsInvariant(lim);
    if i > 0 {
      RunsKeepInvariant(lim, states, steps, i - 1);
      StepKeepsInvariant(lim, states[i - 1], steps[i - 1], states[i]);
    }
  }

  /** A failed or cancelled search is in no stored answer, at any time of any run. */
  lemma FailuresAreNotStored(lim: Limits, states: seq<State>, steps: seq<Step>, i: nat, key: Key)
    requires IsRun(lim, states, steps) && i < |states| && key in states[i].done
    ensures exists j: nat :: j < |states[i].searches| && states[i].searches[j].key == key
              && states[i].searches[j].outcome == Succeeded(states[i].done[key].answer)
  {
    RunsKeepInvariant(lim, states, steps, i);
    var j: nat :| ComesFrom(states[i], key, states[i].done[key], j);
    assert states[i].searches[j].key == key;
  }

  lemma SettledReflexive(s: State)
    ensures Settled(s, s)
  {
  }

  lemma SettledTransitive(a: State, b: State, c: State)
    requires Settled(a, b) && Settled(b, c)
    ensures Settled(a, c)
  {
  }

  /** Over a run no search is lost, renamed, or finished a second time. */
  lemma {:induction false} RunsSettle(lim: Limits, states: seq<State>, steps: seq<Step>, i: nat, j: nat)
    requires IsRun(lim, states, steps) && i <= j < |states|
    ensures Settled(states[i], states[j])
    decreases j
  {
    hide Next;
    hide Invariant;
    hide Settled;
    if i == j {
      SettledReflexive(states[i]);
    } else {
      assert Next(lim, states[j - 1], steps[j - 1], states[j - 1 + 1]);
      RunsSettle(lim, states, steps, i, j - 1);
      RunsKeepInvariant(lim, states, steps, j - 1);
      StepSettles(lim, states[j - 1], steps[j - 1], states[j]);
      SettledTransitive(states[i], states[j - 1], states[j]);
    }
  }

  /** A caller told to wait for a search waits for one of its key, and is given the one outcome that search ever has. */
  lemma WaiterIsGivenItsSearch(lim: Limits, states: seq<State>, steps: seq<Step>, i: nat, n: nat, j: nat, k: nat)
    requires IsRun(lim, states, steps) && i < j <= k < |states| && steps[i].Call?
    requires ReplyTo(lim, states[i], steps[i].key, steps[i].now) == Wait(n)
    ensures n < |states[j].searches| && states[j].searches[n].key == steps[i].key
    ensures n < |states[k].searches|
      && (!states[j].searches[n].outcome.Running? ==>
            states[k].searches[n].outcome == states[j].searches[n].outcome)
  {
    hide Invariant;
    assert Next(lim, states[i], steps[i], states[i + 1]);
    RunsKeepInvariant(lim, states, steps, i);
    ReplyIsOfTheKey(lim, states[i], steps[i].key, steps[i].now);
    RunsSettle(lim, states, steps, i + 1, j);
    RunsSettle(lim, states, steps, j, k);
  }

  // ---- The object ----

  class Cache {
    const lim: Limits
    var done: Done
    var pending: map<Key, nat>
    ghost var searches: seq<Search>
    ghost var clock: real

    ghost function Contents(): State
      reads this
    {
      State(searches, done, pending, clock)
    }

    ghost predicate Valid()
      reads this
    {
      Invariant(lim, Contents())
    }

    constructor (lim: Limits)
      ensures Valid() && Contents() == EMPTY && this.lim == lim
    {
      this.lim := lim;
      done, pending, searches, clock := map[], map[], [], 0.0;
    }

    /** Answers from the cache, joins the search in flight, or starts one under the next id. */
    method GetOrStart(key: Key, now: real, nextId: nat) returns (reply: Reply)
      requires Valid() && clock <= now && nextId == |searches|
      modifies this
      ensures Valid() && Contents() == AfterCall(lim, old(Contents()), key, now)
      ensures reply == ReplyTo(lim, old(Contents()), key, now)
    {
      hide Invariant;
      CallKeepsInvariant(lim, Contents(), key, now);
      clock := now;
      if key in done && now - done[key].at < lim.ttl {
        return Hit(done[key].answer);
      }
      if key !in pending {
        searches := searches + [Search(key, Running, None)];
        pending := pending[key := nextId];
      }
      reply := Wait(pending[key]);
    }

    /** The completion callback of a search. */
    method Finish(key: Key, id: nat, outcome: Outcome, now: real)
      requires Valid() && clock <= now
      requires id < |searches| && searches[id] == Search(key, outcome, None) && !outcome.Running?
      modifies this
      ensures Valid() && AfterCallback(lim, old(Contents()), id, now, Contents())
    {
      hide Invariant;
      hide Evicted;
      ghost var before := Contents();
      pending := pending - {key};
      searches := searches[id := searches[id].(finishedAt := Some(now))];
      clock := now;
      if outcome.Succeeded? {
        var kept := EvictOldest(lim, done[key := Entry(now, outcome.answer)]);
        done := kept;
      }
      CallbackKeepsInvariant(lim, before, id, now, Contents());
    }
  }

  /** Deletes the oldest entry as long as there are too many. */
  method EvictOldest(lim: Limits, stored: Done) returns (done: Done)
    ensures Evicted(lim, stored, done)
  {
    done := stored;
    while |done| > lim.maxEntries
      invariant done.Keys <= stored.Keys && (forall k :: k in done ==> done[k] == stored[k])
      invariant forall k, k' :: k in stored && k !in done && k' in done ==> stored[k].at <= stored[k'].at
      invariant done == stored || (|stored| > lim.maxEntries && |done| >= lim.maxEntries)
      decreases |done|
    {
      var _ := OldestExists(done);
      var oldest :| oldest in done && forall k :: k in done ==> done[oldest].at <= done[k].at;
      done := done - {oldest};
    }
  }

  lemma {:induction false} OldestExists(done: Done) returns (oldest: Key)
    requires |done| > 0
    ensures oldest in done && forall k :: k in done ==> done[oldest].at <= done[k].at
    decreases |done|
  {
    var k :| k in done;
    var rest := done - {k};
    if |rest| == 0 {
      oldest := k;
      assert forall other :: other in done && other != k ==> other in rest;
    } else {
      var other := OldestExists(rest);
      oldest := if done[k].at <= done[other].at then k else other;
      forall x | x in done
        ensures done[oldest].at <= done[x].at
      {
        if x != k {
          assert x in rest;
        }
      }
    }
  }
}
