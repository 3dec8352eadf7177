/**
 The login limiter: failures by key in a pruned, bounded table, which must answer as the full history would.
 */
module LoginLimiter {

  /** Times of failures, oldest first. */
  type Times = seq<real>

  /** `attempts` failures within `window` seconds close a key; beyond `maxKeys` keys the table is swept. */
  datatype Limits = Limits(attempts: int, window: real, maxKeys: int)

  predicate Stale(lim: Limits, t: real, now: real) {
    now - t > lim.window
  }

  // ---- The full history ----

  /** Every failure of a key since it was last cleared. */
  type History = map<string, Times>

  function Of(table: map<string, Times>, key: string): Times {
    if key in table then table[key] else []
  }

  /** How many failures lie within the window. */
  function Recent(lim: Limits, ts: Times, now: real): nat {
    if ts == [] then 0
    else Recent(lim, ts[..|ts| - 1], now) + if Stale(lim, ts[|ts| - 1], now) then 0 else 1
  }

  /** A key is closed by enough recent failures; one without any is never closed. */
  predicate Closed(lim: Limits, history: History, key: string, now: real) {
    Recent(lim, Of(history, key), now) > 0 && Recent(lim, Of(history, key), now) >= lim.attempts
  }

  // ---- The pruned table ----

  type Entries = map<string, Times>

  function DropStale(lim: Limits, ts: Times, now: real): Times {
    if ts != [] && Stale(lim, ts[0], now) then DropStale(lim, ts[1..], now) else ts
  }

  /** A check forgets the stale failures at the front of its key, and the key once it has none left. */
  function AfterCheck(lim: Limits, entries: Entries, key: string, now: real): Entries {
    if key !in entries then entries
    else
      var left := DropStale(lim, entries[key], now);
      if left == [] then entries - {key} else entries[key := left]
  }

  predicate Rejects(lim: Limits, entries: Entries, key: string, now: real) {
    key in entries && DropStale(lim, entries[key], now) != [] && |DropStale(lim, entries[key], now)| >= lim.attempts
  }

  predicate Sweepable(lim: Limits, ts: Times, now: real) {
    ts == [] || Stale(lim, ts[|ts| - 1], now)
  }

  function AfterFail(lim: Limits, entries: Entries, key: string, now: real): Entries {
    var added := entries[key := Of(entries, key) + [now]];
    if |added| > lim.maxKeys
    then map k | k in added && !Sweepable(lim, added[k], now) :: added[k]
    else added
  }

  // ---- The table stands for the history ----

  predicate Ordered(ts: Times) {
    forall i, j :: 0 <= i < j < |ts| ==> ts[i] <= ts[j]
  }

  /** What was dropped is a stale part at the front. */
  predicate StandsFor(lim: Limits, kept: Times, all: Times, now: real) {
    && |kept| <= |all| && kept == all[|all| - |kept|..]
    && Ordered(all)
    && (forall i :: 0 <= i < |all| ==> all[i] <= now)
    && (forall i :: 0 <= i < |all| - |kept| ==> Stale(lim, all[i], now))
  }

  ghost predicate Refines(lim: Limits, entries: Entries, history: History, now: real) {
    forall key :: StandsFor(lim, Of(entries, key), Of(history, key), now)
  }

  /** Of ordered failures, the stale ones come first. */
  lemma {:induction false} DropStaleKeepsRecent(lim: Limits, ts: Times, now: real)
    requires Ordered(ts)
    ensures var left := DropStale(lim, ts, now);
      && |left| <= |ts| && left == ts[|ts| - |left|..]
      && (forall i :: 0 <= i < |ts| - |left| ==> Stale(lim, ts[i], now))
      && (forall i :: 0 <= i < |left| ==> !Stale(lim, left[i], now))
  {
    if ts != [] && Stale(lim, ts[0], now) {
      DropStaleKeepsRecent(lim, ts[1..], now);
    }
  }

  lemma {:induction false} RecentIsSuffix(lim: Limits, ts: Times, now: real, k: nat)
    requires k <= |ts|
    requires forall i :: 0 <= i < |ts| - k ==> Stale(lim, ts[i], now)
    requires forall i :: |ts| - k <= i < |ts| ==> !Stale(lim, ts[i], now)
    ensures Recent(lim, ts, now) == k
  {
    if ts != [] {
      RecentIsSuffix(lim, ts[..|ts| - 1], now, if k == 0 then 0 else k - 1);
    }
  }

  /** After dropping, the kept failures of a key are exactly its recent ones. */
  lemma KeptAreRecent(lim: Limits, kept: Times, all: Times, before: real, now: real)
    requires StandsFor(lim, kept, all, before) && before <= now
    ensures StandsFor(lim, DropStale(lim, kept, now), all, now)
    ensures |DropStale(lim, kept, now)| == Recent(lim, all, now)
  {
    hide Recent;
    hide DropStale;
    var left, d := DropStale(lim, kept, now), |all| - |kept|;
    assert Ordered(kept) by {
      forall i, j | 0 <= i < j < |kept|
        ensures kept[i] <= kept[j]
      {
        assert kept[i] == all[d + i] && kept[j] == all[d + j];
      }
    }
    DropStaleKeepsRecent(lim, kept, now);
    forall i | 0 <= i < |all| - |left|
      ensures Stale(lim, all[i], now)
    {
      if i >= d {
        assert all[i] == kept[i - d];
      }
    }
    forall i | |all| - |left| <= i < |all|
      ensures !Stale(lim, all[i], now)
    {
      assert all[i] == kept[i - d] == left[i - (|all| - |left|)];
    }
    RecentIsSuffix(lim, all, now, |left|);
    assert left == all[|all| - |left|..];
  }

  lemma TimePasses(lim: Limits, kept: Times, all: Times, before: real, now: real)
    requires StandsFor(lim, kept, all, before) && before <= now
    ensures StandsFor(lim, kept, all, now)
  {
  }

  /** The check answers like the history, and goes on standing for it. */
  lemma CheckRefines(lim: Limits, entries: Entries, history: History, before: real, key: string, now: real)
    requires Refines(lim, entries, history, before) && before <= now
    ensures Rejects(lim, entries, key, now) <==> Closed(lim, history, key, now)
    ensures Refines(lim, AfterCheck(lim, entries, key, now), history, now)
  {
    hide StandsFor;
    hide Recent;
    KeptAreRecent(lim, Of(entries, key), Of(history, key), before, now);
    forall k
      ensures StandsFor(lim, Of(AfterCheck(lim, entries, key, now), k), Of(history, k), now)
    {
      assert StandsFor(lim, Of(entries, k), Of(history, k), before);
      if k != key {
        TimePasses(lim, Of(entries, k), Of(history, k), before, now);
      }
    }
  }

  function AddFailure(history: History, key: string, now: real): History {
    history[key := Of(history, key) + [now]]
  }

  /** A failure is recorded, and sweeping forgets only keys whose failures are all stale. */
  lemma FailRefines(lim: Limits, entries: Entries, history: History, before: real, key: string, now: real)
    requires Refines(lim, entries, history, before) && before <= now
    ensures Refines(lim, AfterFail(lim, entries, key, now), AddFailure(history, key, now), now)
  {
    hide StandsFor;
    hide AfterFail;
    forall k
      ensures StandsFor(lim, Of(AfterFail(lim, entries, key, now), k), Of(AddFailure(history, key, now), k), now)
    {
      assert StandsFor(lim, Of(entries, k), Of(history, k), before);
      if k == key {
        AppendStands(lim, Of(entries, k), Of(history, k), before, now);
      } else {
        TimePasses(lim, Of(entries, k), Of(history, k), before, now);
      }
      FailKeepsOrSweeps(lim, entries, key, now, k);
      SweepForgetsStale(
        lim, Of(entries, k) + (if k == key then [now] else []), Of(AddFailure(history, key, now), k), now);
    }
  }

  lemma FailKeepsOrSweeps(lim: Limits, entries: Entries, key: string, now: real, k: string)
    ensures var kept := Of(entries, k) + (if k == key then [now] else []);
      || Of(AfterFail(lim, entries, key, now), k) == kept
      || (Sweepable(lim, kept, now) && Of(AfterFail(lim, entries, key, now), k) == [])
    ensures k != key ==> Of(entries, k) + [] == Of(entries, k)
  {
  }

  lemma AppendStands(lim: Limits, kept: Times, all: Times, before: real, now: real)
    requires StandsFor(lim, kept, all, before) && before <= now
    ensures StandsFor(lim, kept + [now], all + [now], now)
  {
  }

  lemma SweepForgetsStale(lim: Limits, kept: Times, all: Times, now: real)
    requires StandsFor(lim, kept, all, now)
    ensures Sweepable(lim, kept, now) ==> StandsFor(lim, [], all, now)
  {
  }

  lemma ClearRefines(lim: Limits, entries: Entries, history: History, now: real, key: string)
    requires Refines(lim, entries, history, now)
    ensures Refines(lim, entries - {key}, history - {key}, now)
  {
    forall k
      ensures StandsFor(lim, Of(entries - {key}, k), Of(history - {key}, k), now)
    {
      assert StandsFor(lim, Of(entries, k), Of(history, k), now);
    }
  }

  // ---- Whole runs ----

  datatype Call = Check(key: string, now: real) | Fail(key: string, now: real) | Clear(key: string)

  /** The clock never runs backwards. */
  predicate Monotone(calls: seq<Call>, from: real) {
    calls != [] ==>
      (if calls[0].Clear? then Monotone(calls[1..], from)
       else from <= calls[0].now && Monotone(calls[1..], calls[0].now))
  }

  /** The answers of a run: one for each check, true for a rejection. */
  function Answers(lim: Limits, entries: Entries, calls: seq<Call>): seq<bool>
    decreases |calls|
  {
    if calls == [] then []
    else match calls[0]
      case Check(key, now) =>
        [Rejects(lim, entries, key, now)] + Answers(lim, AfterCheck(lim, entries, key, now), calls[1..])
      case Fail(key, now) => Answers(lim, AfterFail(lim, entries, key, now), calls[1..])
      case Clear(key) => Answers(lim, entries - {key}, calls[1..])
  }

  function HistoryAnswers(lim: Limits, history: History, calls: seq<Call>): seq<bool>
    decreases |calls|
  {
    if calls == [] then []
    else match calls[0]
      case Check(key, now) => [Closed(lim, history, key, now)] + HistoryAnswers(lim, history, calls[1..])
      case Fail(key, now) => HistoryAnswers(lim, AddFailure(history, key, now), calls[1..])
      case Clear(key) => HistoryAnswers(lim, history - {key}, calls[1..])
  }

  lemma {:induction false} AnswersAgree(lim: Limits, entries: Entries, history: History, before: real, calls: seq<Call>)
    requires Refines(lim, entries, history, before) && Monotone(calls, before)
    ensures Answers(lim, entries, calls) == HistoryAnswers(lim, history, calls)
    decreases |calls|
  {
    hide Refines;
    hide Rejects;
    hide Closed;
    if calls != [] {
      match calls[0]
      case Check(key, now) =>
        CheckRefines(lim, entries, history, before, key, now);
        AnswersAgree(lim, AfterCheck(lim, entries, key, now), history, now, calls[1..]);
      case Fail(key, now) =>
        FailRefines(lim, entries, history, before, key, now);
        AnswersAgree(lim, AfterFail(lim, entries, key, now), AddFailure(history, key, now), now, calls[1..]);
      case Clear(key) =>
        ClearRefines(lim, entries, history, before, key);
        AnswersAgree(lim, entries - {key}, history - {key}, before, calls[1..]);
    }
  }

  /** From an empty table, pruning and sweeping never change any answer. */
  lemma LimiterAnswersLikeHistory(lim: Limits, start: real, calls: seq<Call>)
    requires Monotone(calls, start)
    ensures Answers(lim, map[], calls) == HistoryAnswers(lim, map[], calls)
  {
    AnswersAgree(lim, map[], map[], start, calls);
  }

  /** With at least one attempt allowed, a key is closed exactly when that many failures are recent. */
  lemma ClosedByAttempts(lim: Limits, history: History, key: string, now: real)
    requires lim.attempts >= 1
    ensures Closed(lim, history, key, now) <==> Recent(lim, Of(history, key), now) >= lim.attempts
  {
  }

  // ---- The object ----

  /** Pops the stale failures at the front. */
  method PopStale(lim: Limits, ts: Times, now: real) returns (left: Times)
    ensures left == DropStale(lim, ts, now)
  {
    left := ts;
    while left != [] && now - left[0] > lim.window
      invariant DropStale(lim, left, now) == DropStale(lim, ts, now)
      decreases |left|
    {
      left := left[1..];
    }
  }

  /** One check of a table: whether the key is closed, and what is left of the table. */
  method PruneKey(lim: Limits, entries: Entries, key: string, now: real) returns (rejected: bool, pruned: Entries)
    ensures rejected <==> Rejects(lim, entries, key, now)
    ensures pruned == AfterCheck(lim, entries, key, now)
  {
    if key !in entries {
      return false, entries;
    }
    var left := PopStale(lim, entries[key], now);
    if left == [] {
      return false, entries - {key};
    }
    return |left| >= lim.attempts, entries[key := left];
  }

  class Limiter {
    const lim: Limits
    var entries: Entries
    ghost var history: History
    ghost var clock: real

    ghost predicate Valid()
      reads this
    {
      Refines(lim, entries, history, clock)
    }

    constructor (lim: Limits, now: real)
      ensures Valid() && this.lim == lim && history == map[] && entries == map[] && clock == now
    {
      this.lim := lim;
      entries, history, clock := map[], map[], now;
    }

    /** Tells whether the key is closed; asking about an unknown key leaves no trace. */
    method CheckKey(key: string, now: real) returns (rejected: bool)
      requires Valid() && clock <= now
      modifies this
      ensures Valid() && clock == now && history == old(history)
      ensures entries == AfterCheck(lim, old(entries), key, now)
      ensures rejected <==> Closed(lim, history, key, now)
    {
      hide Refines;
      hide StandsFor;
      hide Closed;
      hide Recent;
      hide Rejects;
      hide AfterCheck;
      hide DropStale;
      CheckRefines(lim, entries, history, clock, key, now);
      rejected, entries := PruneKey(lim, entries, key, now);
      clock := now;
    }

    method RecordFailure(key: string, now: real)
      requires Valid() && clock <= now
      modifies this
      ensures Valid() && clock == now && history == AddFailure(old(history), key, now)
      ensures entries == AfterFail(lim, old(entries), key, now)
    {
      hide Refines;
      hide StandsFor;
      hide Sweepable;
      FailRefines(lim, entries, history, clock, key, now);
      clock, history := now, AddFailure(history, key, now);
      entries := entries[key := Of(entries, key) + [now]];
      if |entries| > lim.maxKeys {
        var added := entries;
        entries := map k | k in added && !Sweepable(lim, added[k], now) :: added[k];
      }
    }

    method ClearKey(key: string)
      requires Valid()
      modifies this
      ensures Valid() && clock == old(clock) && history == old(history) - {key} && entries == old(entries) - {key}
    {
      hide Refines;
      hide StandsFor;
      ClearRefines(lim, entries, history, clock, key);
      entries, history := entries - {key}, history - {key};
    }
  }
}
