/** The registry as the tables its functions update. */
module OperationTable {
  import opened Wrappers
  import opened Operations
  import OperationsSync

  /** The logs after the rows of `done` were logged. */
  ghost function LogsOf(
    ops: map<string, Op>, events: map<string, seq<Event>>, done: set<string>): map<string, seq<Event>>
  {
    map id | id in events :: if id in done && id in ops then Appended(events[id], EventOf(ops[id])) else events[id]
  }

  lemma LogOneMore(ops: map<string, Op>, events: map<string, seq<Event>>, done: set<string>, id: string)
    requires id in ops && id in events && id !in done
    ensures id in LogsOf(ops, events, done)
    ensures Logged(LogsOf(ops, events, done), id, EventOf(ops[id])) == LogsOf(ops, events, done + {id})
  {
  }

  lemma NothingLogged(ops: map<string, Op>, events: map<string, seq<Event>>)
    ensures LogsOf(ops, events, {}) == events
  {
  }

  function Closed(ops: map<string, Op>, stale: set<string>, message: string, now: string): map<string, Op> {
    map id | id in ops :: if id in stale then InterruptedOp(ops[id], message, now) else ops[id]
  }

  /** One UPDATE of the rows, then one event for each. */
  lemma StaleInTwoSteps(reg: Registry, cutoff: string, message: string, now: string)
    requires Sound(reg)
    ensures var stale := set id | id in reg.ops && IsStale(reg.ops[id], cutoff);
      && stale <= reg.events.Keys
      && InterruptStale(reg, cutoff, message, now)
           == Registry(Closed(reg.ops, stale, message, now),
              LogsOf(Closed(reg.ops, stale, message, now), reg.events, stale))
  {
    hide IsStale;
    hide UniqueSources;
    hide SoundOps;
    hide SoundLogs;
    var stale := set id | id in reg.ops && IsStale(reg.ops[id], cutoff);
    var closed := Closed(reg.ops, stale, message, now);
    var reg' := InterruptStale(reg, cutoff, message, now);
    assert reg'.ops == closed;
    forall id | id in reg.events
      ensures reg'.events[id] == LogsOf(closed, reg.events, stale)[id]
    {
    }
  }

  class Table {
    var ops: map<string, Op>
    var events: map<string, seq<Event>>

    function Contents(): Registry
      reads this
    {
      Registry(ops, events)
    }

    ghost predicate Valid()
      reads this
    {
      Sound(Contents())
    }

    constructor ()
      ensures Valid() && Contents() == EMPTY
    {
      ops, events := map[], map[];
    }

    /** Logs the state of a row unless the last event already says it. */
    method AppendEvent(id: string)
      requires id in ops
      modifies this`events
      ensures events == Logged(old(events), id, EventOf(ops[id]))
    {
      var e := EventOf(ops[id]);
      var log := if id in events then events[id] else [];
      if log != [] && log[|log| - 1] == e {
        assert events == events[id := log];
        return;
      }
      events := events[id := log + [e]];
    }

    /** Creates or refreshes the row of one source and logs it, or changes nothing. */
    method RegisterOperation(a: Args) returns (r: Result<Op, Violation>)
      requires Valid()
      modifies this
      ensures Valid() && Extends(old(Contents()), Contents())
      ensures r.Ok? <==> Register(old(Contents()), a).Ok?
      ensures if r.Ok? then Register(old(Contents()), a) == Ok(Contents())
        else Register(old(Contents()), a) == Err(r.error) && Contents() == old(Contents())
      ensures r.Ok? ==> exists id ::
        id in ops && ops[id] == r.value && Of(r.value, a.kind, a.sourceId) && Mirrored(Contents(), id)
    {
      hide SoundOps;
      hide SoundLogs;
      hide UniqueSources;
      hide Extends;
      RegisterKeepsSound(Contents(), a);
      ExtendsReflexive(Contents());
      var found := Find(ops, a.kind, a.sourceId);
      var id, op;
      match found {
        case Some(known) => id, op := known, Refreshed(ops[known], a);
        case None => id, op := a.operationId, Inserted(a);
      }
      if found.None? && id in ops {
        return Err(DuplicateOperationId);
      }
      if KeyTaken(ops, id, op.key) {
        return Err(DuplicateIdempotencyKey);
      }
      ops := ops[id := op];
      AppendEvent(id);
      r := Ok(op);
    }

    /** Selects the sources to refresh, then registers them one by one; a failure stops it. */
    method SyncFromSources(sources: seq<Args>) returns (ok: bool)
      requires Valid()
      modifies this
      ensures Valid() && (Contents(), ok) == Sync(old(Contents()), sources)
    {
      var rows := Selected(Contents(), sources);
      ghost var before := Contents();
      assert rows[0..] == rows;
      for i := 0 to |rows|
        invariant Valid()
        invariant SyncRows(before, rows) == SyncRows(Contents(), rows[i..])
      {
        assert rows[i..][1..] == rows[i + 1..];
        var r := RegisterOperation(rows[i]);
        if r.Err? {
          return false;
        }
      }
      ok := true;
    }

    /** Closes the operations that have been silent since before the cutoff, and logs each. */
    method InterruptStaleOperations(cutoff: string, message: string, now: string) returns (count: nat)
      requires Valid()
      modifies this
      ensures Valid() && Contents() == InterruptStale(old(Contents()), cutoff, message, now)
      ensures count == |set id | id in old(ops) && IsStale(old(ops)[id], cutoff)|
    {
      InterruptStaleKeepsSound(Contents(), cutoff, message, now);
      StaleInTwoSteps(Contents(), cutoff, message, now);
      hide IsStale;
      hide Sound;
      hide InterruptStale;
      hide LogsOf;
      var stale := set id | id in ops && IsStale(ops[id], cutoff);
      count := |stale|;
      ops := Closed(ops, stale, message, now);
      LogAll(stale);
    }

    /** Logs the state of some rows. */
    method LogAll(ids: set<string>)
      requires ids <= ops.Keys && ids <= events.Keys
      modifies this`events
      ensures events == LogsOf(ops, old(events), ids)
    {
      var todo := ids;
      NothingLogged(ops, events);
      assert ids - todo == {};
      while todo != {}
        invariant todo <= ids && events == LogsOf(ops, old(events), ids - todo)
        decreases todo
      {
        var id :| id in todo;
        LogOneMore(ops, old(events), ids - todo, id);
        hide LogsOf;
        AppendEvent(id);
        assert ids - (todo - {id}) == ids - todo + {id};
        todo := todo - {id};
      }
      assert ids - todo == ids;
    }

    method SetOperationRetry(id: string, retryOf: string, key: Option<string>, now: string)
      returns (r: Result<Option<Op>, Violation>)
      requires Valid()
      modifies this
      ensures Valid() && Contents() == OrUnchanged(old(Contents()), SetRetry(old(Contents()), id, retryOf, key, now))
      ensures r.Ok? <==> SetRetry(old(Contents()), id, retryOf, key, now).Ok?
      ensures r.Ok? ==> r.value == if id in ops then Some(ops[id]) else None
      ensures r.Err? ==> Err(r.error) == SetRetry(old(Contents()), id, retryOf, key, now)
      ensures events == old(events)
    {
      SetRetryKeepsSound(Contents(), id, retryOf, key, now);
      if id !in ops {
        return Ok(None);
      }
      var op := ops[id].(retryOf := Some(retryOf), key := OrElse(key, ops[id].key), updatedAt := now);
      if KeyTaken(ops, id, op.key) {
        return Err(DuplicateIdempotencyKey);
      }
      ops := ops[id := op];
      r := Ok(Some(op));
    }
  }

  /** Two syncs in a row: the second changes nothing. */
  method SyncTwice(t: Table, sources: seq<Args>) returns (ok: bool)
    requires t.Valid() && OperationsSync.DistinctSources(sources)
    modifies t
    ensures t.Valid() && (t.Contents(), ok) == Sync(old(t.Contents()), sources)
  {
    ok := t.SyncFromSources(sources);
    OperationsSync.SyncAgainChangesNothing(old(t.Contents()), sources);
    ok := t.SyncFromSources(sources);
  }
}
