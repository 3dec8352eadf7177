/**
 The operation registry: one row for each (kind, source), its event log, and the sync that keeps it a read
 model of the job tables.
 */
module Operations {
  import opened Wrappers
  import T = Text

  const ACTIVE: set<string> := {"queued", "running", "cancelling", "recovering"}
  const CLEARABLE: set<string> :=
    {"completed", "completed_with_errors", "failed", "cancelled", "interrupted", "needs_attention"}
  const REFRESH_KIND: string := "passport_catalog_refresh"
  const REFRESH_ACTIVE: set<string> := {"queued", "running", "cancelling"}

  datatype Op = Op(
    kind: string, sourceId: string, status: string, stage: string, progress: int, message: Option<string>,
    retryOf: Option<string>, key: Option<string>, clearedAt: Option<string>, finishedAt: Option<string>,
    updatedAt: string)

  datatype Event = Event(status: string, stage: string, message: Option<string>)

  /** Rows by operation id, and the events of each in order. */
  datatype Registry = Registry(ops: map<string, Op>, events: map<string, seq<Event>>)

  datatype Args = Args(
    operationId: string, kind: string, sourceId: string, status: string, stage: string, progress: int,
    message: Option<string>, key: Option<string>, finishedAt: Option<string>, updatedAt: string)

  datatype Violation = DuplicateOperationId | DuplicateIdempotencyKey

  // ---- Invariants ----

  predicate Of(op: Op, kind: string, sourceId: string) {
    op.kind == kind && op.sourceId == sourceId
  }

  /** UNIQUE(kind, source_id). */
  predicate UniqueSources(ops: map<string, Op>) {
    forall a, b :: a in ops && b in ops && Of(ops[a], ops[b].kind, ops[b].sourceId) ==> a == b
  }

  function EventOf(op: Op): Event {
    Event(op.status, op.stage, op.message)
  }

  predicate NoRepeats(es: seq<Event>) {
    forall i :: 0 < i < |es| ==> es[i] != es[i - 1]
  }

  predicate SoundOp(op: Op) {
    0 <= op.progress <= 100 && (op.status in ACTIVE ==> op.clearedAt.None?)
  }

  predicate SoundOps(ops: map<string, Op>) {
    forall id :: id in ops ==> SoundOp(ops[id])
  }

  predicate SoundLog(es: seq<Event>) {
    es != [] && NoRepeats(es)
  }

  predicate SoundLogs(events: map<string, seq<Event>>) {
    forall id :: id in events ==> SoundLog(events[id])
  }

  predicate Sound(reg: Registry) {
    UniqueSources(reg.ops) && SoundOps(reg.ops) && SoundLogs(reg.events) && reg.events.Keys == reg.ops.Keys
  }

  /** The last event of an operation says what its row says. */
  predicate Mirrored(reg: Registry, id: string) {
    && id in reg.ops && id in reg.events && reg.events[id] != []
    && reg.events[id][|reg.events[id]| - 1] == EventOf(reg.ops[id])
  }

  // ---- Registering ----

  function Find(ops: map<string, Op>, kind: string, sourceId: string): (found: Option<string>)
    requires UniqueSources(ops)
    ensures found.Some? ==> found.value in ops && Of(ops[found.value], kind, sourceId)
    ensures found.None? ==> forall id :: id in ops ==> !Of(ops[id], kind, sourceId)
  {
    if exists id :: id in ops && Of(ops[id], kind, sourceId) then
      var id :| id in ops && Of(ops[id], kind, sourceId);
      Some(id)
    else None
  }

  function OrElse<X>(a: Option<X>, b: Option<X>): Option<X> {
    if a.Some? then a else b
  }

  function Clamp(percent: int): int {
    if percent < 0 then 0 else if percent > 100 then 100 else percent
  }

  function Max(a: int, b: int): int {
    if a > b then a else b
  }

  function Inserted(a: Args): Op {
    Op(a.kind, a.sourceId, a.status, a.stage, Clamp(a.progress), a.message,
      None, a.key, None, a.finishedAt, a.updatedAt)
  }

  /** ON CONFLICT DO UPDATE: what is not given stays, progress never falls, an active row is shown again. */
  function Refreshed(op: Op, a: Args): Op {
    op.(status := a.status,
        stage := a.stage,
        progress := Max(op.progress, Clamp(a.progress)),
        message := OrElse(a.message, op.message),
        key := OrElse(a.key, op.key),
        clearedAt := if a.status in ACTIVE then None else op.clearedAt,
        finishedAt := OrElse(a.finishedAt, op.finishedAt),
        updatedAt := a.updatedAt)
  }

  predicate KeyTaken(ops: map<string, Op>, id: string, key: Option<string>) {
    key.Some? && exists other :: other in ops && other != id && ops[other].key == key
  }

  /** No event is logged twice in a row. */
  function Appended(log: seq<Event>, e: Event): seq<Event> {
    if log != [] && log[|log| - 1] == e then log else log + [e]
  }

  function Logged(events: map<string, seq<Event>>, id: string, e: Event): map<string, seq<Event>> {
    events[id := Appended(if id in events then events[id] else [], e)]
  }

  function Written(reg: Registry, id: string, op: Op): Registry {
    Registry(reg.ops[id := op], Logged(reg.events, id, EventOf(op)))
  }

  /** The id a call writes, and the row it writes there. */
  function Target(reg: Registry, a: Args): (string, Op)
    requires UniqueSources(reg.ops)
  {
    match Find(reg.ops, a.kind, a.sourceId)
    case Some(id) => (id, Refreshed(reg.ops[id], a))
    case None => (a.operationId, Inserted(a))
  }

  function Register(reg: Registry, a: Args): Result<Registry, Violation>
    requires UniqueSources(reg.ops)
  {
    var (id, op) := Target(reg, a);
    if Find(reg.ops, a.kind, a.sourceId).None? && id in reg.ops then Err(DuplicateOperationId)
    else if KeyTaken(reg.ops, id, op.key) then Err(DuplicateIdempotencyKey)
    else Ok(Written(reg, id, op))
  }

  // ---- The other writers ----

  predicate IsStale(op: Op, cutoff: string) {
    op.status in ACTIVE && op.updatedAt != cutoff && T.Leq(op.updatedAt, cutoff)
  }

  function InterruptedOp(op: Op, message: string, now: string): Op {
    op.(status := "interrupted", stage := "interrupted", message := Some(message),
        finishedAt := OrElse(op.finishedAt, Some(now)), updatedAt := now)
  }

  /** Closes silent operations and logs each of them. */
  function InterruptStale(reg: Registry, cutoff: string, message: string, now: string): Registry {
    Registry(
      map id | id in reg.ops ::
        if IsStale(reg.ops[id], cutoff) then InterruptedOp(reg.ops[id], message, now) else reg.ops[id],
      map id | id in reg.events ::
        if id in reg.ops && IsStale(reg.ops[id], cutoff)
        then Appended(reg.events[id], EventOf(InterruptedOp(reg.ops[id], message, now)))
        else reg.events[id])
  }

  function SetRetry(
    reg: Registry, id: string, retryOf: string, key: Option<string>, now: string): Result<Registry, Violation>
  {
    if id !in reg.ops then Ok(reg)
    else
      var op := reg.ops[id].(retryOf := Some(retryOf), key := OrElse(key, reg.ops[id].key), updatedAt := now);
      if KeyTaken(reg.ops, id, op.key) then Err(DuplicateIdempotencyKey)
      else Ok(reg.(ops := reg.ops[id := op]))
  }

  function ClearHistory(reg: Registry, now: string): Registry {
    reg.(ops := map id | id in reg.ops ::
      if reg.ops[id].clearedAt.None? && reg.ops[id].status in CLEARABLE
      then reg.ops[id].(clearedAt := Some(now)) else reg.ops[id])
  }

  predicate IsActiveRefresh(op: Op) {
    op.kind == REFRESH_KIND && op.status in REFRESH_ACTIVE
  }

  /** At startup, unfinished catalog refreshes are closed, but nothing is logged. */
  function InterruptRefresh(reg: Registry, message: string, now: string): Registry {
    reg.(ops := map id | id in reg.ops ::
      if IsActiveRefresh(reg.ops[id])
      then reg.ops[id].(status := "interrupted", stage := "interrupted", message := Some(message),
                        finishedAt := Some(now), updatedAt := now)
      else reg.ops[id])
  }

  // ---- Sync ----

  predicate Before(a: string, b: string) {
    a != b && T.Leq(a, b)
  }

  /** The source is not in the registry, or was written after the registry was. */
  predicate NeedsSync(reg: Registry, a: Args)
    requires UniqueSources(reg.ops)
  {
    match Find(reg.ops, a.kind, a.sourceId)
    case None => true
    case Some(id) => Before(reg.ops[id].updatedAt, a.updatedAt)
  }

  function Selected(reg: Registry, sources: seq<Args>): (rows: seq<Args>)
    requires UniqueSources(reg.ops)
    ensures forall a :: a in rows ==> a in sources
  {
    if sources == [] then []
    else (if NeedsSync(reg, sources[0]) then [sources[0]] else []) + Selected(reg, sources[1..])
  }

  /** Registers rows until one fails; what was registered stays. */
  function SyncRows(reg: Registry, rows: seq<Args>): (r: (Registry, bool))
    requires Sound(reg)
    ensures Sound(r.0)
    decreases |rows|
  {
    if rows == [] then (reg, true)
    else
      RegisterKeepsSound(reg, rows[0]);
      match Register(reg, rows[0])
      case Err(_) => (reg, false)
      case Ok(next) => SyncRows(next, rows[1..])
  }

  /** The rows are selected first, from all job tables, and then registered one after the other. */
  function Sync(reg: Registry, sources: seq<Args>): (Registry, bool)
    requires Sound(reg)
  {
    SyncRows(reg, Selected(reg, sources))
  }

  // ---- What every write keeps ----

  /** Rows stay, with their identity, and their progress never falls. */
  predicate OpsExtend(ops: map<string, Op>, ops': map<string, Op>) {
    forall id :: id in ops ==>
      id in ops' && Of(ops'[id], ops[id].kind, ops[id].sourceId) && ops[id].progress <= ops'[id].progress
  }

  /** Events are only added. */
  predicate LogsExtend(events: map<string, seq<Event>>, events': map<string, seq<Event>>) {
    forall id :: id in events ==> id in events' && events[id] <= events'[id]
  }

  predicate Extends(reg: Registry, reg': Registry) {
    OpsExtend(reg.ops, reg'.ops) && LogsExtend(reg.events, reg'.events)
  }

  /** Rows rewritten in place. */
  lemma RowsKeepSound(ops: map<string, Op>, ops': map<string, Op>)
    requires UniqueSources(ops) && OpsExtend(ops, ops') && ops'.Keys == ops.Keys
    ensures UniqueSources(ops')
  {
  }

  /** One row written, with its event: everything sound stays so, and the row is mirrored. */
  lemma WriteKeepsSound(reg: Registry, id: string, op: Op)
    requires Sound(reg) && SoundOp(op)
    requires forall other :: other in reg.ops && other != id ==> !Of(reg.ops[other], op.kind, op.sourceId)
    requires id in reg.ops ==> Of(op, reg.ops[id].kind, reg.ops[id].sourceId) && reg.ops[id].progress <= op.progress
    ensures Sound(Written(reg, id, op)) && Extends(reg, Written(reg, id, op)) && Mirrored(Written(reg, id, op), id)
    ensures forall other :: other != id ==> (Mirrored(Written(reg, id, op), other) <==> Mirrored(reg, other))
  {
    WriteMirrors(reg, id, op);
    WriteKeepsLogs(reg, id, op);
    WriteKeepsOps(reg.ops, id, op);
    hide Mirrored;
    hide Logged;
    hide SoundLogs;
    hide SoundOps;
    hide OpsExtend;
    hide LogsExtend;
    hide UniqueSources;
  }

  lemma WriteKeepsOps(ops: map<string, Op>, id: string, op: Op)
    requires UniqueSources(ops) && SoundOps(ops) && SoundOp(op)
    requires forall other :: other in ops && other != id ==> !Of(ops[other], op.kind, op.sourceId)
    requires id in ops ==> Of(op, ops[id].kind, ops[id].sourceId) && ops[id].progress <= op.progress
    ensures UniqueSources(ops[id := op]) && SoundOps(ops[id := op]) && OpsExtend(ops, ops[id := op])
  {
  }

  lemma WriteKeepsLogs(reg: Registry, id: string, op: Op)
    requires SoundLogs(reg.events)
    ensures var events' := Written(reg, id, op).events;
      SoundLogs(events') && LogsExtend(reg.events, events') && events'.Keys == reg.events.Keys + {id}
  {
  }

  lemma WriteMirrors(reg: Registry, id: string, op: Op)
    ensures Mirrored(Written(reg, id, op), id)
    ensures forall other :: other != id ==> (Mirrored(Written(reg, id, op), other) <==> Mirrored(reg, other))
  {
  }

  lemma RegisterKeepsSound(reg: Registry, a: Args)
    requires Sound(reg)
    ensures var r := Register(reg, a);
      r.Ok? ==>
        && Sound(r.value) && Extends(reg, r.value) && r.value.ops.Keys == reg.ops.Keys + {Target(reg, a).0}
        && Mirrored(r.value, Target(reg, a).0)
        && (forall other :: other != Target(reg, a).0 ==> (Mirrored(r.value, other) <==> Mirrored(reg, other)))
  {
    if Register(reg, a).Ok? {
      var (id, op) := Target(reg, a);
      WriteKeepsSound(reg, id, op);
    }
  }

  lemma InterruptStaleKeepsSound(reg: Registry, cutoff: string, message: string, now: string)
    requires Sound(reg)
    ensures var reg' := InterruptStale(reg, cutoff, message, now);
      && Sound(reg') && Extends(reg, reg') && reg'.ops.Keys == reg.ops.Keys
      && (forall id :: id in reg.ops && (IsStale(reg.ops[id], cutoff) || Mirrored(reg, id)) ==> Mirrored(reg', id))
      && (forall id :: id in reg'.ops ==> !IsStale(reg'.ops[id], cutoff))
  {
    var reg' := InterruptStale(reg, cutoff, message, now);
    forall id | id in reg.ops
      ensures RowExtends(reg, reg', id)
      ensures IsStale(reg.ops[id], cutoff) || Mirrored(reg, id) ==> Mirrored(reg', id)
      ensures !IsStale(reg'.ops[id], cutoff)
    {
      StaleLog(reg, cutoff, message, now, id);
    }
    PointwiseSound(reg, reg');
  }

  predicate RowExtends(reg: Registry, reg': Registry, id: string) {
    && id in reg.ops && id in reg'.ops && id in reg.events && id in reg'.events
    && Of(reg'.ops[id], reg.ops[id].kind, reg.ops[id].sourceId) && reg.ops[id].progress <= reg'.ops[id].progress
    && SoundOp(reg'.ops[id]) && SoundLog(reg'.events[id]) && reg.events[id] <= reg'.events[id]
  }

  lemma PointwiseSound(reg: Registry, reg': Registry)
    requires Sound(reg) && reg'.ops.Keys == reg.ops.Keys == reg'.events.Keys
    requires forall id :: id in reg.ops ==> RowExtends(reg, reg', id)
    ensures Sound(reg') && Extends(reg, reg')
  {
  }

  lemma StaleLog(reg: Registry, cutoff: string, message: string, now: string, id: string)
    requires Sound(reg) && id in reg.ops
    ensures var reg' := InterruptStale(reg, cutoff, message, now);
      && RowExtends(reg, reg', id)
      && (IsStale(reg.ops[id], cutoff) || Mirrored(reg, id) ==> Mirrored(reg', id))
      && !IsStale(reg'.ops[id], cutoff)
  {
    hide UniqueSources;
    hide NoRepeats;
    hide T.Leq;
    assert SoundOp(reg.ops[id]) && SoundLog(reg.events[id]);
    if IsStale(reg.ops[id], cutoff) {
      AppendKeepsSound(reg.events[id], EventOf(InterruptedOp(reg.ops[id], message, now)));
    }
  }

  /** One more event, unless it repeats the last one. */
  lemma AppendKeepsSound(log: seq<Event>, e: Event)
    requires SoundLog(log)
    ensures var log' := Appended(log, e);
      SoundLog(log') && log <= log' && log'[|log'| - 1] == e
  {
  }

  lemma SetRetryKeepsSound(reg: Registry, id: string, retryOf: string, key: Option<string>, now: string)
    requires Sound(reg)
    ensures var r := SetRetry(reg, id, retryOf, key, now);
      r.Ok? ==>
        && Sound(r.value) && Extends(reg, r.value) && r.value.ops.Keys == reg.ops.Keys
        && forall other :: Mirrored(r.value, other) <==> Mirrored(reg, other)
  {
    hide UniqueSources;
    hide SoundLogs;
    hide KeyTaken;
    var r := SetRetry(reg, id, retryOf, key, now);
    if r.Ok? && id in reg.ops {
      var reg' := r.value;
      assert OpsExtend(reg.ops, reg'.ops) && SoundOps(reg'.ops) && LogsExtend(reg.events, reg'.events);
      RowsKeepSound(reg.ops, reg'.ops);
      assert EventOf(reg'.ops[id]) == EventOf(reg.ops[id]);
    } else if r.Ok? {
      ExtendsReflexive(reg);
    }
  }

  lemma ClearHistoryKeepsSound(reg: Registry, now: string)
    requires Sound(reg)
    ensures var reg' := ClearHistory(reg, now);
      && Sound(reg') && Extends(reg, reg') && reg'.ops.Keys == reg.ops.Keys
      && forall id :: Mirrored(reg', id) <==> Mirrored(reg, id)
  {
    hide SoundLogs;
    hide UniqueSources;
    var reg' := ClearHistory(reg, now);
    assert OpsExtend(reg.ops, reg'.ops) && SoundOps(reg'.ops);
    RowsKeepSound(reg.ops, reg'.ops);
    assert LogsExtend(reg.events, reg'.events);
    assert forall id :: id in reg.ops ==> EventOf(reg'.ops[id]) == EventOf(reg.ops[id]);
  }

  /** The startup closing of refreshes leaves exactly the refreshes it closes without a matching event. */
  lemma InterruptRefreshUnmirrors(reg: Registry, message: string, now: string)
    requires Sound(reg) && forall id :: id in reg.ops ==> Mirrored(reg, id)
    ensures var reg' := InterruptRefresh(reg, message, now);
      && Sound(reg') && Extends(reg, reg') && reg'.ops.Keys == reg.ops.Keys
      && (forall id :: id in reg.ops ==> (Mirrored(reg', id) <==> !IsActiveRefresh(reg.ops[id])))
  {
    InterruptRefreshKeepsSound(reg, message, now);
  }

  lemma InterruptRefreshKeepsSound(reg: Registry, message: string, now: string)
    requires Sound(reg)
    ensures Sound(InterruptRefresh(reg, message, now)) && Extends(reg, InterruptRefresh(reg, message, now))
  {
  }

  // ---- Runs ----

  datatype Step =
    | DoRegister(args: Args)
    | DoSync(sources: seq<Args>)
    | DoInterruptStale(cutoff: string, message: string, now: string)
    | DoSetRetry(id: string, retryOf: string, key: Option<string>, now: string)
    | DoClearHistory(now: string)
    | DoInterruptRefresh(message: string, now: string)

  function OrUnchanged(reg: Registry, r: Result<Registry, Violation>): Registry {
    if r.Ok? then r.value else reg
  }

  function Apply(reg: Registry, s: Step): Registry
    requires Sound(reg)
  {
    match s
    case DoRegister(a) => OrUnchanged(reg, Register(reg, a))
    case DoSync(sources) => Sync(reg, sources).0
    case DoInterruptStale(cutoff, message, now) => InterruptStale(reg, cutoff, message, now)
    case DoSetRetry(id, retryOf, key, now) => OrUnchanged(reg, SetRetry(reg, id, retryOf, key, now))
    case DoClearHistory(now) => ClearHistory(reg, now)
    case DoInterruptRefresh(message, now) => InterruptRefresh(reg, message, now)
  }

  predicate AllMirrored(reg: Registry) {
    forall id :: id in reg.ops ==> Mirrored(reg, id)
  }

  /** The step closes no unfinished catalog refresh behind the log's back. */
  predicate Logs(reg: Registry, s: Step) {
    s.DoInterruptRefresh? ==> forall id :: id in reg.ops ==> !IsActiveRefresh(reg.ops[id])
  }

  lemma ExtendsReflexive(reg: Registry)
    ensures Extends(reg, reg)
  {
  }

  lemma ExtendsTransitive(a: Registry, b: Registry, c: Registry)
    requires Extends(a, b) && Extends(b, c)
    ensures Extends(a, c)
  {
  }

  lemma {:induction false} SyncRowsKeep(reg: Registry, rows: seq<Args>)
    requires Sound(reg)
    ensures Extends(reg, SyncRows(reg, rows).0)
    ensures AllMirrored(reg) ==> AllMirrored(SyncRows(reg, rows).0)
    decreases |rows|
  {
    hide Register;
    hide Mirrored;
    hide Extends;
    hide UniqueSources;
    hide SoundOps;
    hide SoundLogs;
    ExtendsReflexive(reg);
    if rows != [] {
      RegisterKeepsSound(reg, rows[0]);
      if Register(reg, rows[0]).Ok? {
        var next := Register(reg, rows[0]).value;
        SyncRowsKeep(next, rows[1..]);
        ExtendsTransitive(reg, next, SyncRows(next, rows[1..]).0);
      }
    }
  }

  lemma StepKeeps(reg: Registry, s: Step)
    requires Sound(reg)
    ensures Sound(Apply(reg, s)) && Extends(reg, Apply(reg, s))
    ensures AllMirrored(reg) ==> (AllMirrored(Apply(reg, s)) <==> Logs(reg, s))
  {
    ExtendsReflexive(reg);
    hide Register;
    hide SetRetry;
    hide InterruptStale;
    hide ClearHistory;
    hide InterruptRefresh;
    hide Mirrored;
    hide UniqueSources;
    hide SoundLog;
    hide Extends;
    match s
    case DoRegister(a) => RegisterKeepsSound(reg, a);
    case DoSync(sources) => SyncRowsKeep(reg, Selected(reg, sources));
    case DoInterruptStale(cutoff, message, now) => InterruptStaleKeepsSound(reg, cutoff, message, now);
    case DoSetRetry(id, retryOf, key, now) => SetRetryKeepsSound(reg, id, retryOf, key, now);
    case DoClearHistory(now) => ClearHistoryKeepsSound(reg, now);
    case DoInterruptRefresh(message, now) =>
      InterruptRefreshKeepsSound(reg, message, now);
      if AllMirrored(reg) {
        InterruptRefreshUnmirrors(reg, message, now);
      }
  }

  const EMPTY: Registry := Registry(map[], map[])

  function Run(steps: seq<Step>): (reg: Registry)
    ensures Sound(reg)
  {
    if steps == [] then EMPTY
    else
      var before := Run(steps[..|steps| - 1]);
      StepKeeps(before, steps[|steps| - 1]);
      Apply(before, steps[|steps| - 1])
  }

  /** A refresh is registered, and the application restarts before it ends: its last event no longer shows its row. */
  lemma RestartUnmirrorsRefresh(a: Args, message: string, now: string)
    requires a.kind == REFRESH_KIND && a.status in REFRESH_ACTIVE
    ensures AllMirrored(Run([DoRegister(a)]))
    ensures !AllMirrored(Run([DoRegister(a), DoInterruptRefresh(message, now)]))
  {
    var steps := [DoRegister(a), DoInterruptRefresh(message, now)];
    assert steps[..1] == [DoRegister(a)] && [DoRegister(a)][..0] == [];
    var reg := Written(EMPTY, a.operationId, Inserted(a));
    FirstRegistration(a);
    hide Register;
    hide Written;
    hide UniqueSources;
    hide SoundOps;
    hide SoundLogs;
    hide Mirrored;
    assert Run([]) == EMPTY;
    assert Run([DoRegister(a)]) == Apply(EMPTY, DoRegister(a)) == reg;
    RunKeepsSound([DoRegister(a)]);
    InterruptRefreshUnmirrors(reg, message, now);
  }

  lemma RunKeepsSound(steps: seq<Step>)
    ensures Sound(Run(steps))
  {
  }

  lemma FirstRegistration(a: Args)
    requires a.kind == REFRESH_KIND && a.status in REFRESH_ACTIVE
    ensures var reg := Written(EMPTY, a.operationId, Inserted(a));
      && Register(EMPTY, a) == Ok(reg) && AllMirrored(reg)
      && a.operationId in reg.ops && IsActiveRefresh(reg.ops[a.operationId])
  {
  }

  /** Over every run: rows keep their identity, progress never falls, and the log only grows. */
  lemma {:induction false} RunsExtend(steps: seq<Step>, n: nat)
    requires n <= |steps|
    ensures Extends(Run(steps[..n]), Run(steps))
    decreases |steps|
  {
    if n == |steps| {
      assert steps[..n] == steps;
    } else {
      var front := steps[..|steps| - 1];
      RunsExtend(front, n);
      assert front[..n] == steps[..n];
      StepKeeps(Run(front), steps[|steps| - 1]);
      ExtendsTransitive(Run(steps[..n]), Run(front), Run(steps));
    }
  }

  /** Every operation mirrors its last event after a run in which every step logs what it closes. */
  lemma {:induction false} RunsMirror(steps: seq<Step>)
    requires forall i :: 0 <= i < |steps| ==> Logs(Run(steps[..i]), steps[i])
    ensures AllMirrored(Run(steps))
    decreases |steps|
  {
    if steps != [] {
      var front := steps[..|steps| - 1];
      forall i | 0 <= i < |front|
        ensures Logs(Run(front[..i]), front[i])
      {
        assert front[..i] == steps[..i];
      }
      RunsMirror(front);
      StepKeeps(Run(front), steps[|steps| - 1]);
    }
  }
}
