/**
 The sync as a read model: what one sync brings about, and that a second one with the same sources does nothing.
 */
module OperationsSync {
  import opened Wrappers
  import opened Operations

  predicate SameSource(a: Args, b: Args) {
    a.kind == b.kind && a.sourceId == b.sourceId
  }

  /** The job tables have one row for each (kind, source). */
  predicate DistinctSources(rows: seq<Args>) {
    forall i, j :: 0 <= i < j < |rows| ==> !SameSource(rows[i], rows[j])
  }

  predicate Holds(reg: Registry, id: string, a: Args) {
    id in reg.ops && Of(reg.ops[id], a.kind, a.sourceId)
  }

  lemma FindIs(reg: Registry, id: string, a: Args)
    requires UniqueSources(reg.ops) && Holds(reg, id, a)
    ensures Find(reg.ops, a.kind, a.sourceId) == Some(id)
  {
  }

  /** A row registered no longer needs a sync, and shows the source. */
  lemma RegisteredIsFresh(reg: Registry, a: Args)
    requires Sound(reg) && Register(reg, a).Ok?
    ensures Sound(Register(reg, a).value) && !NeedsSync(Register(reg, a).value, a)
    ensures Shows(Register(reg, a).value, a)
  {
    hide SoundOps;
    hide SoundLogs;
    RegisterKeepsSound(reg, a);
    FindIs(Register(reg, a).value, Target(reg, a).0, a);
  }

  /** The registry shows the source's status, stage, message and time, and at least its progress. */
  predicate Shows(reg: Registry, a: Args)
    requires UniqueSources(reg.ops)
  {
    var found := Find(reg.ops, a.kind, a.sourceId);
    found.Some? &&
    var op := reg.ops[found.value];
    && op.status == a.status && op.stage == a.stage && op.updatedAt == a.updatedAt
    && Clamp(a.progress) <= op.progress && (a.message.Some? ==> op.message == a.message)
  }

  /** Registering one source leaves the others as they are. */
  lemma RegisterLeavesOthers(reg: Registry, a: Args, b: Args)
    requires Sound(reg) && Register(reg, a).Ok? && !SameSource(a, b)
    ensures Sound(Register(reg, a).value)
    ensures NeedsSync(Register(reg, a).value, b) <==> NeedsSync(reg, b)
    ensures Shows(Register(reg, a).value, b) <==> Shows(reg, b)
  {
    hide SoundOps;
    hide SoundLogs;
    hide Mirrored;
    RegisterKeepsSound(reg, a);
    var reg' := Register(reg, a).value;
    match Find(reg.ops, b.kind, b.sourceId)
    case Some(id) => FindIs(reg', id, b);
    case None =>
      match Find(reg'.ops, b.kind, b.sourceId)
      case Some(id) =>
      case None =>
  }

  /** How many rows a sync registers before it fails or ends. */
  function Reached(reg: Registry, rows: seq<Args>): (n: nat)
    requires Sound(reg)
    ensures n <= |rows| && (SyncRows(reg, rows).1 <==> n == |rows|)
    decreases |rows|
  {
    if rows == [] then 0
    else
      RegisterKeepsSound(reg, rows[0]);
      match Register(reg, rows[0])
      case Err(_) => 0
      case Ok(next) => 1 + Reached(next, rows[1..])
  }

  lemma {:induction false} SyncFailsAt(reg: Registry, rows: seq<Args>)
    requires Sound(reg) && Reached(reg, rows) < |rows|
    ensures Register(SyncRows(reg, rows).0, rows[Reached(reg, rows)]).Err?
    decreases |rows|
  {
    RegisterKeepsSound(reg, rows[0]);
    hide Sound;
    if Register(reg, rows[0]).Ok? {
      SyncFailsAt(Register(reg, rows[0]).value, rows[1..]);
    }
  }

  /** A source that is not among the registered rows is left as it was. */
  lemma {:induction false} SyncLeavesOthers(reg: Registry, rows: seq<Args>, b: Args)
    requires Sound(reg) && forall i :: 0 <= i < Reached(reg, rows) ==> !SameSource(rows[i], b)
    ensures NeedsSync(SyncRows(reg, rows).0, b) <==> NeedsSync(reg, b)
    ensures Shows(SyncRows(reg, rows).0, b) <==> Shows(reg, b)
    decreases |rows|
  {
    if rows != [] && Register(reg, rows[0]).Ok? {
      RegisterLeavesOthers(reg, rows[0], b);
      hide Register;
      hide NeedsSync;
      hide Shows;
      hide UniqueSources;
      assert forall i :: 0 <= i < Reached(Register(reg, rows[0]).value, rows[1..]) ==> rows[1..][i] == rows[i + 1];
      SyncLeavesOthers(Register(reg, rows[0]).value, rows[1..], b);
    }
  }

  /** A registered row is shown at the end. */
  lemma {:induction false} SyncShowsReached(reg: Registry, rows: seq<Args>, i: nat)
    requires Sound(reg) && DistinctSources(rows) && i < Reached(reg, rows)
    ensures !NeedsSync(SyncRows(reg, rows).0, rows[i]) && Shows(SyncRows(reg, rows).0, rows[i])
    decreases |rows|
  {
    RegisterKeepsSound(reg, rows[0]);
    RegisteredIsFresh(reg, rows[0]);
    hide Register;
    hide NeedsSync;
    hide Shows;
    hide UniqueSources;
    var next := Register(reg, rows[0]).value;
    if i == 0 {
      assert forall k :: 0 <= k < |rows[1..]| ==> rows[1..][k] == rows[k + 1];
      assert forall k :: 0 <= k < |rows[1..]| ==> !SameSource(rows[1..][k], rows[0]);
      SyncLeavesOthers(next, rows[1..], rows[0]);
    } else {
      SyncShowsReached(next, rows[1..], i - 1);
    }
  }

  lemma {:induction false} SelectedDistinct(reg: Registry, sources: seq<Args>)
    requires UniqueSources(reg.ops) && DistinctSources(sources)
    ensures DistinctSources(Selected(reg, sources))
    ensures forall a :: a in Selected(reg, sources) <==> a in sources && NeedsSync(reg, a)
  {
    hide NeedsSync;
    hide UniqueSources;
    if sources != [] {
      SelectedDistinct(reg, sources[1..]);
      var rest := Selected(reg, sources[1..]);
      forall i | 0 <= i < |rest|
        ensures !SameSource(sources[0], rest[i])
      {
        assert rest[i] in sources[1..];
      }
    }
  }

  /**
   After a sync that ran through, every source is in the registry and not newer than it, and every source
   that was newer is shown as it is.
   */
  lemma SyncShowsSources(reg: Registry, sources: seq<Args>, a: Args)
    requires Sound(reg) && DistinctSources(sources) && a in sources && Sync(reg, sources).1
    ensures var reg' := Sync(reg, sources).0;
      !NeedsSync(reg', a) && (NeedsSync(reg, a) || Shows(reg, a) ==> Shows(reg', a))
  {
    hide NeedsSync;
    hide Shows;
    hide SyncRows;
    hide UniqueSources;
    var rows := Selected(reg, sources);
    SelectedDistinct(reg, sources);
    if NeedsSync(reg, a) {
      assert a in rows;
      var i :| 0 <= i < |rows| && rows[i] == a;
      SyncShowsReached(reg, rows, i);
    } else {
      forall i | 0 <= i < |rows|
        ensures !SameSource(rows[i], a)
      {
        if SameSource(rows[i], a) {
          DistinctMeansEqual(sources, rows[i], a);
          assert false;
        }
      }
      SyncLeavesOthers(reg, rows, a);
    }
  }

  lemma DistinctMeansEqual(sources: seq<Args>, a: Args, b: Args)
    requires DistinctSources(sources) && a in sources && b in sources && SameSource(a, b)
    ensures a == b
  {
  }

  /** Filtering again, when of the filtered rows exactly the first `n` have dropped out. */
  lemma {:induction false} SelectedAgain(reg: Registry, reg': Registry, sources: seq<Args>, n: nat)
    requires UniqueSources(reg.ops) && UniqueSources(reg'.ops) && DistinctSources(sources)
    requires n <= |Selected(reg, sources)|
    requires forall a :: a in sources ==> (NeedsSync(reg', a) <==> a in Selected(reg, sources)[n..])
    ensures Selected(reg', sources) == Selected(reg, sources)[n..]
    decreases |sources|
  {
    hide NeedsSync;
    hide UniqueSources;
    if sources != [] {
      var first, rest := sources[0], Selected(reg, sources[1..]);
      SelectedDistinct(reg, sources);
      SelectedDistinct(reg, sources[1..]);
      assert first !in sources[1..];
      if !NeedsSync(reg, first) {
        assert Selected(reg, sources) == rest;
        SelectedAgain(reg, reg', sources[1..], n);
      } else {
        assert Selected(reg, sources) == [first] + rest;
        if n == 0 {
          assert ([first] + rest)[0..] == [first] + rest && rest[0..] == rest;
          forall a | a in sources[1..]
            ensures NeedsSync(reg', a) <==> a in rest[0..]
          {
          }
          SelectedAgain(reg, reg', sources[1..], 0);
          assert first in Selected(reg, sources)[0..];
        } else {
          assert ([first] + rest)[n..] == rest[n - 1..];
          SelectedAgain(reg, reg', sources[1..], n - 1);
          assert first !in rest;
        }
      }
    }
  }

  /** A second sync with unchanged sources changes no row and appends no event, even if the first one failed midway. */
  lemma SyncAgainChangesNothing(reg: Registry, sources: seq<Args>)
    requires Sound(reg) && DistinctSources(sources)
    ensures Sync(Sync(reg, sources).0, sources) == Sync(reg, sources)
  {
    var rows := Selected(reg, sources);
    var reg' := Sync(reg, sources).0;
    SelectedDistinct(reg, sources);
    var n := Reached(reg, rows);
    StillNeeded(reg, reg', sources, rows, n);
    SelectedAgain(reg, reg', sources, n);
    if n < |rows| {
      SyncFailsAt(reg, rows);
      assert rows[n..][0] == rows[n];
    } else {
      assert rows[n..] == [];
    }
  }

  /** Of the selected rows, those from the failed one on still need a sync. */
  lemma StillNeeded(reg: Registry, reg': Registry, sources: seq<Args>, rows: seq<Args>, n: nat)
    requires Sound(reg) && DistinctSources(sources) && DistinctSources(rows)
    requires forall a :: a in rows <==> a in sources && NeedsSync(reg, a)
    requires reg' == SyncRows(reg, rows).0 && n == Reached(reg, rows)
    ensures forall a :: a in sources ==> (NeedsSync(reg', a) <==> a in rows[n..])
  {
    hide NeedsSync;
    hide Shows;
    hide UniqueSources;
    hide SyncRows;
    hide Reached;
    forall a | a in sources
      ensures NeedsSync(reg', a) <==> a in rows[n..]
    {
      if i :| 0 <= i < n && SameSource(rows[i], a) {
        assert rows[i] in rows;
        DistinctMeansEqual(sources, rows[i], a);
        SyncShowsReached(reg, rows, i);
      } else {
        SyncLeavesOthers(reg, rows, a);
        if a in rows {
          var k :| 0 <= k < |rows| && rows[k] == a;
          assert k >= n && rows[n..][k - n] == a;
        }
      }
    }
  }
}
