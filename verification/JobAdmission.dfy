/**
 Admitting a batch of build jobs: in one transaction the jobs are inserted and registered as operations, one after the
 other, and then the batch itself is registered. Whatever fails takes everything back.
 */
module JobAdmission {
  import opened Wrappers
  import B = BuildJobs
  import O = Operations
  import S = OperationsSync
  import R = Registrations
  import T = Text

  /** A job of a batch with the key that keeps its operation from being started twice. */
  datatype Item = Item(request: B.Request, key: Option<string>)

  datatype Batch = Batch(items: seq<Item>, operation: Option<BatchOperation>)

  datatype BatchOperation = BatchOperation(operationId: string, sourceId: string, key: Option<string>)

  function CleanKey(key: Option<string>): Option<string> {
    if key.None? || T.Trim(key.value) == "" then None else Some(T.Trim(key.value))
  }

  function Requests(batch: Batch): (rs: seq<B.Request>)
    ensures |rs| == |batch.items|
  {
    seq(|batch.items|, i requires 0 <= i < |batch.items| => B.Stripped(batch.items[i].request))
  }

  const JOB_KIND: string := "asset_card_build"
  const BATCH_KIND: string := "asset_card_build_batch"

  function JobArgs(item: Item, now: string): O.Args {
    var id := B.Stripped(item.request).jobId;
    O.Args(id, JOB_KIND, id, "queued", "queued", 0, None, CleanKey(item.key), None, now)
  }

  function BatchArgs(op: BatchOperation, now: string): O.Args {
    O.Args(op.operationId, BATCH_KIND, op.sourceId, "completed", "scheduled", 100,
      None, CleanKey(op.key), Some(now), now)
  }

  /** What is registered, in order. */
  function AllArgs(batch: Batch, now: string): (args: seq<O.Args>)
    ensures |batch.items| <= |args|
    ensures forall i :: 0 <= i < |batch.items| ==> args[i] == JobArgs(batch.items[i], now)
  {
    seq(|batch.items|, i requires 0 <= i < |batch.items| => JobArgs(batch.items[i], now))
    + if batch.operation.Some? then [BatchArgs(batch.operation.value, now)] else []
  }

  /**
   A batch is admitted when it is well formed, there is room, no job id is taken, and the ids and keys of its
   operations are free.
   */
  ghost predicate Succeeds(jobs: B.Jobs, reg: O.Registry, batch: Batch, now: string)
    requires O.Sound(reg)
  {
    && B.WellFormed(Requests(batch)) && B.Admissible(jobs, Requests(batch))
    && R.Registrable(reg, AllArgs(batch, now))
  }

  // ---- What an admitted batch leaves ----

  lemma ArgsAreDistinct(batch: Batch, now: string)
    requires B.WellFormed(Requests(batch))
    ensures S.DistinctSources(AllArgs(batch, now))
  {
    var rs, args := Requests(batch), AllArgs(batch, now);
    forall i, j | 0 <= i < j < |args|
      ensures !S.SameSource(args[i], args[j])
    {
      if j < |rs| {
        assert args[i].sourceId == rs[i].jobId && args[j].sourceId == rs[j].jobId;
      } else {
        assert args[i].kind == JOB_KIND && args[j].kind == BATCH_KIND;
      }
    }
  }

  /**
   After admission the job table is sound, every admitted job is shown by a queued operation, a batch by a completed
   one, and the registry is sound, only extended, and as well mirrored by its log as before.
   */
  lemma AdmittedJobsAreShown(jobs: B.Jobs, reg: O.Registry, batch: Batch, now: string)
    requires B.Invariant(jobs) && O.Sound(reg) && Succeeds(jobs, reg, batch, now)
    ensures B.Invariant(B.InsertAll(jobs, Requests(batch)))
    ensures var reg' := O.SyncRows(reg, AllArgs(batch, now)).0;
      && O.Sound(reg') && O.Extends(reg, reg') && (O.AllMirrored(reg) ==> O.AllMirrored(reg'))
      && forall i :: 0 <= i < |AllArgs(batch, now)| ==> S.Shows(reg', AllArgs(batch, now)[i])
  {
    hide AllArgs;
    hide B.Invariant;
    hide B.InsertAll;
    hide B.WellFormed;
    hide B.Admissible;
    hide O.SyncRows;
    hide O.Sound;
    hide S.DistinctSources;
    hide S.Shows;
    hide R.Registrable;
    InsertKeepsInvariant(jobs, Requests(batch));
    ArgsAreDistinct(batch, now);
    R.GoesThroughExactly(reg, AllArgs(batch, now));
    RegisteredAreShown(reg, AllArgs(batch, now));
  }

  lemma RegisteredAreShown(reg: O.Registry, args: seq<O.Args>)
    requires O.Sound(reg) && S.DistinctSources(args) && O.SyncRows(reg, args).1
    ensures var reg' := O.SyncRows(reg, args).0;
      && O.Sound(reg') && O.Extends(reg, reg') && (O.AllMirrored(reg) ==> O.AllMirrored(reg'))
      && forall i :: 0 <= i < |args| ==> S.Shows(reg', args[i])
  {
    hide O.SyncRows;
    hide O.UniqueSources;
    hide O.SoundOps;
    hide O.SoundLogs;
    hide O.AllMirrored;
    hide S.DistinctSources;
    hide S.Reached;
    hide S.Shows;
    O.SyncRowsKeep(reg, args);
    forall i | 0 <= i < |args|
      ensures S.Shows(O.SyncRows(reg, args).0, args[i])
    {
      S.SyncShowsReached(reg, args, i);
    }
  }

  lemma InsertKeepsInvariant(jobs: B.Jobs, rs: seq<B.Request>)
    requires B.Invariant(jobs) && B.WellFormed(rs) && B.Admissible(jobs, rs)
    ensures B.Invariant(B.InsertAll(jobs, rs))
  {
    B.RoomMeansFresh(jobs, rs);
    B.InsertAllKeeps(jobs, rs);
  }

  // ---- The transaction ----

  datatype Outcome = InvalidBatch | Refused | Violated(violation: O.Violation) | Admitted(rows: seq<B.Job>)

  class Tables {
    var jobs: B.Jobs
    var reg: O.Registry

    ghost predicate Valid()
      reads this
    {
      B.Invariant(jobs) && O.Sound(reg)
    }

    constructor ()
      ensures Valid() && jobs == map[] && reg == O.EMPTY
    {
      jobs, reg := map[], O.EMPTY;
    }

    method CreateBatch(batch: Batch, now: string) returns (r: Outcome)
      requires Valid()
      modifies this
      ensures Valid()
      ensures r.InvalidBatch? <==> !B.WellFormed(Requests(batch))
      ensures r.Admitted? <==> Succeeds(old(jobs), old(reg), batch, now)
      ensures r.Refused? ==> !B.Admissible(old(jobs), Requests(batch))
      ensures r.Violated? ==> !R.Registrable(old(reg), AllArgs(batch, now))
      ensures if r.Admitted?
        then jobs == B.InsertAll(old(jobs), Requests(batch)) && reg == O.SyncRows(old(reg), AllArgs(batch, now)).0
        else jobs == old(jobs) && reg == old(reg)
      ensures r.Admitted? ==>
        |r.rows| == |batch.items| && forall i :: 0 <= i < |r.rows| ==> r.rows[i] == B.NewJob(Requests(batch)[i])
    {
      hide B.Invariant;
      hide B.InsertAll;
      hide O.Register;
      hide O.UniqueSources;
      hide O.SoundOps;
      hide O.SoundLogs;
      hide O.SyncRows;
      hide B.WellFormed;
      hide R.Registrable;
      hide S.DistinctSources;
      var rs, args := Requests(batch), AllArgs(batch, now);
      if !B.WellFormed(rs) {
        return InvalidBatch;
      }
      if !B.HasRoom(jobs, rs) {
        return Refused;
      }
      FreshIds(jobs, rs);
      ArgsAreDistinct(batch, now);
      R.GoesThroughExactly(reg, args);
      if B.Admissible(jobs, rs) {
        InsertKeepsInvariant(jobs, rs);
      }
      var before := (jobs, reg);
      r := AdmitItems(rs, args);
      if r.Admitted? {
        if batch.operation.Some? {
          assert args[|rs|] == BatchArgs(batch.operation.value, now) && args[|rs| + 1..] == [];
          NextIsRegistered(reg, args, |rs|);
          var registered := O.Register(reg, BatchArgs(batch.operation.value, now));
          if registered.Ok? {
            reg := registered.value;
          } else {
            r := Violated(registered.error);
          }
        } else {
          assert args[|rs|..] == [];
        }
        NothingMoreIsRegistered(reg);
      }
      if !r.Admitted? {
        jobs, reg := before.0, before.1;
      }
    }

    /** The inserts and registrations of the jobs; an id already taken or a violation ends them. */
    method AdmitItems(rs: seq<B.Request>, args: seq<O.Args>) returns (r: Outcome)
      requires B.WellFormed(rs) && |rs| <= |args| && O.Sound(reg)
      modifies this
      ensures O.Sound(reg) && !r.InvalidBatch?
      ensures r.Admitted? ==> jobs == B.InsertAll(old(jobs), rs) && B.Ids(rs) !! old(jobs).Keys
      ensures r.Admitted? ==> O.SyncRows(old(reg), args) == O.SyncRows(reg, args[|rs|..])
      ensures r.Admitted? ==> |r.rows| == |rs| && forall i :: 0 <= i < |rs| ==> r.rows[i] == B.NewJob(rs[i])
      ensures r.Refused? ==> !(B.Ids(rs) !! old(jobs).Keys)
      ensures r.Violated? ==> !O.SyncRows(old(reg), args).1
    {
      hide O.Register;
      hide O.UniqueSources;
      hide O.SoundOps;
      hide O.SoundLogs;
      hide O.SyncRows;
      hide B.NewJob;
      ghost var jobs0, reg0 := jobs, reg;
      var admitted := [];
      assert args[0..] == args;
      for i := 0 to |rs|
        invariant jobs == B.InsertAll(jobs0, rs[..i])
        invariant B.Ids(rs[..i]) !! jobs0.Keys && jobs.Keys == jobs0.Keys + B.Ids(rs[..i])
        invariant O.Sound(reg) && O.SyncRows(reg0, args) == O.SyncRows(reg, args[i..])
        invariant |admitted| == i && forall k :: 0 <= k < i ==> admitted[k] == B.NewJob(rs[k])
      {
        assert rs[..i + 1][..i] == rs[..i];
        B.LastIsFresh(rs[..i + 1]);
        if rs[i].jobId in jobs {
          assert rs[i] in rs;
          return Refused;
        }
        NextIsRegistered(reg, args, i);
        var registered := O.Register(reg, args[i]);
        if registered.Err? {
          return Violated(registered.error);
        }
        jobs, reg := jobs[rs[i].jobId := B.NewJob(rs[i])], registered.value;
        admitted := admitted + [B.NewJob(rs[i])];
      }
      assert rs[..|rs|] == rs;
      r := Admitted(admitted);
    }
  }

  lemma FreshIds(jobs: B.Jobs, rs: seq<B.Request>)
    ensures B.Ids(rs) !! jobs.Keys <==> forall r :: r in rs ==> r.jobId !in jobs
  {
  }

  lemma NothingMoreIsRegistered(reg: O.Registry)
    requires O.Sound(reg)
    ensures O.SyncRows(reg, []) == (reg, true)
  {
  }

  /** Registering rows is registering the next one and then the rest. */
  lemma NextIsRegistered(reg: O.Registry, args: seq<O.Args>, i: nat)
    requires O.Sound(reg) && i < |args|
    ensures match O.Register(reg, args[i])
      case Ok(next) => O.Sound(next) && O.SyncRows(reg, args[i..]) == O.SyncRows(next, args[i + 1..])
      case Err(_) => !O.SyncRows(reg, args[i..]).1
  {
    O.RegisterKeepsSound(reg, args[i]);
    assert args[i..][1..] == args[i + 1..];
  }
}
