/**
 Asset-card build jobs: admission in batches under a capacity limit, the status of each job, and its progress.
 */
module BuildJobs {
  import opened Wrappers
  import Sets
  import T = Text

  const JOB_LIMIT: nat := 2

  datatype Status = Queued | Running | Cancelling | Completed | Failed | Cancelled | Interrupted

  predicate IsActive(s: Status) {
    s in {Queued, Running, Cancelling}
  }

  /** Statuses only move on: queued, running, cancelling, and then for good one of the others. */
  function Rank(s: Status): nat {
    match s
    case Queued => 0
    case Running => 1
    case Cancelling => 2
    case _ => 3
  }

  datatype Job = Job(
    asset: string, operation: string, status: Status, stage: string, progress: int,
    cancelRequested: bool, message: Option<string>, startedAt: Option<string>, finishedAt: Option<string>)

  type Jobs = map<string, Job>

  datatype Request = Request(jobId: string, asset: string, operation: string)

  // ---- Admission ----

  function Stripped(r: Request): Request {
    Request(T.Trim(r.jobId), T.Trim(r.asset), T.Trim(r.operation))
  }

  function StrippedAll(batch: seq<Request>): (rs: seq<Request>)
    ensures |rs| == |batch|
  {
    seq(|batch|, i requires 0 <= i < |batch| => Stripped(batch[i]))
  }

  /** A batch that is not refused with an error; what the table holds has no part in it. */
  predicate WellFormed(rs: seq<Request>) {
    && 1 <= |rs| <= JOB_LIMIT
    && (forall i :: 0 <= i < |rs| ==> rs[i].jobId != "" && rs[i].asset != "" && rs[i].operation != "")
    && (forall i, j :: 0 <= i < j < |rs| ==> rs[i].jobId != rs[j].jobId && rs[i].asset != rs[j].asset)
  }

  function Active(jobs: Jobs): set<string> {
    set id | id in jobs && IsActive(jobs[id].status)
  }

  predicate HasRoom(jobs: Jobs, rs: seq<Request>) {
    && |Active(jobs)| + |rs| <= JOB_LIMIT
    && (forall id, r :: id in Active(jobs) && r in rs ==> jobs[id].asset != r.asset)
  }

  predicate Admissible(jobs: Jobs, rs: seq<Request>) {
    HasRoom(jobs, rs) && forall r :: r in rs ==> r.jobId !in jobs
  }

  function NewJob(r: Request): Job {
    Job(r.asset, r.operation, Queued, "queued", 0, false, None, None, None)
  }

  function InsertAll(jobs: Jobs, rs: seq<Request>): Jobs {
    if rs == [] then jobs
    else InsertAll(jobs, rs[..|rs| - 1])[rs[|rs| - 1].jobId := NewJob(rs[|rs| - 1])]
  }

  /** All of a batch or nothing of it. */
  function AfterCreate(jobs: Jobs, batch: seq<Request>): Jobs {
    var rs := StrippedAll(batch);
    if WellFormed(rs) && Admissible(jobs, rs) then InsertAll(jobs, rs) else jobs
  }

  // ---- The other operations on one row ----

  function Clamp(percent: int): int {
    if percent < 0 then 0 else if percent > 100 then 100 else percent
  }

  function Max(a: int, b: int): int {
    if a > b then a else b
  }

  function Started(j: Job, now: string): Job {
    if j.status != Queued then j
    else j.(status := if j.cancelRequested then Cancelling else Running,
            stage := if j.cancelRequested then "cancelling" else "starting",
            progress := Max(j.progress, 5),
            startedAt := if j.startedAt.Some? then j.startedAt else Some(now))
  }

  function Updated(j: Job, stage: string, percent: int): Job {
    j.(stage := stage, progress := Max(j.progress, Clamp(percent)))
  }

  function CancelledJob(j: Job): Job {
    if IsActive(j.status) then j.(cancelRequested := true, status := Cancelling, stage := "cancelling") else j
  }

  function Finished(j: Job, status: Status, stage: string, message: Option<string>, now: string): Job {
    j.(status := status, stage := stage, message := message,
       progress := if status == Completed then 100 else j.progress, finishedAt := Some(now))
  }

  function InterruptedJob(j: Job, now: string): Job {
    if !IsActive(j.status) then j
    else j.(status := Interrupted, stage := "interrupted",
            message := Some("Application restarted before the asset card build finished."), finishedAt := Some(now))
  }

  // ---- Runs ----

  datatype Step =
    | Create(batch: seq<Request>)
    | Start(id: string, now: string)
    | Update(id: string, stage: string, percent: int)
    | Cancel(id: string)
    | Finish(id: string, status: Status, stage: string, message: Option<string>, now: string)
    | Interrupt(now: string)

  /** Callers finish jobs with a terminal status. */
  predicate Allowed(s: Step) {
    s.Finish? ==> !IsActive(s.status)
  }

  function Apply(jobs: Jobs, s: Step): Jobs {
    match s
    case Create(batch) => AfterCreate(jobs, batch)
    case Start(id, now) => if id in jobs then jobs[id := Started(jobs[id], now)] else jobs
    case Update(id, stage, percent) => if id in jobs then jobs[id := Updated(jobs[id], stage, percent)] else jobs
    case Cancel(id) => if id in jobs then jobs[id := CancelledJob(jobs[id])] else jobs
    case Finish(id, status, stage, message, now) =>
      if id in jobs then jobs[id := Finished(jobs[id], status, stage, message, now)] else jobs
    case Interrupt(now) => map id | id in jobs :: InterruptedJob(jobs[id], now)
  }

  function Run(jobs: Jobs, steps: seq<Step>): Jobs {
    if steps == [] then jobs else Apply(Run(jobs, steps[..|steps| - 1]), steps[|steps| - 1])
  }

  // ---- What every step keeps ----

  predicate SoundJob(j: Job) {
    && 0 <= j.progress <= 100
    && (j.cancelRequested ==> j.status !in {Queued, Running})
    && (j.status == Completed ==> j.progress == 100)
    && (j.finishedAt.Some? <==> !IsActive(j.status))
  }

  predicate AllSound(jobs: Jobs) {
    forall id :: id in jobs ==> SoundJob(jobs[id])
  }

  /** Active jobs are about different assets. */
  predicate Distinct(jobs: Jobs) {
    forall a, b :: a in Active(jobs) && b in Active(jobs) && jobs[a].asset == jobs[b].asset ==> a == b
  }

  predicate Invariant(jobs: Jobs) {
    |Active(jobs)| <= JOB_LIMIT && Distinct(jobs) && AllSound(jobs)
  }

  /** How a row may change: forward only. */
  predicate Advances(a: Job, b: Job) {
    && b.asset == a.asset && b.operation == a.operation
    && Rank(a.status) <= Rank(b.status)
    && a.progress <= b.progress
    && (a.cancelRequested ==> b.cancelRequested)
  }

  predicate AllAdvance(jobs: Jobs, jobs': Jobs) {
    forall id :: id in jobs ==> id in jobs' && Advances(jobs[id], jobs'[id])
  }

  function ActiveAssets(jobs: Jobs): set<string> {
    set id | id in Active(jobs) :: jobs[id].asset
  }

  function Ids(rs: seq<Request>): set<string> {
    set r | r in rs :: r.jobId
  }

  function Assets(rs: seq<Request>): set<string> {
    set r | r in rs :: r.asset
  }

  lemma InsertOne(jobs: Jobs, r: Request)
    requires r.jobId !in jobs && r.asset !in ActiveAssets(jobs) && Distinct(jobs) && AllSound(jobs)
    ensures var jobs' := jobs[r.jobId := NewJob(r)];
      && Distinct(jobs') && AllSound(jobs') && |Active(jobs')| == |Active(jobs)| + 1
      && ActiveAssets(jobs') == ActiveAssets(jobs) + {r.asset}
  {
    hide SoundJob;
    var jobs' := jobs[r.jobId := NewJob(r)];
    assert Active(jobs') == Active(jobs) + {r.jobId};
    forall id | id in Active(jobs)
      ensures jobs'[id].asset in ActiveAssets(jobs)
    {
    }
    assert jobs'[r.jobId].asset == r.asset;
    assert ActiveAssets(jobs') == ActiveAssets(jobs) + {r.asset};
    NewJobIsSound(r);
  }

  lemma NewJobIsSound(r: Request)
    ensures SoundJob(NewJob(r))
  {
  }

  lemma {:induction false} InsertAllKeeps(jobs: Jobs, rs: seq<Request>)
    requires Distinct(jobs) && AllSound(jobs) && Ids(rs) !! jobs.Keys && Assets(rs) !! ActiveAssets(jobs)
    requires forall i, j :: 0 <= i < j < |rs| ==> rs[i].jobId != rs[j].jobId && rs[i].asset != rs[j].asset
    ensures var jobs' := InsertAll(jobs, rs);
      && Distinct(jobs') && AllSound(jobs') && |Active(jobs')| == |Active(jobs)| + |rs|
      && ActiveAssets(jobs') == ActiveAssets(jobs) + Assets(rs)
      && jobs'.Keys == jobs.Keys + Ids(rs)
      && (forall id :: id in jobs ==> jobs'[id] == jobs[id])
      && (forall r :: r in rs ==> jobs'[r.jobId] == NewJob(r))
  {
    if rs != [] {
      var front, last := rs[..|rs| - 1], rs[|rs| - 1];
      LastIsFresh(rs);
      InsertAllKeeps(jobs, front);
      hide Ids;
      hide Assets;
      hide ActiveAssets;
      hide Distinct;
      hide AllSound;
      hide Active;
      InsertOne(InsertAll(jobs, front), last);
      assert forall r :: r in rs ==> r in front || r == last;
    }
  }

  lemma LastIsFresh(rs: seq<Request>)
    requires rs != []
    requires forall i, j :: 0 <= i < j < |rs| ==> rs[i].jobId != rs[j].jobId && rs[i].asset != rs[j].asset
    ensures var front, last := rs[..|rs| - 1], rs[|rs| - 1];
      && Ids(rs) == Ids(front) + {last.jobId} && last.jobId !in Ids(front)
      && Assets(rs) == Assets(front) + {last.asset} && last.asset !in Assets(front)
      && forall r :: r in rs <==> r in front || r == last
  {
  }

  lemma RoomMeansFresh(jobs: Jobs, rs: seq<Request>)
    requires Admissible(jobs, rs)
    ensures Ids(rs) !! jobs.Keys && Assets(rs) !! ActiveAssets(jobs)
  {
  }

  lemma CreateKeepsInvariant(jobs: Jobs, batch: seq<Request>)
    requires Invariant(jobs)
    ensures Invariant(AfterCreate(jobs, batch)) && AllAdvance(jobs, AfterCreate(jobs, batch))
  {
    var rs := StrippedAll(batch);
    if WellFormed(rs) && Admissible(jobs, rs) {
      RoomMeansFresh(jobs, rs);
      InsertAllKeeps(jobs, rs);
    }
  }

  /** One row changed, active only if it was. */
  lemma RowKeepsInvariant(jobs: Jobs, id: string, j: Job)
    requires Invariant(jobs) && id in jobs && SoundJob(j) && Advances(jobs[id], j)
    ensures Invariant(jobs[id := j]) && AllAdvance(jobs, jobs[id := j])
  {
    var jobs' := jobs[id := j];
    assert Active(jobs') <= Active(jobs);
    Sets.SubsetSize(Active(jobs'), Active(jobs));
  }

  lemma StepKeepsInvariant(jobs: Jobs, s: Step)
    requires Invariant(jobs) && Allowed(s)
    ensures Invariant(Apply(jobs, s)) && AllAdvance(jobs, Apply(jobs, s))
  {
    hide Active;
    match s
    case Create(batch) => CreateKeepsInvariant(jobs, batch);
    case Start(id, now) => if id in jobs { RowKeepsInvariant(jobs, id, Started(jobs[id], now)); }
    case Update(id, stage, percent) => if id in jobs { RowKeepsInvariant(jobs, id, Updated(jobs[id], stage, percent)); }
    case Cancel(id) => if id in jobs { RowKeepsInvariant(jobs, id, CancelledJob(jobs[id])); }
    case Finish(id, status, stage, message, now) =>
      if id in jobs { RowKeepsInvariant(jobs, id, Finished(jobs[id], status, stage, message, now)); }
    case Interrupt(now) => InterruptKeepsInvariant(jobs, now);
  }

  lemma InterruptKeepsInvariant(jobs: Jobs, now: string)
    requires Invariant(jobs)
    ensures var jobs' := Apply(jobs, Interrupt(now));
      Invariant(jobs') && AllAdvance(jobs, jobs') && Active(jobs') == {}
  {
    hide SoundJob;
    hide Advances;
    hide InterruptedJob;
    var jobs' := Apply(jobs, Interrupt(now));
    forall id | id in jobs'
      ensures SoundJob(jobs'[id]) && !IsActive(jobs'[id].status) && Advances(jobs[id], jobs'[id])
    {
      InterruptedIsSound(jobs[id], now);
    }
    assert Active(jobs') == {};
  }

  lemma InterruptedIsSound(j: Job, now: string)
    requires SoundJob(j)
    ensures var j' := InterruptedJob(j, now);
      SoundJob(j') && !IsActive(j'.status) && Advances(j, j')
  {
  }

  /**
   Over every run: never more than the limit of active jobs, all on different assets; progress within bounds
   and never falling; no status ever moving back, so that a job once over stays over.
   */
  lemma {:induction false} RunsAreSafe(jobs: Jobs, steps: seq<Step>)
    requires Invariant(jobs) && forall s :: s in steps ==> Allowed(s)
    ensures Invariant(Run(jobs, steps)) && AllAdvance(jobs, Run(jobs, steps))
    decreases |steps|
  {
    if steps != [] {
      var front := steps[..|steps| - 1];
      RunsAreSafe(jobs, front);
      StepKeepsInvariant(Run(jobs, front), steps[|steps| - 1]);
    }
  }

  /** From an empty table. */
  lemma RunsFromEmpty(steps: seq<Step>)
    requires forall s :: s in steps ==> Allowed(s)
    ensures Invariant(Run(map[], steps))
  {
    assert Active(map[]) == {};
    RunsAreSafe(map[], steps);
  }

  /** A queued job was never asked to cancel, so starting it always sets it running. */
  lemma StartAlwaysRuns(steps: seq<Step>, id: string, now: string)
    requires forall s :: s in steps ==> Allowed(s)
    requires id in Run(map[], steps) && Run(map[], steps)[id].status == Queued
    ensures Apply(Run(map[], steps), Start(id, now))[id].status == Running
  {
    RunsFromEmpty(steps);
  }

  /** A batch is admitted wholly or not at all. */
  lemma CreateIsAllOrNothing(jobs: Jobs, batch: seq<Request>)
    requires Distinct(jobs) && AllSound(jobs)
    ensures var rs, jobs' := StrippedAll(batch), AfterCreate(jobs, batch);
      if WellFormed(rs) && Admissible(jobs, rs)
      then jobs'.Keys == jobs.Keys + Ids(rs)
           && (forall r :: r in rs ==> jobs'[r.jobId] == NewJob(r))
           && (forall id :: id in jobs ==> jobs'[id] == jobs[id])
      else jobs' == jobs
  {
    var rs := StrippedAll(batch);
    if WellFormed(rs) && Admissible(jobs, rs) {
      RoomMeansFresh(jobs, rs);
      InsertAllKeeps(jobs, rs);
    }
  }

  datatype Outcome = InvalidBatch | Refused | Admitted(jobs: seq<Job>)

  class Table {
    var jobs: Jobs

    ghost predicate Valid()
      reads this
    {
      Invariant(jobs)
    }

    constructor ()
      ensures Valid() && jobs == map[]
    {
      jobs := map[];
      new;
      assert Active(map[]) == {};
    }

    /** Inserts row by row and takes everything back when one id is already there. */
    method CreateBatch(batch: seq<Request>) returns (r: Outcome)
      requires Valid()
      modifies this
      ensures Valid() && jobs == Apply(old(jobs), Create(batch))
      ensures r.InvalidBatch? <==> !WellFormed(StrippedAll(batch))
      ensures r.Admitted? <==> WellFormed(StrippedAll(batch)) && Admissible(old(jobs), StrippedAll(batch))
      ensures r.Admitted? ==>
        |r.jobs| == |batch| && forall i :: 0 <= i < |batch| ==> r.jobs[i] == NewJob(Stripped(batch[i]))
    {
      StepKeepsInvariant(jobs, Create(batch));
      var rs := StrippedAll(batch);
      if !WellFormed(rs) {
        return InvalidBatch;
      }
      if !HasRoom(jobs, rs) {
        return Refused;
      }
      r := InsertBatch(rs);
    }

    /** The inserts of one transaction. */
    method InsertBatch(rs: seq<Request>) returns (r: Outcome)
      requires WellFormed(rs)
      modifies this
      ensures r.Admitted? <==> Ids(rs) !! old(jobs).Keys
      ensures if r.Admitted? then jobs == InsertAll(old(jobs), rs) else r == Refused && jobs == old(jobs)
      ensures r.Admitted? ==> |r.jobs| == |rs| && forall i :: 0 <= i < |rs| ==> r.jobs[i] == NewJob(rs[i])
    {
      hide NewJob;
      hide Assets;
      var before := jobs;
      var admitted := [];
      for i := 0 to |rs|
        invariant jobs == InsertAll(before, rs[..i])
        invariant Ids(rs[..i]) !! before.Keys && jobs.Keys == before.Keys + Ids(rs[..i])
        invariant |admitted| == i && forall k :: 0 <= k < i ==> admitted[k] == NewJob(rs[k])
      {
        assert rs[..i + 1][..i] == rs[..i];
        LastIsFresh(rs[..i + 1]);
        if rs[i].jobId in jobs {
          assert rs[i] in rs;
          jobs := before;
          return Refused;
        }
        jobs := jobs[rs[i].jobId := NewJob(rs[i])];
        admitted := admitted + [NewJob(rs[i])];
      }
      assert rs[..|rs|] == rs;
      r := Admitted(admitted);
    }

    method StartJob(id: string, now: string) returns (row: Option<Job>)
      requires Valid()
      modifies this
      ensures Valid() && jobs == Apply(old(jobs), Start(id, now)) && AllAdvance(old(jobs), jobs)
      ensures row.Some? <==> id in old(jobs) && old(jobs)[id].status == Queued
      ensures row.Some? ==> row.value == jobs[id] && row.value.status == Running
    {
      StepKeepsInvariant(jobs, Start(id, now));
      if id in jobs && jobs[id].status == Queued {
        jobs := jobs[id := Started(jobs[id], now)];
        row := Some(jobs[id]);
      } else {
        row := None;
        assert id in jobs ==> jobs[id := jobs[id]] == jobs;
      }
    }

    method UpdateJob(id: string, stage: string, percent: int) returns (row: Option<Job>)
      requires Valid()
      modifies this
      ensures Valid() && jobs == Apply(old(jobs), Update(id, stage, percent)) && AllAdvance(old(jobs), jobs)
      ensures row == if id in old(jobs) then Some(jobs[id]) else None
    {
      StepKeepsInvariant(jobs, Update(id, stage, percent));
      if id in jobs {
        jobs := jobs[id := Updated(jobs[id], stage, percent)];
        row := Some(jobs[id]);
      } else {
        row := None;
      }
    }

    method RequestCancel(id: string) returns (row: Option<Job>)
      requires Valid()
      modifies this
      ensures Valid() && jobs == Apply(old(jobs), Cancel(id)) && AllAdvance(old(jobs), jobs)
      ensures row.Some? <==> id in Active(old(jobs))
      ensures row.Some? ==> row.value == jobs[id] && row.value.cancelRequested
    {
      StepKeepsInvariant(jobs, Cancel(id));
      if id in jobs && IsActive(jobs[id].status) {
        jobs := jobs[id := CancelledJob(jobs[id])];
        row := Some(jobs[id]);
      } else {
        row := None;
        assert id in jobs ==> jobs[id := jobs[id]] == jobs;
      }
    }

    method FinishJob(id: string, status: Status, stage: string, message: Option<string>, now: string)
      returns (row: Option<Job>)
      requires Valid() && !IsActive(status)
      modifies this
      ensures Valid() && jobs == Apply(old(jobs), Finish(id, status, stage, message, now))
        && AllAdvance(old(jobs), jobs)
      ensures row == if id in old(jobs) then Some(jobs[id]) else None
    {
      StepKeepsInvariant(jobs, Finish(id, status, stage, message, now));
      if id in jobs {
        jobs := jobs[id := Finished(jobs[id], status, stage, message, now)];
        row := Some(jobs[id]);
      } else {
        row := None;
      }
    }

    /** Ends every active job at a restart, and counts them. */
    method InterruptActive(now: string) returns (count: nat)
      requires Valid()
      modifies this
      ensures Valid() && jobs == Apply(old(jobs), Interrupt(now)) && AllAdvance(old(jobs), jobs)
      ensures Active(jobs) == {} && count == |Active(old(jobs))|
    {
      InterruptKeepsInvariant(jobs, now);
      count := |Active(jobs)|;
      jobs := map id | id in jobs :: InterruptedJob(jobs[id], now);
    }
  }
}
