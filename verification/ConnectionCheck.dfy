/**
 Polling a connection check for the targets that answered, with the predicates that decide which jobs count.
 */
module ConnectionCheck {
  import opened FirstSeen
  import opened JsonValues
  import Text
  import opened Wrappers

  // ---- Statuses ----

  predicate IsAlnum(c: char) {
    'a' <= c <= 'z' || '0' <= c <= '9'
  }

  function Alnums(s: string): string {
    if s == "" then "" else (if IsAlnum(s[0]) then [s[0]] else []) + Alnums(s[1..])
  }

  /** Every status text inside a value, lowered and stripped to letters and digits. */
  function StatusStrings(v: Json): set<string> {
    match v
    case Str(text) => {Alnums(Text.Lower(text))}
    case List(items) => set i, t | 0 <= i < |items| && t in StatusStrings(items[i]) :: t
    case Object(fields) => set i, t | 0 <= i < |fields| && t in StatusStrings(fields[i].1) :: t
    case _ => {}
  }

  const IN_PROGRESS: set<string> :=
    {"inprogress", "running", "started", "assigned", "scheduled", "pending", "queued"}

  const ENDED: set<string> := {"finished", "completed", "failed", "stopped", "suspended"}

  predicate IsFinished(data: Fields) {
    var statuses := StatusStrings(Get(data, "status"));
    if statuses * IN_PROGRESS != {} then false
    else if Truthy(Get(data, "finishedAt")) then true
    else statuses * ENDED != {}
  }

  predicate IsSuccessfulResult(result: Json) {
    && result.Object?
    && "success" in StatusStrings(Get(result.fields, "status"))
    && !Truthy(Get(result.fields, "errors"))
  }

  predicate IsSuccessfulJob(job: Fields) {
    var results := Get(job, "connectionCheckResults");
    && "connectioncheck" in StatusStrings(Get(job, "runMode"))
    && IsFinished(job)
    && results.List?
    && results.items != []
    && forall i :: 0 <= i < |results.items| ==> IsSuccessfulResult(results.items[i])
  }

  // ---- Targets of jobs ----

  /** The non-empty texts of a targets list. */
  function Texts(values: seq<Json>): seq<string> {
    if values == [] then []
    else
      var last := values[|values| - 1];
      Texts(values[..|values| - 1]) + if last.Str? && last.text != "" then [last.text] else []
  }

  function JobTargets(job: Fields): seq<string> {
    var raw := Get(job, "targets");
    if IsSuccessfulJob(job) && raw.List? then Texts(raw.items) else []
  }

  function AllTargets(jobs: seq<Fields>): seq<string> {
    if jobs == [] then [] else AllTargets(jobs[..|jobs| - 1]) + JobTargets(jobs[|jobs| - 1])
  }

  method ExtractSuccessfulTargets(jobs: seq<Fields>) returns (result: seq<string>)
    ensures result == Dedupe(AllTargets(jobs))
  {
    hide IsSuccessfulJob;
    hide Get;
    var targets := [];
    for i := 0 to |jobs|
      invariant targets == AllTargets(jobs[..i])
    {
      assert jobs[..i + 1][..i] == jobs[..i];
      if !IsSuccessfulJob(jobs[i]) {
        continue;
      }
      var raw := Get(jobs[i], "targets");
      if !raw.List? {
        continue;
      }
      for j := 0 to |raw.items|
        invariant targets == AllTargets(jobs[..i]) + Texts(raw.items[..j])
      {
        assert raw.items[..j + 1][..j] == raw.items[..j];
        if raw.items[j].Str? && raw.items[j].text != "" {
          targets := targets + [raw.items[j].text];
        }
      }
      assert raw.items[..|raw.items|] == raw.items;
    }
    assert jobs[..|jobs|] == jobs;
    result := DedupeKeepOrder(targets);
  }

  /** A target that answered: a non-empty name listed by a job all of whose checks succeeded. */
  ghost predicate Answered(jobs: seq<Fields>, target: string) {
    target != "" && exists i :: 0 <= i < |jobs| && Lists(jobs[i], target)
  }

  ghost predicate Lists(job: Fields, target: string) {
    var raw := Get(job, "targets");
    IsSuccessfulJob(job) && raw.List? && Str(target) in raw.items
  }

  lemma {:induction false} TextsAre(values: seq<Json>, t: string)
    ensures t in Texts(values) <==> t != "" && Str(t) in values
  {
    if values != [] {
      var n := |values| - 1;
      TextsAre(values[..n], t);
      assert values == values[..n] + [values[n]];
    }
  }

  lemma {:induction false} AllTargetsAre(jobs: seq<Fields>, t: string)
    ensures t in AllTargets(jobs) <==> Answered(jobs, t)
  {
    hide Lists;
    hide JobTargets;
    if jobs != [] {
      var n := |jobs| - 1;
      AllTargetsAre(jobs[..n], t);
      JobTargetsAre(jobs[n], t);
      assert forall i :: 0 <= i < n ==> jobs[..n][i] == jobs[i];
    }
  }

  lemma JobTargetsAre(job: Fields, t: string)
    ensures t in JobTargets(job) <==> t != "" && Lists(job, t)
  {
    var raw := Get(job, "targets");
    if raw.List? {
      TextsAre(raw.items, t);
    }
  }

  // ---- Polling ----

  /**
   What one turn of the loop reads: the clock at the loop test, the clock before the runs are fetched, the runs, the
   jobs of the first run, and the clock before the stop test. A list of polls that has run out stands for a clock
   that has passed the deadline.
   */
  datatype Poll = Poll(checkedAt: int, now: int, runs: seq<Run>, jobs: seq<Fields>, later: int)

  datatype Run = Run(id: string, data: Fields)

  datatype Exit = Finished | Stopped | TimedOut | StoppedWithoutRun | RunWithoutId

  predicate StopDue(stopAt: Option<int>, now: int) {
    stopAt.Some? && now >= stopAt.value
  }

  predicate HasRun(p: Poll) {
    p.runs != [] && p.runs[0].id != ""
  }

  /** How a turn leaves the loop, if it does. */
  function ExitOf(p: Poll, stopAt: Option<int>): Option<Exit> {
    if p.runs == [] then if StopDue(stopAt, p.now) then Some(StoppedWithoutRun) else None
    else if p.runs[0].id == "" then Some(RunWithoutId)
    else if IsFinished(p.runs[0].data) then Some(Finished)
    else if StopDue(stopAt, p.later) then Some(Stopped)
    else None
  }

  /** The turns taken: every one but the last goes on, and the last one leaves. */
  function Turns(polls: seq<Poll>, deadline: int, stopAt: Option<int>): (n: nat)
    ensures n <= |polls|
  {
    if polls == [] || polls[0].checkedAt >= deadline then 0
    else if ExitOf(polls[0], stopAt).Some? then 1
    else 1 + Turns(polls[1..], deadline, stopAt)
  }

  function ExitAfter(polls: seq<Poll>, stopAt: Option<int>): Exit {
    if polls == [] then TimedOut
    else
      match ExitOf(polls[|polls| - 1], stopAt)
      case Some(exit) => exit
      case None => TimedOut
  }

  /** Every target that answered in the given turns, in the order of the answers. */
  function Answers(polls: seq<Poll>): seq<string> {
    if polls == [] then []
    else
      var last := polls[|polls| - 1];
      Answers(polls[..|polls| - 1]) + if HasRun(last) then AllTargets(last.jobs) else []
  }

  predicate ForgetsTargets(exit: Exit) {
    exit == StoppedWithoutRun || exit == RunWithoutId
  }

  /** The turns a wait takes. */
  function Read(polls: seq<Poll>, deadline: int, stopAt: Option<int>): seq<Poll> {
    polls[..Turns(polls, deadline, stopAt)]
  }

  function Result(polls: seq<Poll>, deadline: int, stopAt: Option<int>): seq<string> {
    var read := Read(polls, deadline, stopAt);
    if ForgetsTargets(ExitAfter(read, stopAt)) then [] else Dedupe(Answers(read))
  }

  /** The first `n` turns are taken and go on. */
  ghost predicate GoesOn(polls: seq<Poll>, deadline: int, stopAt: Option<int>, n: nat) {
    && n <= |polls|
    && (forall i :: 0 <= i < n ==> polls[i].checkedAt < deadline)
    && (forall i :: 0 <= i < n ==> ExitOf(polls[i], stopAt).None?)
  }

  lemma {:induction false} TurnsAre(polls: seq<Poll>, deadline: int, stopAt: Option<int>, n: nat)
    requires GoesOn(polls, deadline, stopAt, n)
    ensures n == |polls| || polls[n].checkedAt >= deadline ==> Turns(polls, deadline, stopAt) == n
    ensures n < |polls| && polls[n].checkedAt < deadline && ExitOf(polls[n], stopAt).Some?
      ==> Turns(polls, deadline, stopAt) == n + 1
  {
    hide ExitOf;
    if n > 0 {
      TurnsAre(polls[1..], deadline, stopAt, n - 1);
    }
  }

  lemma LeavesAt(polls: seq<Poll>, deadline: int, stopAt: Option<int>, n: nat)
    requires GoesOn(polls, deadline, stopAt, n)
    requires n < |polls| && polls[n].checkedAt < deadline && ExitOf(polls[n], stopAt).Some?
    ensures Read(polls, deadline, stopAt) == polls[..n + 1]
    ensures ExitAfter(polls[..n + 1], stopAt) == ExitOf(polls[n], stopAt).value
  {
    hide ExitOf;
    TurnsAre(polls, deadline, stopAt, n);
  }

  lemma TimesOutAt(polls: seq<Poll>, deadline: int, stopAt: Option<int>, n: nat)
    requires GoesOn(polls, deadline, stopAt, n)
    requires n == |polls| || polls[n].checkedAt >= deadline
    ensures Read(polls, deadline, stopAt) == polls[..n]
    ensures ExitAfter(polls[..n], stopAt) == TimedOut
  {
    hide ExitOf;
    TurnsAre(polls, deadline, stopAt, n);
  }

  lemma AnswersGrow(polls: seq<Poll>, i: nat)
    requires i < |polls|
    ensures Dedupe(Answers(polls[..i + 1])) == Dedupe(
        if HasRun(polls[i]) && polls[i].jobs != [] then Dedupe(Answers(polls[..i])) + Dedupe(AllTargets(polls[i].jobs))
        else Answers(polls[..i]))
  {
    hide Dedupe;
    hide HasRun;
    hide JobTargets;
    var before, now := Answers(polls[..i]), AllTargets(polls[i].jobs);
    assert polls[..i + 1][..i] == polls[..i];
    if HasRun(polls[i]) && polls[i].jobs != [] {
      DedupeAsItArrives(before, now);
    } else {
      assert before + [] == before;
    }
  }

  lemma NothingYet()
    ensures Dedupe(Answers([])) == []
  {
  }

  method WaitForTargets(polls: seq<Poll>, deadline: int, stopAt: Option<int>)
    returns (targets: seq<string>, exit: Exit, stops: nat)
    ensures targets == Result(polls, deadline, stopAt)
    ensures exit == ExitAfter(Read(polls, deadline, stopAt), stopAt)
    ensures stops == if exit == Stopped || exit == StoppedWithoutRun then 1 else 0
  {
    hide IsFinished;
    hide Read;
    hide ExitAfter;
    hide Answers;
    hide Dedupe;
    hide AllTargets;
    targets, stops := [], 0;
    var i := 0;
    assert Dedupe(Answers(polls[..0])) == [] by { NothingYet(); }
    while i < |polls| && polls[i].checkedAt < deadline
      invariant GoesOn(polls, deadline, stopAt, i) && stops == 0
      invariant targets == Dedupe(Answers(polls[..i]))
    {
      var p := polls[i];
      AnswersGrow(polls, i);
      if ExitOf(p, stopAt).Some? {
        LeavesAt(polls, deadline, stopAt, i);
      }
      i := i + 1;
      if p.runs == [] {
        if StopDue(stopAt, p.now) {
          return [], StoppedWithoutRun, stops + 1;
        }
        continue;
      }
      if p.runs[0].id == "" {
        return [], RunWithoutId, stops;
      }
      if p.jobs != [] {
        var extracted := ExtractSuccessfulTargets(p.jobs);
        targets := DedupeKeepOrder(targets + extracted);
      }
      if IsFinished(p.runs[0].data) {
        return targets, Finished, stops;
      }
      if StopDue(stopAt, p.later) {
        return targets, Stopped, stops + 1;
      }
    }
    TimesOutAt(polls, deadline, stopAt, i);
    return targets, TimedOut, stops;
  }

  // ---- Nothing is lost while the run stays listed ----

  /** Once a turn has seen a run with an id, so does every later one. */
  ghost predicate RunStays(polls: seq<Poll>) {
    forall i, j :: 0 <= i < j < |polls| && HasRun(polls[i]) ==> HasRun(polls[j])
  }

  /** Some run read in these turns had a job whose checks all succeeded for `t`. */
  ghost predicate Seen(polls: seq<Poll>, t: string) {
    exists i :: 0 <= i < |polls| && HasRun(polls[i]) && Answered(polls[i].jobs, t)
  }

  lemma SeenGrows(polls: seq<Poll>, n: nat, t: string)
    requires |polls| == n + 1
    ensures Seen(polls, t) <==> Seen(polls[..n], t) || (HasRun(polls[n]) && Answered(polls[n].jobs, t))
  {
  }

  lemma {:induction false} AnswersAre(polls: seq<Poll>, t: string)
    ensures t in Answers(polls) <==> Seen(polls, t)
  {
    hide Answered;
    hide AllTargets;
    hide HasRun;
    if polls != [] {
      var n := |polls| - 1;
      AnswersAre(polls[..n], t);
      AllTargetsAre(polls[n].jobs, t);
      SeenGrows(polls, n, t);
    }
  }

  /** The last turn ends the wait without a run: its run has no id, or none is listed and the stop is due. */
  predicate EndsWithoutRun(read: seq<Poll>, stopAt: Option<int>) {
    && read != []
    && var last := read[|read| - 1];
    && !HasRun(last)
    && (last.runs == [] ==> StopDue(stopAt, last.now))
  }

  /** Some turn before the last one saw a target answer. */
  ghost predicate AnsweredBefore(read: seq<Poll>) {
    exists i, t :: 0 <= i < |read| - 1 && HasRun(read[i]) && Answered(read[i].jobs, t)
  }

  /** A wait reports every target that answered, unless some had answered and the run was gone when it ended. */
  lemma ReportsAllExactly(polls: seq<Poll>, deadline: int, stopAt: Option<int>)
    ensures var read := Read(polls, deadline, stopAt);
      Result(polls, deadline, stopAt) == Dedupe(Answers(read))
      <==> !(EndsWithoutRun(read, stopAt) && AnsweredBefore(read))
  {
    hide IsFinished;
    hide Answered;
    hide Answers;
    hide Dedupe;
    var read := Read(polls, deadline, stopAt);
    var answers := Answers(read);
    if EndsWithoutRun(read, stopAt) {
      if AnsweredBefore(read) {
        var i, t :| 0 <= i < |read| - 1 && HasRun(read[i]) && Answered(read[i].jobs, t);
        AnswersAre(read, t);
        DedupeKeepsMembers(answers, t);
      } else {
        NothingAnswered(read);
      }
    }
  }

  lemma NothingAnswered(read: seq<Poll>)
    requires read != [] && !HasRun(read[|read| - 1]) && !AnsweredBefore(read)
    ensures Dedupe(Answers(read)) == []
  {
    hide Answered;
    hide HasRun;
    if Answers(read) != [] {
      AnswersAre(read, Answers(read)[0]);
      assert false;
    }
  }

  /** While the run stays listed, exactly the targets that answered are reported, once each, in the order first seen. */
  lemma NothingIsLost(polls: seq<Poll>, deadline: int, stopAt: Option<int>)
    requires RunStays(Read(polls, deadline, stopAt))
    ensures forall t :: t in Result(polls, deadline, stopAt) <==> Seen(Read(polls, deadline, stopAt), t)
    ensures Distinct(Result(polls, deadline, stopAt))
    ensures InOrder(Result(polls, deadline, stopAt), Answers(Read(polls, deadline, stopAt)))
  {
    hide IsFinished;
    var read := Read(polls, deadline, stopAt);
    var answers := Answers(read);
    forall t ensures t in Dedupe(answers) <==> Seen(read, t) {
      DedupeKeepsMembers(answers, t);
      AnswersAre(read, t);
    }
    ReportsAllExactly(polls, deadline, stopAt);
    DedupeIsDistinct(answers);
    DedupeInOrder(answers);
  }

  lemma {:induction false} PlainStatusIsItself(s: string)
    requires forall i :: 0 <= i < |s| ==> IsAlnum(s[i])
    ensures Alnums(Text.Lower(s)) == s
  {
    if s != "" {
      PlainStatusIsItself(s[1..]);
      assert Text.Lower(s)[1..] == Text.Lower(s[1..]);
      assert s == [s[0]] + s[1..];
    }
  }

  /** Some text anywhere inside a value spells the status, in whatever case and with whatever separators. */
  ghost predicate Spells(v: Json, status: string) {
    match v
    case Str(text) => Alnums(Text.Lower(text)) == status
    case List(items) => exists i :: 0 <= i < |items| && Spells(items[i], status)
    case Object(fields) => exists i :: 0 <= i < |fields| && Spells(fields[i].1, status)
    case _ => false
  }

  lemma {:induction false} StatusesAreSpelled(v: Json, status: string)
    ensures status in StatusStrings(v) <==> Spells(v, status)
  {
    match v
    case List(items) =>
      forall i | 0 <= i < |items| {
        StatusesAreSpelled(items[i], status);
      }
    case Object(fields) =>
      forall i | 0 <= i < |fields| {
        StatusesAreSpelled(fields[i].1, status);
      }
    case _ =>
  }

  /**
   A status that spells an ongoing one keeps a run or job unfinished, even with an end time; otherwise an end time or
   a final status finishes it.
   */
  lemma FinishedExactly(data: Fields)
    ensures var status := Get(data, "status");
      IsFinished(data) <==>
        && !(exists s :: s in IN_PROGRESS && Spells(status, s))
        && (Truthy(Get(data, "finishedAt")) || exists s :: s in ENDED && Spells(status, s))
  {
    hide Get;
    hide Spells;
    hide StatusStrings;
    var status := Get(data, "status");
    var statuses := StatusStrings(status);
    forall s
      ensures s in statuses <==> Spells(status, s)
    {
      StatusesAreSpelled(status, s);
    }
    assert forall s :: s in statuses * IN_PROGRESS <==> s in IN_PROGRESS && Spells(status, s);
    assert forall s :: s in statuses * ENDED <==> s in ENDED && Spells(status, s);
  }

  /** A job as the server reports it when the check of its one target succeeded. */
  function GreenJob(target: string): Fields {
    [("runMode", Str("connectioncheck")), ("status", Str("finished")),
     ("connectionCheckResults", List([Object([("status", Str("success"))])])), ("targets", List([Str(target)]))]
  }

  lemma OneStatus(data: Fields, i: nat, s: string)
    requires i < |data| && data[i] == ("status", Str(s))
    requires forall k :: 0 <= k < i ==> data[k].0 != "status"
    requires forall k :: 0 <= k < |s| ==> IsAlnum(s[k])
    ensures StatusStrings(Get(data, "status")) == {s}
  {
    GetHere(data, i);
    PlainStatusIsItself(s);
  }

  lemma GreenJobSucceeds(target: string)
    ensures IsSuccessfulJob(GreenJob(target)) && Lists(GreenJob(target), target)
  {
    hide Get;
    hide Alnums;
    var job := GreenJob(target);
    GetHere(job, 0);
    GetHere(job, 2);
    GetHere(job, 3);
    PlainStatusIsItself("connectioncheck");
    OneStatus(job, 1, "finished");
    var result := Get(job, "connectionCheckResults").items[0];
    OneStatus(result.fields, 0, "success");
    assert Get(result.fields, "errors") == Null by { GetMissing(result.fields, "errors"); }
    assert Get(job, "finishedAt") == Null by { GetMissing(job, "finishedAt"); }
    assert "finished" in StatusStrings(Get(job, "status")) * ENDED;
  }

  /** The run answers for a target and is then no longer listed when the stop falls due: the target is not reported. */
  lemma VanishedRunLosesTargets(target: string)
    requires target != ""
    ensures var run := Run("1", [("status", Str("running"))]);
      var polls := [Poll(0, 0, [run], [GreenJob(target)], 0), Poll(5, 5, [], [], 5)];
      target in Answers(Read(polls, 9, Some(5))) && Result(polls, 9, Some(5)) == []
  {
    hide IsSuccessfulJob;
    hide Get;
    hide GreenJob;
    var run := Run("1", [("status", Str("running"))]);
    var polls := [Poll(0, 0, [run], [GreenJob(target)], 0), Poll(5, 5, [], [], 5)];
    OneStatus(run.data, 0, "running");
    assert !IsFinished(run.data) by { assert "running" in StatusStrings(Get(run.data, "status")) * IN_PROGRESS; }
    assert GoesOn(polls, 9, Some(5), 1);
    LeavesAt(polls, 9, Some(5), 1);
    GreenJobSucceeds(target);
    assert Lists(polls[0].jobs[0], target);
    assert polls[..2] == polls;
    AnswersAre(polls, target);
  }
}
