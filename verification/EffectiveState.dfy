/** The progress of a task, projected from its record and its jobs (malong/workflow/effective-state.js). */
module EffectiveState {
  import opened Common
  import opened CheckAttempts

  datatype Task = Task(lifecycle: string, ops: seq<Op>, resultKind: string)

  /** What the evidence says: whether the result is out of date, and whether pending work is the reason. */
  datatype Freshness = Freshness(stale: bool, pendingWork: bool)

  datatype Progress = Cancelled | Terminal | InFlight | Indeterminate | Stale | Partial | Done | Open

  datatype FlightKind = JobFlight | OpFlight | IndeterminateFlight

  datatype Flight = Flight(kind: FlightKind, count: nat)

  predicate IsTerminal(lifecycle: string) {
    lifecycle in ["cancelled", "completed", "done", "abandoned"]
  }

  predicate JobLive(j: Job) {
    j.state == "running" || j.state == "cancelling"
  }

  predicate OpActive(o: Op) {
    o.state == "prepared" || o.state == "running"
  }

  /** Interrupted, and not a check that a newer one has settled: a write is never settled by a check. */
  predicate OpUnsettled(o: Op, settled: set<string>) {
    o.state == "indeterminate" && !(o.kind == "check" && o.id != "" && o.id in settled)
  }

  function UnsettledOps(ops: seq<Op>, settled: set<string>): (r: seq<Op>)
    ensures r == [] <==> forall o :: o in ops ==> !OpUnsettled(o, settled)
  {
    if ops == [] then []
    else
      assert ops == [ops[0]] + ops[1..];
      (if OpUnsettled(ops[0], settled) then [ops[0]] else []) + UnsettledOps(ops[1..], settled)
  }

  function ActiveOps(ops: seq<Op>): (r: seq<Op>)
    ensures r == [] <==> forall o :: o in ops ==> !OpActive(o)
  {
    if ops == [] then []
    else
      assert ops == [ops[0]] + ops[1..];
      (if OpActive(ops[0]) then [ops[0]] else []) + ActiveOps(ops[1..])
  }

  /** inflightFacts: a live job comes before active operations, those before interrupted ones. */
  function InflightFacts(ops: seq<Op>, jobs: seq<Job>, settled: set<string>): Option<Flight> {
    var unsettled := UnsettledOps(ops, settled);
    var active := ActiveOps(ops);
    if exists j :: j in jobs && JobLive(j) then Some(Flight(JobFlight, 1 + |active| + |unsettled|))
    else if active != [] then Some(Flight(OpFlight, |active| + |unsettled|))
    else if unsettled != [] then Some(Flight(IndeterminateFlight, |unsettled|))
    else None
  }

  /** The stale mark that remains when pending work is only what has been settled. */
  function StillStale(evidence: Freshness, ops: seq<Op>, settled: set<string>): bool {
    evidence.stale && !(evidence.pendingWork && UnsettledOps(ops, settled) == [])
  }

  /** The decision chain of projectEffectiveState. */
  function ProgressOf(task: Task, flight: Option<Flight>, unresolved: bool, stale: bool): Progress {
    if task.lifecycle == "cancelled" then Cancelled
    else if IsTerminal(task.lifecycle) then Terminal
    else if flight.Some? && !flight.value.kind.IndeterminateFlight? then InFlight
    else if flight.Some? then Indeterminate
    else if unresolved then Indeterminate
    else if stale then Stale
    else if task.resultKind == "partial" then Partial
    else if task.resultKind == "validated" then Done
    else Open
  }

  ghost predicate IdsOf(resolutions: seq<Resolution>, ids: set<string>) {
    forall id :: id in ids <==> id != "" && exists r :: r in resolutions && r.resolvedBy.Some? && r.attempt.opId == id
  }

  /** resolvedStoppedCheckOperationIds */
  method SettledIds(resolutions: seq<Resolution>) returns (ids: set<string>)
    ensures IdsOf(resolutions, ids)
  {
    ids := {};
    for i := 0 to |resolutions|
      invariant forall id ::
                id in ids <==>
                    id != "" &&
                        exists k :: 0 <= k < i && resolutions[k].resolvedBy.Some? && resolutions[k].attempt.opId == id
    {
      if resolutions[i].resolvedBy.Some? && resolutions[i].attempt.opId != "" {
        ids := ids + {resolutions[i].attempt.opId};
      }
    }
  }

  // ---- What done means ----

  /** Which stopped checks count as settled: those with a newer covering attempt, or also those with one that shares
      their time and id. */
  ghost predicate SettledIn(coll: Collation, attempts: seq<Attempt>, a: Attempt, ties: bool) {
    if ties then SettledOrTied(coll, attempts, a) else Settled(coll, attempts, a)
  }

  /** The stopped check recorded under this operation id has been settled. */
  ghost predicate CheckSettled(coll: Collation, attempts: seq<Attempt>, id: string, ties: bool) {
    id != "" && exists a :: a in attempts && Stopped(a) && SettledIn(coll, attempts, a, ties) && a.opId == id
  }

  ghost predicate AllSettled(coll: Collation, attempts: seq<Attempt>, ties: bool) {
    forall a :: a in attempts && Stopped(a) ==> SettledIn(coll, attempts, a, ties)
  }

  /** Nothing runs, nothing was interrupted except checks since settled, every stopped check has been settled, the
      evidence is up to date, and the result was validated. */
  ghost predicate Finished(coll: Collation, task: Task, jobs: seq<Job>, evidence: Freshness, ties: bool) {
    var attempts := Unsorted(task.ops, jobs);
    && task.lifecycle !in {"cancelled", "completed", "done", "abandoned"} && !Running(task, jobs)
    && (forall o ::
           o in task.ops && o.state == "indeterminate" ==>
               o.kind == "check" && CheckSettled(coll, attempts, o.id, ties))
    && AllSettled(coll, attempts, ties)
    && !(evidence.stale && !evidence.pendingWork)
    && task.resultKind == "validated"
  }

  lemma {:induction false} SettledSame(coll: Collation, s: seq<Attempt>, t: seq<Attempt>, a: Attempt)
    requires forall x :: x in s <==> x in t
    ensures Settled(coll, s, a) <==> Settled(coll, t, a)
    ensures SettledOrTied(coll, s, a) <==> SettledOrTied(coll, t, a)
  {
  }

  /** The ids that the resolutions settle are those of settled checks, up to ties. */
  lemma {:induction false} IdsAreSettled(coll: Collation, attempts: seq<Attempt>, sorted: seq<Attempt>,
                                         resolutions: seq<Resolution>, ids: set<string>)
    requires Lawful(coll) && forall x :: x in sorted <==> x in attempts
    requires AllResolved(coll, sorted, resolutions) && IdsOf(resolutions, ids)
    ensures forall id :: CheckSettled(coll, attempts, id, false) ==> id in ids
    ensures forall id :: id in ids ==> CheckSettled(coll, attempts, id, true)
    ensures AllSettled(coll, attempts, false) ==> forall r :: r in resolutions ==> r.resolvedBy.Some?
    ensures (forall r :: r in resolutions ==> r.resolvedBy.Some?) ==> AllSettled(coll, attempts, true)
  {
    forall a ensures Settled(coll, sorted, a) <==> Settled(coll, attempts, a)
             ensures SettledOrTied(coll, sorted, a) <==> SettledOrTied(coll, attempts, a) {
      SettledSame(coll, sorted, attempts, a);
    }
    forall id | id in ids ensures CheckSettled(coll, attempts, id, true) {
      var r :| r in resolutions && r.resolvedBy.Some? && r.attempt.opId == id;
      assert Right(coll, sorted, r) && r.attempt in sorted && Stopped(r.attempt);
    }
    forall id | CheckSettled(coll, attempts, id, false) ensures id in ids {
      var a :| a in attempts && Stopped(a) && Settled(coll, attempts, a) && a.opId == id;
      assert a in sorted;
      var r :| r in resolutions && r.attempt == a;
      assert Right(coll, sorted, r);
    }
    forall r | r in resolutions ensures AllSettled(coll, attempts, false) ==> r.resolvedBy.Some? {
      assert Right(coll, sorted, r) && r.attempt in sorted && Stopped(r.attempt);
    }
    if forall r :: r in resolutions ==> r.resolvedBy.Some? {
      forall a | a in attempts && Stopped(a) ensures SettledOrTied(coll, attempts, a) {
        assert a in sorted;
        var r :| r in resolutions && r.attempt == a;
        assert Right(coll, sorted, r);
      }
    }
  }

  /** The chain says done of every finished task, and of no other. */
  lemma {:induction false} DoneIsFinished(coll: Collation, task: Task, jobs: seq<Job>, evidence: Freshness,
                                          ids: set<string>, unresolved: bool)
    ensures var done := ProgressOf(task, InflightFacts(task.ops, jobs, ids), unresolved,
              StillStale(evidence, task.ops, ids)) == Done;
            var attempts := Unsorted(task.ops, jobs);
            && ((forall id :: CheckSettled(coll, attempts, id, false) ==> id in ids) &&
                   (AllSettled(coll, attempts, false) ==> !unresolved) ==>
                  Finished(coll, task, jobs, evidence, false) ==> done)
            && ((forall id :: id in ids ==> CheckSettled(coll, attempts, id, true)) &&
                   (!unresolved ==> AllSettled(coll, attempts, true)) ==>
                  done ==> Finished(coll, task, jobs, evidence, true))
  {
    assert UnsettledOps(task.ops, ids) == [] <==> forall o :: o in task.ops ==> !OpUnsettled(o, ids);
    assert ActiveOps(task.ops) == [] <==> forall o :: o in task.ops ==> !OpActive(o);
    AnswersMeaning(task, jobs, evidence, ids, unresolved);
  }

  /** Without ties the two readings of finished agree. */
  lemma {:induction false} FinishedWithoutTies(coll: Collation, task: Task, jobs: seq<Job>, evidence: Freshness)
    requires Lawful(coll) && OneStatePerKey(Unsorted(task.ops, jobs))
    ensures Finished(coll, task, jobs, evidence, true) <==> Finished(coll, task, jobs, evidence, false)
  {
    var attempts := Unsorted(task.ops, jobs);
    forall a | a in attempts && Stopped(a)
      ensures SettledIn(coll, attempts, a, true) <==> SettledIn(coll, attempts, a, false)
    {
      TiesSettleNothing(coll, attempts, a);
    }
    forall id ensures CheckSettled(coll, attempts, id, true) <==> CheckSettled(coll, attempts, id, false) {
    }
  }

  lemma {:induction false} InFlightIsActive(task: Task, jobs: seq<Job>, ids: set<string>, unresolved: bool, stale: bool)
    ensures ProgressOf(task, InflightFacts(task.ops, jobs, ids), unresolved, stale) == InFlight <==> Active(task, jobs)
  {
    assert ActiveOps(task.ops) == [] <==> forall o :: o in task.ops ==> !OpActive(o);
    assert (exists j :: j in jobs && JobLive(j)) <==>
        exists j :: j in jobs && (j.state == "running" || j.state == "cancelling");
    assert (exists o :: o in task.ops && OpActive(o)) <==>
        exists o :: o in task.ops && (o.state == "prepared" || o.state == "running");
  }

  /** Some operation was interrupted and has not been settled. */
  ghost predicate Interrupted(task: Task, ids: set<string>) {
    exists o :: o in task.ops && o.state == "indeterminate" && !(o.kind == "check" && o.id != "" && o.id in ids)
  }

  ghost predicate Running(task: Task, jobs: seq<Job>) {
    || (exists j :: j in jobs && (j.state == "running" || j.state == "cancelling"))
    || (exists o :: o in task.ops && (o.state == "prepared" || o.state == "running"))
  }

  /** Every answer of the decision chain. */
  lemma {:induction false} AnswersMeaning(task: Task, jobs: seq<Job>, evidence: Freshness, ids: set<string>,
                                          unresolved: bool)
    ensures var p := ProgressOf(task, InflightFacts(task.ops, jobs, ids), unresolved,
              StillStale(evidence, task.ops, ids));
            var closed := task.lifecycle in {"cancelled", "completed", "done", "abandoned"};
            var uncertain := Interrupted(task, ids) || unresolved;
            var quiet := !closed && !Running(task, jobs) && !uncertain;
            var stale := evidence.stale && !evidence.pendingWork;
            && (p == Cancelled <==> task.lifecycle == "cancelled")
            && (p == Terminal <==> closed && task.lifecycle != "cancelled")
            && (p == InFlight <==> !closed && Running(task, jobs))
            && (p == Indeterminate <==> !closed && !Running(task, jobs) && uncertain)
            && (p == Stale <==> quiet && stale)
            && (p == Partial <==> quiet && !stale && task.resultKind == "partial")
            && (p == Done <==> quiet && !stale && task.resultKind == "validated")
            && (p == Open <==> quiet && !stale && task.resultKind != "partial" && task.resultKind != "validated")
  {
    assert UnsettledOps(task.ops, ids) == [] <==> forall o :: o in task.ops ==> !OpUnsettled(o, ids);
    assert ActiveOps(task.ops) == [] <==> forall o :: o in task.ops ==> !OpActive(o);
    assert (exists j :: j in jobs && JobLive(j)) <==>
        exists j :: j in jobs && (j.state == "running" || j.state == "cancelling");
  }

  /** How many of the first n operations are running, and how many were interrupted and are not settled. */
  ghost function RunningOps(ops: seq<Op>, n: nat): nat
    requires n <= |ops|
  {
    if n == 0 then 0
    else RunningOps(ops, n - 1) + if ops[n-1].state == "prepared" || ops[n-1].state == "running" then 1 else 0
  }

  ghost function OpenOps(ops: seq<Op>, ids: set<string>, n: nat): nat
    requires n <= |ops|
  {
    if n == 0 then 0
    else
      var o := ops[n-1];
      OpenOps(ops, ids, n - 1) + if o.state == "indeterminate" &&
          !(o.kind == "check" && o.id != "" && o.id in ids) then 1 else 0
  }

  lemma {:induction false} CountFromFront(ops: seq<Op>, ids: set<string>, n: nat)
    requires n < |ops|
    ensures RunningOps(ops, n + 1) == RunningOps(ops, 1) + RunningOps(ops[1..], n)
    ensures OpenOps(ops, ids, n + 1) == OpenOps(ops, ids, 1) + OpenOps(ops[1..], ids, n)
  {
    if n > 0 {
      CountFromFront(ops, ids, n - 1);
      assert ops[n] == ops[1..][n-1];
    }
  }

  lemma {:induction false} CountsOps(ops: seq<Op>, ids: set<string>)
    ensures |ActiveOps(ops)| == RunningOps(ops, |ops|)
    ensures |UnsettledOps(ops, ids)| == OpenOps(ops, ids, |ops|)
  {
    if ops != [] {
      CountsOps(ops[1..], ids);
      CountFromFront(ops, ids, |ops| - 1);
    }
  }

  /** What is reported as in flight: of jobs, operations and interruptions the first kind there is, with the number
      of operations of this and the later kinds, and one more for the jobs. */
  lemma {:induction false} FlightMeaning(ops: seq<Op>, jobs: seq<Job>, ids: set<string>)
    ensures var active, open := RunningOps(ops, |ops|), OpenOps(ops, ids, |ops|);
            InflightFacts(ops, jobs, ids) ==
              if exists j :: j in jobs && (j.state == "running" || j.state == "cancelling") then
                  Some(Flight(JobFlight, 1 + active + open))
              else if active > 0 then Some(Flight(OpFlight, active + open))
              else if open > 0 then Some(Flight(IndeterminateFlight, open)) else None
  {
    CountsOps(ops, ids);
    assert (exists j :: j in jobs && JobLive(j)) <==>
        exists j :: j in jobs && (j.state == "running" || j.state == "cancelling");
  }

  /** A job or an operation is running, and the record is not closed. */
  ghost predicate Active(task: Task, jobs: seq<Job>) {
    task.lifecycle !in {"cancelled", "completed", "done", "abandoned"} && Running(task, jobs)
  }

  /** projectEffectiveState: progress is done exactly when everything is finished; only where attempts of different
      states share an id and a time, the order of the records has a say. */
  method Project(coll: Collation, task: Task, jobs: seq<Job>, evidence: Freshness) returns (progress: Progress)
    requires Lawful(coll)
    ensures Finished(coll, task, jobs, evidence, false) ==> progress == Done
    ensures progress == Done ==> Finished(coll, task, jobs, evidence, true)
    ensures OneStatePerKey(Unsorted(task.ops, jobs)) ==>
              (progress == Done <==> Finished(coll, task, jobs, evidence, false))
    ensures progress == InFlight <==> Active(task, jobs)
    ensures progress == Cancelled <==> task.lifecycle == "cancelled"
    ensures progress == Terminal <==> task.lifecycle in {"completed", "done", "abandoned"}
  {
    var attempts := BuildAttempts(coll, task.ops, jobs);
    var resolutions := StoppedResolutions(coll, attempts);
    var ids := SettledIds(resolutions);
    IdsAreSettled(coll, Unsorted(task.ops, jobs), attempts, resolutions, ids);
    var unresolved := exists r :: r in resolutions && r.resolvedBy.None?;
    DoneIsFinished(coll, task, jobs, evidence, ids, unresolved);
    if OneStatePerKey(Unsorted(task.ops, jobs)) {
      FinishedWithoutTies(coll, task, jobs, evidence);
    }
    AnswersMeaning(task, jobs, evidence, ids, unresolved);
    InFlightIsActive(task, jobs, ids, unresolved, StillStale(evidence, task.ops, ids));
    progress := ProgressOf(task, InflightFacts(task.ops, jobs, ids), unresolved, StillStale(evidence, task.ops, ids));
  }
}
