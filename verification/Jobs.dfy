/** The job queue: one row per job, every operation one guarded update of the table. */
module Jobs {
  import opened TextOrder
  import Paths

  datatype Option<+T> = None | Some(value: T)
  datatype Result<+T> = Ok(value: T) | Err(error: JobError)
  datatype JobError = KindRequired | WorkerRequired | IdRequired | DuplicateId | NotRunning

  datatype Status = Queued | Running | Paused | Completed | Failed | Canceled

  /** `mount` and `cursor` are what the payload and checkpoint objects carry. */
  datatype Job = Job(
    kind: string, priority: int, status: Status,
    mount: string, cursor: string,
    attempts: nat, maxAttempts: nat,
    claimedBy: Option<string>, createdAt: string)

  type Table = map<string, Job>

  predicate Live(s: Status) { s == Queued || s == Running || s == Paused }

  // ---- The claim order ----

  predicate AnyRunning(jobs: Table)
  {
    exists id :: id in jobs && jobs[id].status == Running
  }

  /** `ORDER BY priority ASC, created_at ASC, id ASC`. */
  predicate Ahead(jobs: Table, a: string, b: string)
    requires a in jobs && b in jobs
  {
    var x, y := jobs[a], jobs[b];
    x.priority < y.priority ||
    (x.priority == y.priority &&
     (Less(x.createdAt, y.createdAt) || (x.createdAt == y.createdAt && Less(a, b))))
  }

  /** The job that `Claim` must take. */
  predicate IsNext(jobs: Table, id: string)
  {
    && !AnyRunning(jobs)
    && id in jobs && jobs[id].status == Queued
    && forall other :: other in jobs && jobs[other].status == Queued && other != id ==> Ahead(jobs, id, other)
  }

  lemma AheadTransitive(jobs: Table, a: string, b: string, c: string)
    requires a in jobs && b in jobs && c in jobs && Ahead(jobs, a, b) && Ahead(jobs, b, c)
    ensures Ahead(jobs, a, c)
  {
    if jobs[a].priority == jobs[b].priority == jobs[c].priority {
      if Less(jobs[a].createdAt, jobs[b].createdAt) && Less(jobs[b].createdAt, jobs[c].createdAt) {
        Transitive(jobs[a].createdAt, jobs[b].createdAt, jobs[c].createdAt);
      } else if jobs[a].createdAt == jobs[b].createdAt == jobs[c].createdAt {
        Transitive(a, b, c);
      }
    }
  }

  lemma AheadTotal(jobs: Table, a: string, b: string)
    requires a in jobs && b in jobs && a != b
    ensures Ahead(jobs, a, b) != Ahead(jobs, b, a)
  {
    Trichotomy(a, b);
    Trichotomy(jobs[a].createdAt, jobs[b].createdAt);
  }

  ghost predicate IsFirst(jobs: Table, ids: set<string>, first: string)
    requires forall id :: id in ids ==> id in jobs
  {
    first in ids && forall other :: other in ids && other != first ==> Ahead(jobs, first, other)
  }

  lemma {:induction false} FirstOf(jobs: Table, ids: set<string>) returns (first: string)
    requires ids != {} && forall id :: id in ids ==> id in jobs
    ensures forall id :: IsFirst(jobs, ids, id) <==> id == first
    decreases |ids|
  {
    var some :| some in ids;
    var rest := ids - {some};
    assert forall other :: other in ids ==> other == some || other in rest;
    if rest == {} {
      first := some;
    } else {
      var best := FirstOf(jobs, rest);
      assert IsFirst(jobs, rest, best);
      AheadTotal(jobs, some, best);
      first := if Ahead(jobs, best, some) then best else some;
      forall other | other in ids && other != first ensures Ahead(jobs, first, other)
      {
        if first == some && other != best { AheadTransitive(jobs, some, best, other); }
      }
    }
    assert first in ids && IsFirst(jobs, ids, first);
    forall id | IsFirst(jobs, ids, id) ensures id == first
    {
      if id != first { AheadTotal(jobs, id, first); }
    }
  }

  // ---- Operations on the table ----

  datatype Op =
    | Enqueue(id: string, kind: string, priority: int, mount: string, cursor: string, maxAttempts: int, now: string)
    | Claim(id: string, worker: string)
    | ClaimByID(id: string, worker: string)
    | SaveCheckpoint(id: string, cursor: string)
    | Requeue(id: string, cursor: string)
    | Pause(id: string)
    | Resume(id: string)
    | Complete(id: string)
    | Fail(id: string)
    | CancelMount(mount: string)

  /** A priority or maximum that is left out has a default. */
  function NewJob(op: Op): (job: Job)
    requires op.Enqueue?
    ensures job.status == Queued && job.attempts == 0 && job.claimedBy == None && job.maxAttempts > 0
    ensures job.kind == op.kind && job.mount == op.mount && job.cursor == op.cursor && job.createdAt == op.now
    ensures job.priority == if op.priority != 0 then op.priority else 100
    ensures job.maxAttempts == if op.maxAttempts > 0 then op.maxAttempts else 3
  {
    Job(op.kind, if op.priority == 0 then 100 else op.priority, Queued, op.mount, op.cursor,
        0, if op.maxAttempts <= 0 then 3 else op.maxAttempts, None, op.now)
  }

  /** The new table; an operation whose guard fails leaves the table alone. */
  function Apply(jobs: Table, op: Op): Table
  {
    match op
    case Enqueue(id, kind, _, _, _, _, _) =>
      if Paths.Blank(kind) || id in jobs then jobs else jobs[id := NewJob(op)]
    case Claim(id, worker) =>
      if !Paths.Blank(worker) && IsNext(jobs, id) then Take(jobs, id, worker) else jobs
    case ClaimByID(id, worker) =>
      if !Paths.Blank(worker) && !AnyRunning(jobs) && Has(jobs, id, {Queued}) then Take(jobs, id, worker) else jobs
    case SaveCheckpoint(id, cursor) =>
      if Has(jobs, id, {Running}) then jobs[id := jobs[id].(cursor := cursor)] else jobs
    case Requeue(id, cursor) =>
      if Has(jobs, id, {Running}) then jobs[id := jobs[id].(status := Queued, cursor := cursor, claimedBy := None)] else jobs
    case Pause(id) => SetStatus(jobs, id, Paused, {Queued, Running})
    case Resume(id) => SetStatus(jobs, id, Queued, {Paused})
    case Complete(id) => SetStatus(jobs, id, Completed, {Running})
    case Fail(id) =>
      if !Has(jobs, id, {Running}) then jobs
      else
        var attempts := jobs[id].attempts + 1;
        jobs[id := jobs[id].(attempts := attempts, claimedBy := None,
                             status := if attempts >= jobs[id].maxAttempts then Failed else Queued)]
    case CancelMount(mount) =>
      map id | id in jobs :: if Live(jobs[id].status) && jobs[id].mount == mount then jobs[id].(status := Canceled) else jobs[id]
  }

  predicate Has(jobs: Table, id: string, allowed: set<Status>)
  {
    id in jobs && jobs[id].status in allowed
  }

  function Take(jobs: Table, id: string, worker: string): Table
    requires id in jobs
  {
    jobs[id := jobs[id].(status := Running, claimedBy := Some(worker))]
  }

  function SetStatus(jobs: Table, id: string, next: Status, allowed: set<Status>): Table
  {
    if Has(jobs, id, allowed) then jobs[id := jobs[id].(status := next, claimedBy := None)] else jobs
  }

  /** Every row but one is as it was. */
  ghost predicate OthersStay(before: Table, after: Table, id: string)
  {
    forall other :: other != id ==>
      (other in before <==> other in after) && (other in before ==> after[other] == before[other])
  }

  class Store {
    var jobs: Table

    constructor ()
      ensures jobs == map[]
    {
      jobs := map[];
    }

    method EnqueueJob(op: Op) returns (r: Result<Job>)
      requires op.Enqueue?
      modifies this
      ensures jobs == Apply(old(jobs), op)
      ensures r.Ok? ==> op.id in jobs && jobs[op.id] == r.value && OthersStay(old(jobs), jobs, op.id)
      ensures r.Ok? <==> !Paths.Blank(op.kind) && op.id !in old(jobs)
      ensures r.Ok? ==> r.value == NewJob(op)
    {
      if Paths.Blank(op.kind) { return Err(KindRequired); }
      if op.id in jobs { return Err(DuplicateId); }
      var job := NewJob(op);
      jobs := jobs[op.id := job];
      return Ok(job);
    }

    /** Takes the first queued job, and none while a job is running. */
    method ClaimNext(worker: string) returns (r: Result<Option<string>>)
      modifies this
      ensures Paths.Blank(worker) ==> r == Err(WorkerRequired) && jobs == old(jobs)
      ensures !Paths.Blank(worker) ==> r.Ok?
      ensures r == Ok(None) ==>
                jobs == old(jobs) && (AnyRunning(jobs) || forall id :: id in jobs ==> jobs[id].status != Queued)
      ensures r.Ok? && r.value.Some? ==>
                IsNext(old(jobs), r.value.value) && jobs == Apply(old(jobs), Claim(r.value.value, worker))
      ensures r.Ok? && r.value.Some? ==>
                var id := r.value.value;
                && id in jobs && jobs[id] == old(jobs)[id].(status := Running, claimedBy := Some(worker))
                && OthersStay(old(jobs), jobs, id)
    {
      if Paths.Blank(worker) { return Err(WorkerRequired); }
      var queued := set id | id in jobs && jobs[id].status == Queued;
      if AnyRunning(jobs) { return Ok(None); }
      if queued == {} {
        assert forall id :: id in jobs ==> id !in queued;
        return Ok(None);
      }
      ghost var first := FirstOf(jobs, queued);
      assert IsFirst(jobs, queued, first);
      assert IsNext(jobs, first);
      var id :| id in queued && IsNext(jobs, id);
      jobs := Take(jobs, id, worker);
      return Ok(Some(id));
    }

    /** Takes the requested job or none. */
    method ClaimRequested(id: string, worker: string) returns (r: Result<bool>)
      modifies this
      ensures jobs == if r.Ok? then Apply(old(jobs), ClaimByID(id, worker)) else old(jobs)
      ensures r.Err? <==> Paths.Blank(id) || Paths.Blank(worker)
      ensures r.Ok? ==> (r.value <==> !AnyRunning(old(jobs)) && Has(old(jobs), id, {Queued}))
      ensures if r == Ok(true)
              then id in jobs && jobs[id] == old(jobs)[id].(status := Running, claimedBy := Some(worker)) &&
                   OthersStay(old(jobs), jobs, id)
              else jobs == old(jobs)
    {
      if Paths.Blank(id) { return Err(IdRequired); }
      if Paths.Blank(worker) { return Err(WorkerRequired); }
      if AnyRunning(jobs) || id !in jobs || jobs[id].status != Queued { return Ok(false); }
      jobs := jobs[id := jobs[id].(status := Running, claimedBy := Some(worker))];
      return Ok(true);
    }

    method RequeueJob(id: string, cursor: string) returns (r: Result<()>)
      modifies this
      ensures jobs == Apply(old(jobs), Requeue(id, cursor))
      ensures r.Ok? <==> Has(old(jobs), id, {Running})
      ensures if r.Ok?
              then id in jobs && jobs[id] == old(jobs)[id].(status := Queued, cursor := cursor, claimedBy := None) &&
                   OthersStay(old(jobs), jobs, id)
              else jobs == old(jobs)
    {
      if id !in jobs || jobs[id].status != Running { return Err(NotRunning); }
      jobs := jobs[id := jobs[id].(status := Queued, cursor := cursor, claimedBy := None)];
      return Ok(());
    }

    method CompleteJob(id: string)
      modifies this
      ensures jobs == Apply(old(jobs), Complete(id))
      ensures if Has(old(jobs), id, {Running})
              then id in jobs && jobs[id] == old(jobs)[id].(status := Completed, claimedBy := None) &&
                   OthersStay(old(jobs), jobs, id)
              else jobs == old(jobs)
    {
      if id in jobs && jobs[id].status == Running {
        jobs := jobs[id := jobs[id].(status := Completed, claimedBy := None)];
      }
    }

    /** Nothing is lost by a failure but one attempt: as long as one is left the job waits in the
        queue again, with its checkpoint, and may be claimed at once if nothing else runs. */
    method FailJob(id: string)
      modifies this
      ensures jobs == Apply(old(jobs), Fail(id))
      ensures !Has(old(jobs), id, {Running}) ==> jobs == old(jobs)
      ensures Has(old(jobs), id, {Running}) ==>
                var before := old(jobs)[id];
                && OthersStay(old(jobs), jobs, id) && id in jobs
                && jobs[id].attempts == before.attempts + 1 && jobs[id].claimedBy == None
                && jobs[id] == before.(attempts := jobs[id].attempts, claimedBy := None, status := jobs[id].status)
                && jobs[id].status == (if before.attempts + 1 < before.maxAttempts then Queued else Failed)
      ensures Valid(old(jobs)) && Has(old(jobs), id, {Running}) ==> !AnyRunning(jobs)
    {
      if id in jobs && jobs[id].status == Running {
        var job := jobs[id];
        var next := if job.attempts + 1 >= job.maxAttempts then Failed else Queued;
        jobs := jobs[id := job.(attempts := job.attempts + 1, status := next, claimedBy := None)];
      }
    }

    method PauseJob(id: string)
      modifies this
      ensures jobs == Apply(old(jobs), Pause(id))
    {
      if id in jobs && (jobs[id].status == Queued || jobs[id].status == Running) {
        jobs := jobs[id := jobs[id].(status := Paused, claimedBy := None)];
      }
    }

    method ResumeJob(id: string)
      modifies this
      ensures jobs == Apply(old(jobs), Resume(id))
    {
      if id in jobs && jobs[id].status == Paused {
        jobs := jobs[id := jobs[id].(status := Queued, claimedBy := None)];
      }
    }
  }

  // ---- Every run ----

  function Run(jobs: Table, ops: seq<Op>): Table
    decreases ops
  {
    if ops == [] then jobs else Run(Apply(jobs, ops[0]), ops[1..])
  }

  ghost predicate Valid(jobs: Table)
  {
    && (forall a, b :: a in jobs && b in jobs && jobs[a].status == Running && jobs[b].status == Running ==> a == b)
    && (forall id :: id in jobs ==> ValidJob(jobs[id]))
  }

  ghost predicate ValidJob(job: Job)
  {
    && (job.status == Running ==> job.claimedBy.Some?)
    && (job.status in {Queued, Paused, Completed, Failed} ==> job.claimedBy.None?)
    && (if job.status == Failed then job.attempts == job.maxAttempts else job.attempts < job.maxAttempts)
  }

  lemma ApplyKeepsValid(jobs: Table, op: Op)
    requires Valid(jobs)
    ensures Valid(Apply(jobs, op))
  {
  }

  /** In every run from an empty queue: at most one job is running; a running job is claimed and
      no waiting or finished one is; attempts stay below the maximum unless the job failed. */
  lemma {:induction false} EveryRunValid(jobs: Table, ops: seq<Op>)
    requires Valid(jobs)
    ensures Valid(Run(jobs, ops))
    decreases ops
  {
    if ops != [] {
      ApplyKeepsValid(jobs, ops[0]);
      EveryRunValid(Apply(jobs, ops[0]), ops[1..]);
    }
  }

  /** A job that has completed, failed or been canceled keeps its row through every later run. */
  lemma {:induction false} TerminalForever(jobs: Table, ops: seq<Op>, id: string)
    requires id in jobs && !Live(jobs[id].status)
    ensures id in Run(jobs, ops) && Run(jobs, ops)[id] == jobs[id]
    decreases ops
  {
    if ops != [] {
      TerminalForever(Apply(jobs, ops[0]), ops[1..], id);
    }
  }

  /** Whether an operation is a failure of job `id` that takes effect. */
  function Failure(jobs: Table, op: Op, id: string): nat
  {
    if op == Fail(id) && Has(jobs, id, {Running}) then 1 else 0
  }

  /** How many of the operations are failures of job `id` that took effect. */
  function Failures(jobs: Table, ops: seq<Op>, id: string): nat
    decreases ops
  {
    if ops == [] then 0
    else Failure(jobs, ops[0], id) + Failures(Apply(jobs, ops[0]), ops[1..], id)
  }

  function Attempts(jobs: Table, id: string): nat
  {
    if id in jobs then jobs[id].attempts else 0
  }

  lemma StepCountsFailure(jobs: Table, op: Op, id: string)
    ensures Attempts(Apply(jobs, op), id) == Attempts(jobs, id) + Failure(jobs, op, id)
  {
  }

  /** Attempts count exactly the failures, so no job ever fails more than its maximum number of
      times; only the last of those makes it terminal. */
  lemma {:induction false} AttemptsCountFailures(jobs: Table, ops: seq<Op>, id: string)
    requires Valid(jobs)
    ensures Attempts(Run(jobs, ops), id) == Attempts(jobs, id) + Failures(jobs, ops, id)
    ensures id in Run(jobs, ops) ==> Attempts(jobs, id) + Failures(jobs, ops, id) <= Run(jobs, ops)[id].maxAttempts
    decreases ops
  {
    if ops == [] {
    } else {
      ApplyKeepsValid(jobs, ops[0]);
      StepCountsFailure(jobs, ops[0], id);
      AttemptsCountFailures(Apply(jobs, ops[0]), ops[1..], id);
    }
  }
}
