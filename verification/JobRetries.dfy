/** What the queue promises a job over time: a failure that is not the last is retried, a pause is
    undone by resuming, a deleted mount's jobs never run again, and priorities decide who is next. */
module JobRetries {
  import opened Jobs
  import Paths

  // ---- Retrying ----

  /** A failed job with attempts left can be claimed again at once, with its checkpoint. */
  lemma FailureIsRetried(jobs: Table, id: string, worker: string)
    requires Valid(jobs) && Has(jobs, id, {Running}) && jobs[id].attempts + 1 < jobs[id].maxAttempts
    requires !Paths.Blank(worker)
    ensures var failed := Apply(jobs, Fail(id));
            var claimed := Apply(failed, ClaimByID(id, worker));
            && !AnyRunning(failed) && Has(failed, id, {Queued}) && Has(claimed, id, {Running})
            && claimed[id] == jobs[id].(attempts := jobs[id].attempts + 1, claimedBy := Some(worker))
  {
  }

  /** With the last attempt used up it is never claimed again. */
  lemma LastFailureIsFinal(jobs: Table, id: string, ops: seq<Op>)
    requires Has(jobs, id, {Running}) && jobs[id].attempts + 1 >= jobs[id].maxAttempts
    ensures id in Run(Apply(jobs, Fail(id)), ops) && Run(Apply(jobs, Fail(id)), ops)[id].status == Failed
  {
    TerminalForever(Apply(jobs, Fail(id)), ops, id);
  }

  /** Claimed and failed, n times over. */
  function Rounds(id: string, worker: string, n: nat): seq<Op>
  {
    if n == 0 then [] else [Claim(id, worker), Fail(id)] + Rounds(id, worker, n - 1)
  }

  /** How many of the operations are claims of the job that take effect. */
  function Claims(jobs: Table, ops: seq<Op>, id: string): nat
    decreases ops
  {
    if ops == [] then 0
    else (if ops[0].Claim? && ops[0].id == id && !Has(jobs, id, {Running}) && Has(Apply(jobs, ops[0]), id, {Running}) then 1 else 0) +
         Claims(Apply(jobs, ops[0]), ops[1..], id)
  }

  lemma Round(id: string, job: Job, worker: string)
    requires ValidJob(job) && job.status == Queued && !Paths.Blank(worker)
    ensures var jobs := map[id := job];
            var claimed := Apply(jobs, Claim(id, worker));
            && claimed == map[id := job.(status := Running, claimedBy := Some(worker))]
            && Apply(claimed, Fail(id)) ==
               map[id := job.(attempts := job.attempts + 1, status := if job.attempts + 1 < job.maxAttempts then Queued else Failed)]
  {
    var jobs := map[id := job];
    assert IsNext(jobs, id);
  }

  lemma RoundCounts(id: string, job: Job, worker: string, rest: seq<Op>)
    requires ValidJob(job) && job.status == Queued && !Paths.Blank(worker)
    ensures var jobs := map[id := job];
            var after := map[id := job.(attempts := job.attempts + 1, status := if job.attempts + 1 < job.maxAttempts then Queued else Failed)];
            var ops := [Claim(id, worker), Fail(id)] + rest;
            Run(jobs, ops) == Run(after, rest) && Claims(jobs, ops, id) == 1 + Claims(after, rest, id)
  {
    Round(id, job, worker);
    var jobs := map[id := job];
    var ops := [Claim(id, worker), Fail(id)] + rest;
    var claimed := Apply(jobs, ops[0]);
    assert ops[1..] == [Fail(id)] + rest && ops[1..][1..] == rest;
    assert Run(jobs, ops) == Run(claimed, ops[1..]) == Run(Apply(claimed, Fail(id)), rest);
    assert Claims(claimed, ops[1..], id) == Claims(Apply(claimed, Fail(id)), rest, id);
  }

  /** A job alone in the queue whose every batch fails is claimed as often as it has attempts left,
      no more, and has then failed for good. */
  lemma {:induction false} EveryAttemptIsMade(id: string, job: Job, worker: string, n: nat)
    requires ValidJob(job) && job.status == Queued && !Paths.Blank(worker)
    ensures var left := job.maxAttempts - job.attempts;
            var jobs, ops := map[id := job], Rounds(id, worker, n);
            && Claims(jobs, ops, id) == (if n < left then n else left)
            && Run(jobs, ops).Keys == {id}
            && Run(jobs, ops)[id] == job.(attempts := job.attempts + Claims(jobs, ops, id),
                                          status := if n < left then Queued else Failed)
    decreases n
  {
    if n > 0 {
      var next := job.(attempts := job.attempts + 1, status := if job.attempts + 1 < job.maxAttempts then Queued else Failed);
      RoundCounts(id, job, worker, Rounds(id, worker, n - 1));
      if next.status == Queued {
        EveryAttemptIsMade(id, next, worker, n - 1);
      } else {
        NothingMore(id, next, worker, n - 1);
      }
    }
  }

  lemma {:induction false} NothingMore(id: string, job: Job, worker: string, n: nat)
    requires job.status == Failed
    ensures Claims(map[id := job], Rounds(id, worker, n), id) == 0
    ensures Run(map[id := job], Rounds(id, worker, n)) == map[id := job]
    decreases n
  {
    if n > 0 {
      var jobs, ops := map[id := job], Rounds(id, worker, n);
      assert ops[1..][1..] == Rounds(id, worker, n - 1);
      assert Apply(jobs, ops[0]) == jobs && Apply(jobs, ops[1..][0]) == jobs;
      NothingMore(id, job, worker, n - 1);
    }
  }

  // ---- Pausing and deleting ----

  /** A paused job is not claimed, and resuming undoes the pause of a waiting one. */
  lemma PauseThenResume(jobs: Table, id: string)
    requires Valid(jobs) && Has(jobs, id, {Queued})
    ensures var paused := Apply(jobs, Pause(id));
            && !Has(paused, id, {Queued, Running}) && !IsNext(paused, id)
            && (forall worker :: Apply(paused, ClaimByID(id, worker)) == paused)
            && Apply(paused, Resume(id)) == jobs
  {
    var paused := Apply(jobs, Pause(id));
    assert Apply(paused, Resume(id)).Keys == jobs.Keys;
    assert Apply(paused, Resume(id)) == jobs;
  }

  /** Pausing a running job takes it from its worker: what the worker settles has no effect. */
  lemma PausedWhileRunning(jobs: Table, id: string, cursor: string)
    requires Has(jobs, id, {Running})
    ensures var paused := Apply(jobs, Pause(id));
            && paused[id] == jobs[id].(status := Paused, claimedBy := None)
            && Apply(paused, Requeue(id, cursor)) == Apply(paused, Complete(id)) == Apply(paused, Fail(id)) == paused
            && Apply(paused, SaveCheckpoint(id, cursor)) == paused
  {
  }

  /** A checkpoint saved while a job runs is where it goes on. */
  lemma CheckpointIsKept(jobs: Table, id: string, cursor: string)
    requires Has(jobs, id, {Running})
    ensures var saved := Apply(jobs, SaveCheckpoint(id, cursor));
            && saved[id] == jobs[id].(cursor := cursor) && OthersStay(jobs, saved, id)
            && Apply(saved, Fail(id))[id].cursor == cursor
  {
  }

  /** Deleting a mount cancels its waiting, paused and running jobs and no others, and in no later
      run does any of them run again. */
  lemma CanceledForever(jobs: Table, mount: string, ops: seq<Op>, id: string)
    requires id in jobs
    ensures var canceled := Apply(jobs, CancelMount(mount));
            && canceled.Keys == jobs.Keys
            && (jobs[id].mount != mount || !Live(jobs[id].status) ==> canceled[id] == jobs[id])
            && (jobs[id].mount == mount && Live(jobs[id].status) ==> canceled[id] == jobs[id].(status := Canceled))
            && (jobs[id].mount == mount ==> id in Run(canceled, ops) && !Live(Run(canceled, ops)[id].status))
  {
    var canceled := Apply(jobs, CancelMount(mount));
    if jobs[id].mount == mount {
      TerminalForever(canceled, ops, id);
    }
  }

  // ---- Priorities ----

  /** A new job goes before every waiting one of a greater priority number, and behind every one of
      a smaller. */
  lemma PriorityDecides(jobs: Table, op: Op, other: string)
    requires op.Enqueue? && !Paths.Blank(op.kind) && op.id !in jobs && op.priority != 0 && other in jobs
    ensures var after := Apply(jobs, op);
            && op.id in after && Has(after, op.id, {Queued})
            && (op.priority < jobs[other].priority ==> Ahead(after, op.id, other))
            && (jobs[other].priority < op.priority ==> Ahead(after, other, op.id))
            && OthersStay(jobs, after, op.id)
  {
  }
}
