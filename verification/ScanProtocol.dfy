/** Catalog scans driven by the job queue: any number of workers, each of which claims a job,
    commits one batch to the index, and then settles the job, with other operations, crashes and
    other workers in between any two of these steps. */
module ScanProtocol {
  import opened TextOrder
  import opened CatalogWalk
  import opened CatalogOrder
  import opened CatalogScan
  import opened CatalogIndex
  import opened CatalogCoverage
  import Jobs
  import Paths

  /** Where a worker is inside `runCatalogScanBatch`. It works from the job row as it was at the
      claim; after the commit it remembers what it is about to report. */
  datatype Worker =
    | Idle
    | Claimed(job: string, mount: string, cursor: string)
    | Committed(job: string, mount: string, done: bool, next: string)

  datatype World = World(
    jobs: Jobs.Table,
    rows: Index,
    workers: map<string, Worker>,
    deleted: set<string>)

  datatype Event =
    | Enqueue(id: string, mount: string, now: string)
    | Claim(worker: string, id: string)
    | ClaimRequested(worker: string, id: string)
    | Commit(worker: string)
    | Settle(worker: string)
    | GiveUp(worker: string)
    | Crash(worker: string)
    | Pause(id: string)
    | Resume(id: string)
    | DeleteMount(mount: string)

  function At(w: World, worker: string): Worker
  {
    if worker in w.workers then w.workers[worker] else Idle
  }

  function Move(w: World, worker: string, pc: Worker): World
  {
    w.(workers := w.workers[worker := pc])
  }

  type Trees = map<string, Forest>

  /** The batch a worker collects for a mount from a cursor. */
  function BatchOf(f: Forest, cursor: string): Batch
  {
    Collect(DirectoryVisits(".", f), cursor, DEFAULT_BATCH_SIZE)
  }

  /** The plain scan loop from a cursor, in one go and undisturbed. */
  function PlainScan(f: Forest, cursor: string): seq<Entry>
  {
    Emitted(DirectoryVisits(".", f), DEFAULT_BATCH_SIZE, cursor)
  }

  predicate Enabled(trees: Trees, w: World, e: Event)
  {
    match e
    case Enqueue(id, mount, _) => id !in w.jobs && mount in trees && mount !in w.deleted
    case Claim(worker, id) => At(w, worker) == Idle && Jobs.IsNext(w.jobs, id)
    case ClaimRequested(worker, id) => At(w, worker) == Idle && !Jobs.AnyRunning(w.jobs) && Jobs.Has(w.jobs, id, {Jobs.Queued})
    case Commit(worker) => At(w, worker).Claimed? && At(w, worker).mount in trees
    case Settle(worker) => At(w, worker).Committed?
    case GiveUp(worker) => At(w, worker).Claimed?
    case Crash(worker) => true
    case Pause(_) => true
    case Resume(_) => true
    case DeleteMount(mount) => mount !in w.deleted
  }

  function Next(trees: Trees, w: World, e: Event): World
    requires Enabled(trees, w, e)
  {
    match e
    case Enqueue(id, mount, now) =>
      w.(jobs := Jobs.Apply(w.jobs, Jobs.Enqueue(id, "catalog_scan", 100, mount, "", 0, now)))
    case Claim(worker, id) => Started(w, worker, id, Jobs.Take(w.jobs, id, worker))
    case ClaimRequested(worker, id) => Started(w, worker, id, Jobs.Take(w.jobs, id, worker))
    case Commit(worker) =>
      var pc := At(w, worker);
      var batch := BatchOf(trees[pc.mount], pc.cursor);
      var next := if batch.complete then "" else Last(batch.entries);
      Move(w, worker, Committed(pc.job, pc.mount, batch.complete, next)).(rows := Upsert(w.rows, pc.mount, batch.entries))
    case Settle(worker) =>
      var pc := At(w, worker);
      var op := if pc.done then Jobs.Complete(pc.job) else Jobs.Requeue(pc.job, pc.next);
      Move(w, worker, Idle).(jobs := Jobs.Apply(w.jobs, op))
    case GiveUp(worker) => Move(w, worker, Idle).(jobs := Jobs.Apply(w.jobs, Jobs.Fail(At(w, worker).job)))
    case Crash(worker) => Move(w, worker, Idle)
    case Pause(id) => w.(jobs := Jobs.Apply(w.jobs, Jobs.Pause(id)))
    case Resume(id) => w.(jobs := Jobs.Apply(w.jobs, Jobs.Resume(id)))
    case DeleteMount(mount) =>
      w.(jobs := Jobs.Apply(w.jobs, Jobs.CancelMount(mount)),
         rows := map k | k in w.rows && k.mount != mount :: w.rows[k],
         deleted := w.deleted + {mount})
  }

  function Started(w: World, worker: string, id: string, jobs: Jobs.Table): World
    requires id in w.jobs
  {
    Move(w, worker, Claimed(id, w.jobs[id].mount, w.jobs[id].cursor)).(jobs := jobs)
  }

  const INIT := World(map[], map[], map[], {})

  ghost predicate IsRun(trees: Trees, w: World, events: seq<Event>)
    decreases events
  {
    events != [] ==> Enabled(trees, w, events[0]) && IsRun(trees, Next(trees, w, events[0]), events[1..])
  }

  ghost function End(trees: Trees, w: World, events: seq<Event>): World
    requires IsRun(trees, w, events)
    decreases events
  {
    if events == [] then w else End(trees, Next(trees, w, events[0]), events[1..])
  }

  // ---- The invariant ----

  /** Nothing the undisturbed scan would emit is lost: it is in the index, or the scan from this
      cursor still emits it. */
  ghost predicate NothingLost(rows: Index, mount: string, f: Forest, cursor: string)
  {
    forall e :: e in PlainScan(f, "") ==> Holds(rows, mount, e) || e in PlainScan(f, cursor)
  }

  ghost predicate AllIndexed(rows: Index, mount: string, f: Forest)
  {
    forall e :: e in PlainScan(f, "") ==> Holds(rows, mount, e)
  }

  ghost predicate JobGood(trees: Trees, rows: Index, job: Jobs.Job)
  {
    && job.mount in trees
    && (Jobs.Live(job.status) ==> NothingLost(rows, job.mount, trees[job.mount], job.cursor))
    && (job.status == Jobs.Completed ==> AllIndexed(rows, job.mount, trees[job.mount]))
  }

  ghost predicate WorkerGood(trees: Trees, rows: Index, pc: Worker)
  {
    match pc
    case Idle => true
    case Claimed(_, mount, cursor) => mount in trees && NothingLost(rows, mount, trees[mount], cursor)
    case Committed(_, mount, done, next) =>
      && mount in trees
      && (if done then AllIndexed(rows, mount, trees[mount]) else NothingLost(rows, mount, trees[mount], next))
  }

  /** Every row of a mount still registered is a listed entry of its tree. */
  ghost predicate RowsSound(trees: Trees, w: World)
  {
    forall k :: k in w.rows && k.mount !in w.deleted ==>
      k.mount in trees && exists e :: e in Listing(".", trees[k.mount]) && e.path == k.path && e.row == w.rows[k]
  }

  /** A job or worker of a mount that is still registered must be good. Jobs and workers always
      agree on which mount a job belongs to. */
  ghost predicate Good(trees: Trees, w: World)
  {
    && (forall id :: id in w.jobs && w.jobs[id].mount !in w.deleted ==> JobGood(trees, w.rows, w.jobs[id]))
    && (forall worker :: worker in w.workers ==>
          var pc := w.workers[worker];
          && (pc != Idle ==> pc.job in w.jobs && w.jobs[pc.job].mount == pc.mount)
          && (pc != Idle && pc.mount !in w.deleted ==> WorkerGood(trees, w.rows, pc)))
    && RowsSound(trees, w)
  }

  // ---- Every step keeps the invariant ----

  lemma PlainScanIsListed(f: Forest, cursor: string)
    ensures forall e :: e in PlainScan(f, cursor) ==> e in Listing(".", f)
  {
    EmittedAreAhead(DirectoryVisits(".", f), DEFAULT_BATCH_SIZE, cursor);
    VisitsFindListing(".", f);
  }

  /** Everything the index holds of a tree it still holds later. */
  ghost predicate Keeps(before: Index, after: Index, mount: string, f: Forest)
  {
    forall e :: e in Listing(".", f) && Holds(before, mount, e) ==> Holds(after, mount, e)
  }

  lemma KeepsIsEnough(before: Index, after: Index, mount: string, f: Forest)
    requires Keeps(before, after, mount, f)
    ensures forall cursor :: NothingLost(before, mount, f, cursor) ==> NothingLost(after, mount, f, cursor)
    ensures AllIndexed(before, mount, f) ==> AllIndexed(after, mount, f)
  {
    PlainScanIsListed(f, "");
  }

  lemma BatchIsListed(f: Forest, cursor: string)
    ensures forall e :: e in BatchOf(f, cursor).entries ==> e in Listing(".", f)
  {
    BatchFacts(DirectoryVisits(".", f), cursor, DEFAULT_BATCH_SIZE);
    VisitsFindListing(".", f);
  }

  lemma CommitKeeps(rows: Index, mount: string, f: Forest, cursor: string)
    requires Sorted(f)
    ensures var after := Upsert(rows, mount, BatchOf(f, cursor).entries);
            && Keeps(rows, after, mount, f)
            && (forall e :: e in BatchOf(f, cursor).entries ==> Holds(after, mount, e))
            && (forall other: string, g: Forest :: other != mount ==> Keeps(rows, after, other, g))
  {
    BatchIsListed(f, cursor);
    ListingDistinct(".", f);
    UpsertHolds(rows, mount, BatchOf(f, cursor).entries, Listing(".", f));
  }

  /** Committing a batch from a cursor that loses nothing gives a cursor that loses nothing, or
      the whole scan. */
  lemma CommitAdvances(rows: Index, mount: string, f: Forest, cursor: string)
    requires Sorted(f) && NothingLost(rows, mount, f, cursor)
    ensures var batch := BatchOf(f, cursor);
            var after := Upsert(rows, mount, batch.entries);
            if batch.complete then AllIndexed(after, mount, f) else NothingLost(after, mount, f, Last(batch.entries))
  {
    var batch := BatchOf(f, cursor);
    CommitKeeps(rows, mount, f, cursor);
    PlainScanIsListed(f, "");
    if !batch.complete {
      CursorAdvances(DirectoryVisits(".", f), cursor, DEFAULT_BATCH_SIZE);
      assert PlainScan(f, cursor) == batch.entries + PlainScan(f, Last(batch.entries));
    }
  }

  lemma CommitRowsSound(trees: Trees, w: World, mount: string, cursor: string)
    requires mount in trees && Sorted(trees[mount]) && RowsSound(trees, w)
    ensures RowsSound(trees, w.(rows := Upsert(w.rows, mount, BatchOf(trees[mount], cursor).entries)))
  {
    var f := trees[mount];
    var entries := BatchOf(f, cursor).entries;
    var after := Upsert(w.rows, mount, entries);
    BatchIsListed(f, cursor);
    ListingDistinct(".", f);
    UpsertHolds(w.rows, mount, entries, Listing(".", f));
    forall k | k in after && k.mount !in w.deleted
      ensures k.mount in trees && exists e :: e in Listing(".", trees[k.mount]) && e.path == k.path && e.row == after[k]
    {
      if k.mount == mount {
        if k in w.rows {
          var e :| e in Listing(".", f) && e.path == k.path && e.row == w.rows[k];
          assert Holds(w.rows, mount, e) && Holds(after, mount, e) && k == Key(mount, e.path);
        } else {
          var e :| e in entries && e.path == k.path;
          assert Holds(after, mount, e) && k == Key(mount, e.path);
        }
      }
    }
  }

  ghost predicate TreesSorted(trees: Trees)
  {
    forall mount :: mount in trees ==> Sorted(trees[mount])
  }

  lemma CommitKeepsGood(trees: Trees, w: World, worker: string)
    requires TreesSorted(trees) && Good(trees, w) && Enabled(trees, w, Commit(worker))
    ensures Good(trees, Next(trees, w, Commit(worker)))
  {
    var pc := At(w, worker);
    var f := trees[pc.mount];
    CommitKeeps(w.rows, pc.mount, f, pc.cursor);
    CommitRowsSound(trees, w, pc.mount, pc.cursor);
    var after := Upsert(w.rows, pc.mount, BatchOf(f, pc.cursor).entries);
    forall mount | mount in trees
      ensures forall cursor :: NothingLost(w.rows, mount, trees[mount], cursor) ==> NothingLost(after, mount, trees[mount], cursor)
      ensures AllIndexed(w.rows, mount, trees[mount]) ==> AllIndexed(after, mount, trees[mount])
    {
      KeepsIsEnough(w.rows, after, mount, trees[mount]);
    }
    if pc.mount !in w.deleted {
      CommitAdvances(w.rows, pc.mount, f, pc.cursor);
    }
  }

  lemma DeleteKeepsGood(trees: Trees, w: World, mount: string)
    requires Good(trees, w) && Enabled(trees, w, DeleteMount(mount))
    ensures Good(trees, Next(trees, w, DeleteMount(mount)))
  {
    var after := Next(trees, w, DeleteMount(mount));
    forall other | other in trees && other != mount
      ensures forall cursor :: NothingLost(w.rows, other, trees[other], cursor) ==> NothingLost(after.rows, other, trees[other], cursor)
      ensures AllIndexed(w.rows, other, trees[other]) ==> AllIndexed(after.rows, other, trees[other])
    {
      KeepsIsEnough(w.rows, after.rows, other, trees[other]);
    }
  }

  lemma StartKeepsGood(trees: Trees, w: World, worker: string, id: string)
    requires Good(trees, w) && id in w.jobs && w.jobs[id].status == Jobs.Queued
    ensures Good(trees, Started(w, worker, id, Jobs.Take(w.jobs, id, worker)))
  {
  }

  lemma SettleKeepsGood(trees: Trees, w: World, worker: string)
    requires Good(trees, w) && Enabled(trees, w, Settle(worker))
    ensures Good(trees, Next(trees, w, Settle(worker)))
  {
    var pc := At(w, worker);
    var jobs := Next(trees, w, Settle(worker)).jobs;
    forall id | id in jobs && jobs[id].mount !in w.deleted ensures JobGood(trees, w.rows, jobs[id]) {
      if id == pc.job { assert w.jobs[id].mount == pc.mount; }
    }
  }

  /** Changing job rows without touching mounts and cursors, reviving or completing a job. */
  lemma SameCursorsKeepGood(trees: Trees, w: World, jobs: Jobs.Table)
    requires Good(trees, w) && jobs.Keys == w.jobs.Keys
    requires forall id :: id in jobs ==>
               && jobs[id].mount == w.jobs[id].mount && jobs[id].cursor == w.jobs[id].cursor
               && (Jobs.Live(jobs[id].status) ==> Jobs.Live(w.jobs[id].status))
               && (jobs[id].status == Jobs.Completed ==> w.jobs[id].status == Jobs.Completed)
    ensures Good(trees, w.(jobs := jobs))
  {
    forall id | id in jobs && jobs[id].mount !in w.deleted ensures JobGood(trees, w.rows, jobs[id]) {
      assert id in w.jobs;
    }
  }

  lemma IdleKeepsGood(trees: Trees, w: World, worker: string)
    requires Good(trees, w)
    ensures Good(trees, Move(w, worker, Idle))
  {
  }

  lemma GiveUpKeepsGood(trees: Trees, w: World, worker: string)
    requires Good(trees, w) && Enabled(trees, w, GiveUp(worker))
    ensures Good(trees, Next(trees, w, GiveUp(worker)))
  {
    IdleKeepsGood(trees, w, worker);
    SameCursorsKeepGood(trees, Move(w, worker, Idle), Next(trees, w, GiveUp(worker)).jobs);
  }

  lemma EnqueueKeepsGood(trees: Trees, w: World, id: string, mount: string, now: string)
    requires Good(trees, w) && Enabled(trees, w, Enqueue(id, mount, now))
    ensures Good(trees, Next(trees, w, Enqueue(id, mount, now)))
  {
  }

  lemma StepKeepsGood(trees: Trees, w: World, e: Event)
    requires TreesSorted(trees) && Good(trees, w) && Enabled(trees, w, e)
    ensures Good(trees, Next(trees, w, e))
  {
    match e
    case Commit(worker) => CommitKeepsGood(trees, w, worker);
    case DeleteMount(mount) => DeleteKeepsGood(trees, w, mount);
    case Claim(worker, id) => StartKeepsGood(trees, w, worker, id);
    case ClaimRequested(worker, id) => StartKeepsGood(trees, w, worker, id);
    case Settle(worker) => SettleKeepsGood(trees, w, worker);
    case Enqueue(id, mount, now) => EnqueueKeepsGood(trees, w, id, mount, now);
    case Crash(worker) => IdleKeepsGood(trees, w, worker);
    case GiveUp(worker) => GiveUpKeepsGood(trees, w, worker);
    case Pause(id) => SameCursorsKeepGood(trees, w, Jobs.Apply(w.jobs, Jobs.Pause(id)));
    case Resume(id) => SameCursorsKeepGood(trees, w, Jobs.Apply(w.jobs, Jobs.Resume(id)));
  }

  lemma {:induction false} RunKeepsGood(trees: Trees, w: World, events: seq<Event>)
    requires TreesSorted(trees) && Good(trees, w) && IsRun(trees, w, events)
    ensures Good(trees, End(trees, w, events))
    decreases events
  {
    if events != [] {
      StepKeepsGood(trees, w, events[0]);
      RunKeepsGood(trees, Next(trees, w, events[0]), events[1..]);
    }
  }

  // ---- What completed and live jobs guarantee ----

  /** For any trees and any run: when a scan job has completed and its mount is still there,
      everything that one undisturbed scan loop would have emitted is in the index, and the
      index holds nothing for that mount but listed entries. */
  lemma CompletedMeansPlainScanIndexed(trees: Trees, events: seq<Event>, id: string)
    requires TreesSorted(trees) && IsRun(trees, INIT, events)
    requires var w := End(trees, INIT, events);
             id in w.jobs && w.jobs[id].status == Jobs.Completed && w.jobs[id].mount !in w.deleted
    ensures var w := End(trees, INIT, events);
            && w.jobs[id].mount in trees
            && AllIndexed(w.rows, w.jobs[id].mount, trees[w.jobs[id].mount])
            && RowsSound(trees, w)
  {
    RunKeepsGood(trees, INIT, events);
  }

  /** With no split directories, a completed job means the index is exactly the tree. */
  lemma CompletedMeansTreeIndexed(trees: Trees, events: seq<Event>, id: string)
    requires TreesSorted(trees) && IsRun(trees, INIT, events)
    requires var w := End(trees, INIT, events);
             && id in w.jobs && w.jobs[id].status == Jobs.Completed && w.jobs[id].mount !in w.deleted
             && (w.jobs[id].mount in trees ==> NoSplit(".", trees[w.jobs[id].mount]))
    ensures var w := End(trees, INIT, events);
            var mount := w.jobs[id].mount;
            && mount in trees
            && (forall e :: e in Listing(".", trees[mount]) ==> Holds(w.rows, mount, e))
            && (forall k :: k in w.rows && k.mount == mount ==>
                  exists e :: e in Listing(".", trees[mount]) && e.path == k.path && e.row == w.rows[k])
  {
    CompletedMeansPlainScanIndexed(trees, events, id);
    ScanExactForEveryBatchSizeIffNoSplit(trees[End(trees, INIT, events).jobs[id].mount]);
  }

  /** With no split directories, a live job's saved cursor never runs ahead of the index: every
      listed path at or before it is there already. */
  lemma NothingBehindCursorIsMissing(trees: Trees, events: seq<Event>, id: string, e: Entry)
    requires TreesSorted(trees) && IsRun(trees, INIT, events)
    requires var w := End(trees, INIT, events);
             && id in w.jobs && Jobs.Live(w.jobs[id].status) && w.jobs[id].mount !in w.deleted
             && w.jobs[id].mount in trees && NoSplit(".", trees[w.jobs[id].mount])
             && e in Listing(".", trees[w.jobs[id].mount]) && !Less(w.jobs[id].cursor, e.path)
    ensures var w := End(trees, INIT, events);
            Holds(w.rows, w.jobs[id].mount, e)
  {
    RunKeepsGood(trees, INIT, events);
    var job := End(trees, INIT, events).jobs[id];
    var f := trees[job.mount];
    ScanExactForEveryBatchSizeIffNoSplit(f);
    EmittedAreAhead(DirectoryVisits(".", f), DEFAULT_BATCH_SIZE, job.cursor);
  }

  // ---- What the other steps do ----

  lemma TakingKeepsValid(jobs: Jobs.Table, id: string, worker: string)
    requires Jobs.Valid(jobs) && !Jobs.AnyRunning(jobs) && Jobs.Has(jobs, id, {Jobs.Queued})
    ensures Jobs.Valid(Jobs.Take(jobs, id, worker))
  {
  }

  lemma StepKeepsQueue(trees: Trees, w: World, e: Event)
    requires Jobs.Valid(w.jobs) && Enabled(trees, w, e)
    ensures Jobs.Valid(Next(trees, w, e).jobs)
  {
    match e
    case Enqueue(id, mount, now) =>
      Jobs.ApplyKeepsValid(w.jobs, Jobs.Enqueue(id, "catalog_scan", 100, mount, "", 0, now));
    case Claim(worker, id) => TakingKeepsValid(w.jobs, id, worker);
    case ClaimRequested(worker, id) => TakingKeepsValid(w.jobs, id, worker);
    case Commit(_) =>
    case Settle(worker) =>
      var pc := At(w, worker);
      Jobs.ApplyKeepsValid(w.jobs, if pc.done then Jobs.Complete(pc.job) else Jobs.Requeue(pc.job, pc.next));
    case GiveUp(worker) => Jobs.ApplyKeepsValid(w.jobs, Jobs.Fail(At(w, worker).job));
    case Crash(_) =>
    case Pause(id) => Jobs.ApplyKeepsValid(w.jobs, Jobs.Pause(id));
    case Resume(id) => Jobs.ApplyKeepsValid(w.jobs, Jobs.Resume(id));
    case DeleteMount(mount) => Jobs.ApplyKeepsValid(w.jobs, Jobs.CancelMount(mount));
  }

  /** Any number of workers, stale ones included, drive the queue only as its own operations would:
      never does more than one job run. */
  lemma {:induction false} OneJobAtATime(trees: Trees, w: World, events: seq<Event>)
    requires Jobs.Valid(w.jobs) && IsRun(trees, w, events)
    ensures Jobs.Valid(End(trees, w, events).jobs)
    decreases events
  {
    if events != [] {
      StepKeepsQueue(trees, w, events[0]);
      OneJobAtATime(trees, Next(trees, w, events[0]), events[1..]);
    }
  }

  /** A scan is queued to begin at the empty cursor, with the usual priority and three attempts. */
  lemma ScanIsQueued(trees: Trees, w: World, id: string, mount: string, now: string)
    requires Enabled(trees, w, Enqueue(id, mount, now))
    ensures var after := Next(trees, w, Enqueue(id, mount, now));
            && after == w.(jobs := after.jobs) && Jobs.OthersStay(w.jobs, after.jobs, id) && id in after.jobs
            && after.jobs[id] == Jobs.Job("catalog_scan", 100, Jobs.Queued, mount, "", 0, 3, Jobs.None, now)
  {
    assert !Paths.IsSpace("catalog_scan"[0]);
  }

  /** Deleting a mount takes its rows out of the index and ends its jobs; the rest stays. */
  lemma DeletingClears(trees: Trees, w: World, mount: string)
    requires mount !in w.deleted
    ensures Enabled(trees, w, DeleteMount(mount))
    ensures var after := Next(trees, w, DeleteMount(mount));
            && (forall k :: k in after.rows <==> k in w.rows && k.mount != mount)
            && (forall k :: k in after.rows ==> after.rows[k] == w.rows[k])
            && after.jobs.Keys == w.jobs.Keys && after.workers == w.workers && after.deleted == w.deleted + {mount}
            && (forall id :: id in w.jobs && w.jobs[id].mount == mount ==> !Jobs.Live(after.jobs[id].status))
            && (forall id :: id in w.jobs && w.jobs[id].mount != mount ==> after.jobs[id] == w.jobs[id])
  {
  }

  /** A waiting job that is paused cannot be claimed; resuming it undoes the pause. */
  lemma PausingHolds(trees: Trees, w: World, id: string, worker: string)
    requires Jobs.Valid(w.jobs) && Jobs.Has(w.jobs, id, {Jobs.Queued})
    ensures Enabled(trees, w, Pause(id))
    ensures var paused := Next(trees, w, Pause(id));
            && !Enabled(trees, paused, Claim(worker, id)) && !Enabled(trees, paused, ClaimRequested(worker, id))
            && Enabled(trees, paused, Resume(id)) && Next(trees, paused, Resume(id)) == w
  {
    var paused := Next(trees, w, Pause(id));
    assert Next(trees, paused, Resume(id)).jobs == w.jobs;
  }

  /** A worker may stop at any time; what it has done stays, and it can start afresh. */
  lemma CrashFrees(trees: Trees, w: World, worker: string)
    ensures Enabled(trees, w, Crash(worker))
    ensures var after := Next(trees, w, Crash(worker));
            && At(after, worker) == Idle && after == w.(workers := after.workers)
            && forall other :: other != worker ==> At(after, other) == At(w, other)
  {
  }

  /** A job that is asked for by its id is claimed, with its checkpoint, when nothing else runs. */
  lemma RequestedIsClaimed(trees: Trees, w: World, worker: string, id: string)
    requires At(w, worker) == Idle && !Jobs.AnyRunning(w.jobs) && Jobs.Has(w.jobs, id, {Jobs.Queued})
    ensures Enabled(trees, w, ClaimRequested(worker, id))
    ensures var after := Next(trees, w, ClaimRequested(worker, id));
            && At(after, worker) == Claimed(id, w.jobs[id].mount, w.jobs[id].cursor)
            && after.jobs == w.jobs[id := w.jobs[id].(status := Jobs.Running, claimedBy := Jobs.Some(worker))]
            && after.rows == w.rows && after.deleted == w.deleted
  {
  }

  // ---- The undisturbed scan is one of the runs ----

  lemma {:induction false} RunAppend(trees: Trees, w: World, a: seq<Event>, b: seq<Event>)
    requires IsRun(trees, w, a) && IsRun(trees, End(trees, w, a), b)
    ensures IsRun(trees, w, a + b) && End(trees, w, a + b) == End(trees, End(trees, w, a), b)
    decreases a
  {
    if a == [] {
      assert a + b == b;
    } else {
      assert (a + b)[1..] == a[1..] + b;
      RunAppend(trees, Next(trees, w, a[0]), a[1..], b);
    }
  }

  lemma ThreeSteps(trees: Trees, w: World, a: Event, b: Event, c: Event)
    requires Enabled(trees, w, a) && Enabled(trees, Next(trees, w, a), b)
    requires Enabled(trees, Next(trees, Next(trees, w, a), b), c)
    ensures IsRun(trees, w, [a, b, c])
    ensures End(trees, w, [a, b, c]) == Next(trees, Next(trees, Next(trees, w, a), b), c)
  {
    var w1 := Next(trees, w, a);
    var w2 := Next(trees, w1, b);
    OneStep(trees, w2, c, []);
    OneStep(trees, w1, b, [c]);
    OneStep(trees, w, a, [b, c]);
    assert [c] + [] == [c] && [b] + [c] == [b, c] && [a] + [b, c] == [a, b, c];
  }

  lemma OneStep(trees: Trees, w: World, e: Event, rest: seq<Event>)
    requires Enabled(trees, w, e) && IsRun(trees, Next(trees, w, e), rest)
    ensures IsRun(trees, w, [e] + rest) && End(trees, w, [e] + rest) == End(trees, Next(trees, w, e), rest)
  {
    assert ([e] + rest)[1..] == rest;
  }

  /** A single queued job, run on its own by one worker, completes with exactly the plain scan. */
  lemma {:induction false} AloneRunsPlainScan(trees: Trees, w: World, id: string) returns (events: seq<Event>)
    requires id in w.jobs && w.jobs[id].status == Jobs.Queued && w.jobs[id].mount in trees
    requires forall other :: other in w.jobs ==> other == id
    requires At(w, "w") == Idle
    ensures IsRun(trees, w, events)
    ensures var after, mount := End(trees, w, events), w.jobs[id].mount;
            && id in after.jobs && after.jobs[id].status == Jobs.Completed && after.jobs[id].mount == mount
            && after.deleted == w.deleted
            && after.rows == Upsert(w.rows, mount, PlainScan(trees[mount], w.jobs[id].cursor))
    decreases |After(w.jobs[id].cursor, Entries(DirectoryVisits(".", trees[w.jobs[id].mount])))|
  {
    var mount, cursor := w.jobs[id].mount, w.jobs[id].cursor;
    var f := trees[mount];
    var batch := BatchOf(f, cursor);
    var step := [Claim("w", id), Commit("w"), Settle("w")];
    var w1 := Next(trees, w, step[0]);
    var w2 := Next(trees, w1, step[1]);
    var w3 := Next(trees, w2, step[2]);
    ThreeSteps(trees, w, step[0], step[1], step[2]);
    if batch.complete {
      events := step;
    } else {
      CursorAdvances(DirectoryVisits(".", f), cursor, DEFAULT_BATCH_SIZE);
      var rest := AloneRunsPlainScan(trees, w3, id);
      RunAppend(trees, w, step, rest);
      UpsertAppend(w.rows, mount, batch.entries, PlainScan(f, Last(batch.entries)));
      events := step + rest;
    }
  }

  /** Whether completed scan jobs can be relied on for a tree. */
  ghost predicate CompletionReliable(mount: string, f: Forest)
  {
    forall events: seq<Event>, id: string ::
      IsRun(map[mount := f], INIT, events) && CompletedIn(End(map[mount := f], INIT, events), id, mount) ==>
        forall e :: e in Listing(".", f) ==> Holds(End(map[mount := f], INIT, events).rows, mount, e)
  }

  ghost predicate CompletedIn(w: World, id: string, mount: string)
  {
    id in w.jobs && w.jobs[id].status == Jobs.Completed && w.jobs[id].mount == mount && mount !in w.deleted
  }

  /** Crashes, retries, pauses and stale workers cost nothing: a completed job has indexed the
      whole tree in every run if and only if the plain loop, left alone, emits the whole tree. */
  lemma ReliableIffPlainScanCovers(mount: string, f: Forest)
    requires Sorted(f)
    ensures CompletionReliable(mount, f) <==> forall e :: e in Listing(".", f) ==> e in PlainScan(f, "")
  {
    var trees := map[mount := f];
    if forall e :: e in Listing(".", f) ==> e in PlainScan(f, "") {
      forall events: seq<Event>, id: string | IsRun(trees, INIT, events) && CompletedIn(End(trees, INIT, events), id, mount)
        ensures forall e :: e in Listing(".", f) ==> Holds(End(trees, INIT, events).rows, mount, e)
      {
        CompletedMeansPlainScanIndexed(trees, events, id);
      }
    }
    if CompletionReliable(mount, f) {
      var first := Enqueue("job", mount, "");
      assert "catalog_scan"[0] == 'c' && !Paths.IsSpace('c');
      var w := Next(trees, INIT, first);
      var rest := AloneRunsPlainScan(trees, w, "job");
      var events := [first] + rest;
      OneStep(trees, INIT, first, rest);
      var after := End(trees, INIT, events);
      assert CompletedIn(after, "job", mount);
      forall e | e in Listing(".", f) ensures e in PlainScan(f, "") {
        assert Holds(after.rows, mount, e);
        PlainScanIsListed(f, "");
        ListingDistinct(".", f);
        UpsertHolds(map[], mount, PlainScan(f, ""), Listing(".", f));
        var found :| found in PlainScan(f, "") && found.path == e.path;
        SamePathSameEntry(Listing(".", f), e, found);
      }
    }
  }

  /** In terms of the listing alone: if and only if, at every cursor that is saved on the way,
      nothing later in the walk lies at or before it. */
  lemma ReliableIffSafeCursors(mount: string, f: Forest)
    requires Sorted(f)
    ensures CompletionReliable(mount, f) <==> SafeCursors(Listing(".", f), DEFAULT_BATCH_SIZE, "")
  {
    VisitsFindListing(".", f);
    ListingAfterEmptyCursor(f);
    ListingDistinct(".", f);
    ScanCoversIffSafeCursors(DirectoryVisits(".", f), DEFAULT_BATCH_SIZE);
    ReliableIffPlainScanCovers(mount, f);
  }

  /** On the split tree a scan job can complete with a listed path never indexed. */
  lemma SplitTreeNotReliable(mount: string)
    ensures Sorted(SplitTree(DEFAULT_BATCH_SIZE)) && !CompletionReliable(mount, SplitTree(DEFAULT_BATCH_SIZE))
  {
    EveryBatchSizeCanMiss(DEFAULT_BATCH_SIZE);
    ReliableIffPlainScanCovers(mount, SplitTree(DEFAULT_BATCH_SIZE));
  }
}
