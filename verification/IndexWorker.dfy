/** The index worker: one claim and one batch, run step by step against the job store and the
    catalog service. Whatever happens inside is a run of the scan protocol. */
module IndexWorker {
  import opened CatalogWalk
  import opened CatalogIndex
  import opened ScanProtocol
  import Jobs
  import Paths

  type Mounts = map<string, Mount>

  /** The job table after `Fail`, `Requeue` or `Complete`, each of which may itself fail and then
      leaves the job running. */
  ghost predicate Settled(id: string, settled: bool, before: Jobs.Table, after: Jobs.Table)
  {
    if settled then
      && id in after && after[id].status != Jobs.Running
      && Jobs.OthersStay(before, after, id)
    else after == before && Jobs.AnyRunning(after)
  }

  /** After a claim, which finds nothing running, settling the job is what lets others be claimed. */
  lemma SettlingFrees(before: Jobs.Table, taken: Jobs.Table, after: Jobs.Table, id: string, worker: string, settled: bool)
    requires !Jobs.AnyRunning(before) && id in before && taken == Jobs.Take(before, id, worker)
    requires Settled(id, settled, taken, after)
    ensures settled <==> !Jobs.AnyRunning(after)
  {
  }

  /** What a turn did with the job it claimed: a kind that is not known fails without a look at the
      index, and no other job is touched. */
  ghost predicate Treated(id: string, before: Jobs.Table, rows: Index, after: Jobs.Table, rowsAfter: Index, stored: bool)
    requires id in before
  {
    && id in after && Jobs.OthersStay(before, after, id)
    && (before[id].kind != "catalog_scan" ==>
          rowsAfter == rows && (stored ==> after[id].attempts == before[id].attempts + 1))
  }

  ghost predicate NextWasTreated(before: Jobs.Table, rows: Index, after: Jobs.Table, rowsAfter: Index, stored: bool)
  {
    exists id :: Jobs.IsNext(before, id) && Treated(id, before, rows, after, rowsAfter, stored)
  }

  lemma ClaimedIsTreated(id: string, worker: string, before: Jobs.Table, rows: Index,
                         after: Jobs.Table, rowsAfter: Index, settled: bool)
    requires Jobs.IsNext(before, id)
    requires var taken := Jobs.Take(before, id, worker);
             && Settled(id, settled, taken, after) && id in after
             && (before[id].kind != "catalog_scan" ==> rowsAfter == rows)
             && (before[id].kind != "catalog_scan" ==>
                   after == if settled then Jobs.Apply(taken, Jobs.Fail(id)) else taken)
    ensures NextWasTreated(before, rows, after, rowsAfter, settled)
  {
    assert Treated(id, before, rows, after, rowsAfter, settled);
  }

  /** A mount that exists, still stands for the directory it was registered with, and is indexed. */
  predicate CanScan(mounts: Mounts, standing: set<string>, mount: string)
  {
    mount in mounts && mount in standing && mounts[mount].Indexable()
  }

  class Server {
    const store: Jobs.Store
    const catalog: Service

    constructor (store: Jobs.Store, catalog: Service)
      ensures this.store == store && this.catalog == catalog
    {
      this.store := store;
      this.catalog := catalog;
    }

    /** The shared state as the protocol sees it between two batches of an otherwise idle server. */
    ghost function Snapshot(deleted: set<string>): World
      reads store, catalog
    {
      World(store.jobs, catalog.rows, map[], deleted)
    }

    /** `store.Fail`, whose own error is ignored; the worker's next step is then that of a crash. */
    method GiveUpJob(id: string, worker: string) returns (settled: bool, ghost event: Event)
      requires id in store.jobs && store.jobs[id].status == Jobs.Running
      modifies store
      ensures Settled(id, settled, old(store.jobs), store.jobs)
      ensures event == if settled then GiveUp(worker) else Crash(worker)
      ensures store.jobs == if settled then Jobs.Apply(old(store.jobs), Jobs.Fail(id)) else old(store.jobs)
      ensures catalog.steady ==> settled
    {
      if !catalog.steady { if * { return false, Crash(worker); } }
      store.FailJob(id);
      return true, GiveUp(worker);
    }

    /** The end of a batch that was committed: back to the queue, or completed. */
    method SettleJob(id: string, result: ScanResult, worker: string) returns (settled: bool, ghost event: Event)
      requires id in store.jobs && store.jobs[id].status == Jobs.Running
      modifies store
      ensures Settled(id, settled, old(store.jobs), store.jobs)
      ensures event == if settled then Settle(worker) else Crash(worker)
      ensures var op := if result.done then Jobs.Complete(id) else Jobs.Requeue(id, result.nextCursor);
              store.jobs == if settled then Jobs.Apply(old(store.jobs), op) else old(store.jobs)
      ensures catalog.steady ==> settled
    {
      if !catalog.steady { if * { return false, Crash(worker); } }
      if !result.done {
        var requeued := store.RequeueJob(id, result.nextCursor);
      } else {
        store.CompleteJob(id);
      }
      return true, Settle(worker);
    }

    /** Giving up, as the protocol sees it. */
    method GiveUpBatch(id: string, trees: Trees, worker: string, ghost w: World) returns (settled: bool, ghost events: seq<Event>)
      requires id in store.jobs && store.jobs[id].status == Jobs.Running && w.jobs == store.jobs
      requires At(w, worker).Claimed? && At(w, worker).job == id
      modifies store
      ensures IsRun(trees, w, events) && End(trees, w, events).jobs == store.jobs && End(trees, w, events).rows == w.rows
      ensures Settled(id, settled, old(store.jobs), store.jobs)
      ensures store.jobs == if settled then Jobs.Apply(old(store.jobs), Jobs.Fail(id)) else old(store.jobs)
      ensures catalog.steady ==> settled && events == [GiveUp(worker)]
    {
      ghost var event;
      settled, event := GiveUpJob(id, worker);
      OneStep(trees, w, event, []);
      events := [event];
    }

    /** Settling a committed batch, as the protocol sees it. */
    method SettleBatch(id: string, result: ScanResult, trees: Trees, worker: string, ghost w: World)
      returns (settled: bool, ghost events: seq<Event>)
      requires id in store.jobs && store.jobs[id].status == Jobs.Running && w.jobs == store.jobs
      requires At(w, worker).Committed? && At(w, worker).job == id
      requires At(w, worker).done == result.done && (!result.done ==> At(w, worker).next == result.nextCursor)
      modifies store
      ensures IsRun(trees, w, events) && End(trees, w, events).jobs == store.jobs && End(trees, w, events).rows == w.rows
      ensures Settled(id, settled, old(store.jobs), store.jobs)
      ensures catalog.steady ==> settled && events == [Settle(worker)]
    {
      ghost var event;
      settled, event := SettleJob(id, result, worker);
      OneStep(trees, w, event, []);
      events := [event];
    }

    /** From a claimed job to a settled one. `standing` are the mounts whose identity is found as it
        was. Any failure on the way fails the job; when even that, or the settling, fails, the job is
        left running. */
    method RunCatalogScanBatch(id: string, mounts: Mounts, trees: Trees, standing: set<string>, worker: string,
                               ghost deleted: set<string>)
      returns (settled: bool, ghost events: seq<Event>)
      requires id in store.jobs && store.jobs[id].status == Jobs.Running
      requires forall m :: m in mounts ==> mounts[m].id == m && m in trees
      modifies store, catalog
      ensures var job := old(store.jobs[id]);
              var w := Move(old(Snapshot(deleted)), worker, Claimed(id, job.mount, job.cursor));
              && IsRun(trees, w, events)
              && End(trees, w, events).jobs == store.jobs && End(trees, w, events).rows == catalog.rows
      ensures Settled(id, settled, old(store.jobs), store.jobs)
      ensures catalog.steady ==>
                var mount := old(store.jobs[id]).mount;
                && settled
                && events == if CanScan(mounts, standing, mount) then [Commit(worker), Settle(worker)] else [GiveUp(worker)]
    {
      var job := store.jobs[id];
      ghost var w := Move(Snapshot(deleted), worker, Claimed(id, job.mount, job.cursor));
      if job.mount !in mounts || mounts[job.mount].status == Deleted || job.mount !in standing {
        settled, events := GiveUpBatch(id, trees, worker, w);
        return;
      }
      var result := catalog.ScanBatch(mounts[job.mount], trees[job.mount], DEFAULT_BATCH_SIZE, job.cursor);
      if result.Err? {
        settled, events := GiveUpBatch(id, trees, worker, w);
        return;
      }
      ghost var committed := Next(trees, w, Commit(worker));
      ghost var rest;
      settled, rest := SettleBatch(id, result.value, trees, worker, committed);
      OneStep(trees, w, Commit(worker), rest);
      events := [Commit(worker)] + rest;
    }

    /** Claims the next job, if any, and runs one batch of it. `stored` tells whether the statements
        on the job table took effect; where they did not, the job stays running, and with it every
        later claim comes to nothing. */
    method RunNextJobBatch(mounts: Mounts, trees: Trees, standing: set<string>, worker: string, ghost deleted: set<string>)
      returns (worked: bool, stored: bool, ghost events: seq<Event>)
      requires forall m :: m in mounts ==> mounts[m].id == m && m in trees
      modifies store, catalog
      ensures var w := old(Snapshot(deleted));
              && IsRun(trees, w, events)
              && End(trees, w, events).jobs == store.jobs && End(trees, w, events).rows == catalog.rows
      ensures catalog.steady && !Paths.Blank(worker) ==> stored
      ensures worked ==> !Jobs.AnyRunning(old(store.jobs))
      ensures !worked ==> store.jobs == old(store.jobs) && catalog.rows == old(catalog.rows)
      ensures !worked && stored ==>
                Jobs.AnyRunning(store.jobs) || forall id :: id in store.jobs ==> store.jobs[id].status != Jobs.Queued
      ensures worked ==> NextWasTreated(old(store.jobs), old(catalog.rows), store.jobs, catalog.rows, stored)
      ensures worked ==> (stored <==> !Jobs.AnyRunning(store.jobs))
    {
      ghost var w := Snapshot(deleted);
      if !catalog.steady { if * { return false, false, []; } }
      var claimed := store.ClaimNext(worker);
      if claimed.Err? || claimed.value.None? {
        return false, claimed.Ok?, [];
      }
      var id := claimed.value.value;
      ghost var started := Next(trees, w, Claim(worker, id));
      assert started.jobs == store.jobs;
      var settled;
      if store.jobs[id].kind != "catalog_scan" {
        settled, events := GiveUpBatch(id, trees, worker, started);
      } else {
        settled, events := RunCatalogScanBatch(id, mounts, trees, standing, worker, deleted);
      }
      OneStep(trees, w, Claim(worker, id), events);
      SettlingFrees(w.jobs, started.jobs, store.jobs, id, worker, settled);
      ClaimedIsTreated(id, worker, w.jobs, old(catalog.rows), store.jobs, catalog.rows, settled);
      return true, settled, [Claim(worker, id)] + events;
    }
  }
}
