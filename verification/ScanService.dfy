/** The job service and the catalog together: which jobs change the catalog, and how a job's worker
  * turns the end of a scan into its result. */
module ScanService {
  import opened Wrappers
  import opened CatalogModel
  import opened IncrementalScan
  import opened ScanPlanning
  import opened ArchiveDirectory
  import opened CatalogWriter
  import opened Runs
  import ScanHistory
  import ScanJobs
  import ScanRun

  type Scan = ScanHistory.Scan

  type JobId = ScanJobs.JobId

  /** The jobs, the catalog after each committed scan, the scans, and the jobs that committed them. */
  datatype State = State(jobs: ScanJobs.State, catalogs: seq<Work>, scans: seq<Scan>, writers: seq<JobId>)

  /** A critical section of the service, or the end of a scan together with its outcome. */
  datatype Event = Serves(event: ScanJobs.Event) | Ends(id: JobId, outcome: ScanJobs.Status, scan: Scan)

  ghost predicate Initial(s: State) {
    s == State(ScanJobs.State(map[], 1), [Work(EMPTY_CATALOG, map[])], [], [])
  }

  ghost function Current(s: State): Work
    requires s.catalogs != []
  {
    s.catalogs[|s.catalogs| - 1]
  }

  ghost predicate Newest(scans: seq<Scan>, id: ScanId) { forall k :: 0 <= k < |scans| ==> scans[k].id < id }

  /** Only a job that completes changes the catalog. */
  ghost predicate Step(s: State, e: Event, s': State) {
    match e
    case Serves(event) => !event.Returns? && ScanJobs.Step(s.jobs, event, s'.jobs) && s' == s.(jobs := s'.jobs)
    case Ends(id, outcome, scan) =>
      && ScanJobs.Step(s.jobs, ScanJobs.Returns(id, outcome), s'.jobs) && s.catalogs != []
      && if outcome.Completed? then
           && ScanHistory.Admissible(Current(s).cat, scan) && Newest(s.scans, scan.id)
           && s' == State(s'.jobs, s.catalogs + [ScanHistory.Committed(Current(s), scan)], s.scans + [scan],
                          s.writers + [id])
         else s' == s.(jobs := s'.jobs)
  }

  // ---------------------------------------------------------------- the invariant

  /** The job completed, or is about to. */
  predicate Succeeded(r: ScanJobs.Record) { r.status.Completed? || r.worker == ScanJobs.Returned(ScanJobs.Completed) }

  /** The jobs that committed are those that succeeded, each once. */
  ghost predicate WrittenByJobs(s: State) {
    && |s.writers| == |s.scans|
    && (forall k :: 0 <= k < |s.writers| ==> s.writers[k] < s.jobs.nextId)
    && OnePerJob(s.writers)
    && (forall id :: id in s.jobs.jobs ==> (id in s.writers <==> Succeeded(s.jobs.jobs[id])))
  }

  ghost predicate Inv(s: State) { ScanJobs.Inv(s.jobs) && ScanHistory.IsRun(s.catalogs, s.scans) && WrittenByJobs(s) }

  lemma CommitExtendsRun(catalogs: seq<Work>, scans: seq<Scan>, scan: Scan)
    requires ScanHistory.IsRun(catalogs, scans) && Newest(scans, scan.id)
    requires ScanHistory.Admissible(catalogs[|catalogs| - 1].cat, scan)
    ensures ScanHistory.IsRun(catalogs + [ScanHistory.Committed(catalogs[|catalogs| - 1], scan)], scans + [scan])
  {
    var ws, all := catalogs + [ScanHistory.Committed(catalogs[|catalogs| - 1], scan)], scans + [scan];
    forall k | 0 <= k < |all|
      ensures ScanHistory.Admissible(ws[k].cat, all[k]) && ws[k + 1] == ScanHistory.Committed(ws[k], all[k])
    {
      if k < |scans| { assert all[k] == scans[k] && ws[k] == catalogs[k] && ws[k + 1] == catalogs[k + 1]; }
    }
    forall k, m | 0 <= k < m < |all| ensures all[k].id < all[m].id {
      if m < |scans| { assert scans[k].id < scans[m].id; }
    }
  }

  /** A critical section other than the end of a scan changes no job's success. */
  lemma ServedSucceeds(s: ScanJobs.State, event: ScanJobs.Event, s': ScanJobs.State, id: JobId)
    requires ScanJobs.Inv(s) && ScanJobs.Step(s, event, s') && !event.Returns? && id in s'.jobs
    ensures id in s.jobs ==> (Succeeded(s'.jobs[id]) <==> Succeeded(s.jobs[id]))
    ensures id !in s.jobs ==> id == s.nextId && !Succeeded(s'.jobs[id])
    ensures s.nextId <= s'.nextId
  {
    if id in s.jobs { assert ScanJobs.RecordInv(s.jobs[id]); }
  }

  lemma ServedKeepsWrittenByJobs(s: State, event: ScanJobs.Event, s': State)
    requires Inv(s) && Step(s, Serves(event), s')
    ensures WrittenByJobs(s')
  {
    forall id | id in s'.jobs.jobs ensures id in s'.writers <==> Succeeded(s'.jobs.jobs[id]) {
      ServedSucceeds(s.jobs, event, s'.jobs, id);
    }
    assert s.jobs.nextId <= s'.jobs.nextId;
  }

  lemma EndedKeepsWrittenByJobs(s: State, e: Event, s': State)
    requires Inv(s) && Step(s, e, s') && e.Ends?
    ensures WrittenByJobs(s')
  {
    assert ScanJobs.RecordInv(s.jobs.jobs[e.id]);
    assert e.id !in s.writers;
    forall id | id in s'.jobs.jobs ensures id in s'.writers <==> Succeeded(s'.jobs.jobs[id]) {
      if id != e.id { assert s'.jobs.jobs[id] == s.jobs.jobs[id] && (id in s'.writers <==> id in s.writers); }
    }
  }

  lemma StepKeepsInv(s: State, e: Event, s': State)
    requires Inv(s) && Step(s, e, s')
    ensures Inv(s')
  {
    match e
    case Serves(event) =>
      ScanJobs.StepKeepsInv(s.jobs, event, s'.jobs);
      ServedKeepsWrittenByJobs(s, event, s');
    case Ends(id, outcome, scan) =>
      ScanJobs.StepKeepsInv(s.jobs, ScanJobs.Returns(id, outcome), s'.jobs);
      EndedKeepsWrittenByJobs(s, e, s');
      if outcome.Completed? { CommitExtendsRun(s.catalogs, s.scans, scan); }
  }

  // ---------------------------------------------------------------- whole runs

  ghost predicate IsRun(states: seq<State>, events: seq<Event>) { IsRunOf(Step, states, events) && Initial(states[0]) }

  /** Whatever jobs were started, cancelled, failed and removed: the catalog is what the scans of the
    * completed jobs made of it, one scan to a job, and no other job left a trace in it; what readers
    * see as available is decided by the snapshot of the last completed job alone. */
  lemma OnlyCompletedJobsCommit(states: seq<State>, events: seq<Event>, n: nat)
    requires IsRun(states, events) && n < |states|
    ensures var s := states[n];
      ScanHistory.IsRun(s.catalogs, s.scans) && |s.writers| == |s.scans| && OnePerJob(s.writers)
    ensures forall id :: id in states[n].jobs.jobs && ScanJobs.Terminal(states[n].jobs.jobs[id].status) ==>
      (states[n].jobs.jobs[id].status.Completed? <==> id in states[n].writers)
    ensures states[n].scans != [] ==> ShowsLast(Current(states[n]).cat, states[n].scans)
  {
    RunKeepsInv(states, events, n);
    CompletedWrote(states[n]);
    if states[n].scans != [] { LastIsShown(states[n]); }
  }

  ghost predicate OnePerJob(writers: seq<JobId>) { forall k, m :: 0 <= k < m < |writers| ==> writers[k] != writers[m] }

  /** Available is what the last snapshot lists and does not delete later. */
  ghost predicate ShowsLast(c: Catalog, scans: seq<Scan>)
    requires scans != []
  {
    forall l :: l in ScanHistory.AvailableRows(c) <==> ScanHistory.ListedAndKept(scans[|scans| - 1].x, l)
  }

  lemma RunKeepsInv(states: seq<State>, events: seq<Event>, n: nat)
    requires IsRun(states, events) && n < |states|
    ensures Inv(states[n])
  {
    forall s, e, s' | Inv(s) && Step(s, e, s') ensures Inv(s') { StepKeepsInv(s, e, s'); }
    InitialInv(states[0]);
    Invariant(Step, Inv, states, events, n);
  }

  lemma CompletedWrote(s: State)
    requires Inv(s)
    ensures forall id ::
      id in s.jobs.jobs && ScanJobs.Terminal(s.jobs.jobs[id].status) ==>
        (s.jobs.jobs[id].status.Completed? <==> id in s.writers)
  {
    forall id | id in s.jobs.jobs && ScanJobs.Terminal(s.jobs.jobs[id].status)
      ensures s.jobs.jobs[id].status.Completed? <==> id in s.writers
    {
      assert ScanJobs.RecordInv(s.jobs.jobs[id]);
    }
  }

  lemma LastIsShown(s: State)
    requires Inv(s) && s.scans != []
    ensures ShowsLast(Current(s).cat, s.scans)
  {
    ScanHistory.HistoryIndependence(s.catalogs, s.scans);
  }

  lemma InitialInv(s: State)
    requires Initial(s)
    ensures Inv(s)
  {
  }

  // ---------------------------------------------------------------- the worker

  /** Calls from other threads while the worker of `id` scans. */
  method Meanwhile(service: ScanJobs.JobService, id: JobId)
    requires service.Valid() && id in service.jobs && service.jobs[id].worker.Scanning?
    modifies service
    ensures service.Valid() && id in service.jobs && service.jobs[id].worker.Scanning?
    ensures old(service.jobs)[id].stopRequested ==> service.jobs[id].stopRequested
  {
    var calls: nat := *;
    while calls > 0
      invariant service.Valid() && id in service.jobs && service.jobs[id].worker.Scanning?
      invariant old(service.jobs)[id].stopRequested ==> service.jobs[id].stopRequested
    {
      assert ScanJobs.RecordInv(service.jobs[id]);
      var target: JobId := *;
      var cancels: bool := *;
      if cancels { var requested := service.Cancel(target); } else { var removed := service.Remove(target); }
      calls := calls - 1;
    }
  }

  /** The body of a job's worker thread: scan, then store the outcome.  Completed means published;
    * Failed and Cancelled mean that the stored catalog is as it was. */
  method RunJob(service: ScanJobs.JobService, id: JobId, store: CatalogStore, world: ArchiveWorld,
                resolve: map<SegmentName, ArchivePath>,
                mode: Mode, x: Inpx, scanId: ScanId, maxInFlight: nat, maxBytes: nat, coverBudget: nat)
    returns (ghost scan: Scan)
    requires service.Valid() && id in service.jobs && service.jobs[id].worker.Scanning?
    requires store.Valid() && FreshId(store.tables, scanId) && maxInFlight > 0
    modifies service, store, world
    ensures service.Valid() && store.Valid()
    ensures id in service.jobs && service.jobs[id].worker.Done?
      && service.jobs[id].result == Some(service.jobs[id].status)
    ensures service.jobs[id].status.Completed? ==>
      scan.x == x && ScanHistory.Admissible(old(store.tables.cat), scan) && store.tables == ScanHistory.Committed(old(store.tables), scan)
    ensures service.jobs[id].status.Completed? ==> store.tables.cat == Rebuilt(old(store.tables.cat), x, scan.facts)
    ensures !service.jobs[id].status.Completed? ==> store.tables == old(store.tables) && store.stats == old(store.stats)
    ensures service.jobs[id].status.Cancelled? ==> service.jobs[id].stopRequested
  {
    service.Report(id, false);
    ghost var guards, validation;
    var end;
    end, scan, guards, validation := ScanRun.RunScan(store, world, resolve, mode, x, scanId, maxInFlight, maxBytes,
                                                     coverBudget);
    Meanwhile(service, id);
    var outcome := ScanJobs.Completed;
    if end.Discarded? {
      // A stop request that was not seen leaves another exception to report.
      var seen: bool := *;
      outcome := if seen && service.jobs[id].stopRequested then ScanJobs.Cancelled else ScanJobs.Failed;
    }
    service.Return(id, outcome);
    service.PublishResult(id);
  }
}
