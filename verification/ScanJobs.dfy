/** The scan job service: starting, cancelling and removing jobs while a worker thread runs. */
module ScanJobs {
  import opened Wrappers
  import opened Runs

  type JobId = nat

  datatype Status = Pending | Running | Cancelling | Completed | Failed | Cancelled

  predicate Terminal(s: Status) { s.Completed? || s.Failed? || s.Cancelled? }

  /** Where the worker of a job stands: not yet started by Start, inside RunScan, out of it with an
    * outcome that is not yet published, or done. */
  datatype Worker = Unstarted | Scanning | Returned(outcome: Status) | Done

  /** `stopRequested` is what the worker can see; `asked` notes that Cancel was called. */
  datatype Record = Record(status: Status, result: Option<Status>, worker: Worker, stopRequested: bool, asked: bool)

  datatype State = State(jobs: map<JobId, Record>, nextId: JobId)

  // ---------------------------------------------------------------- the critical sections

  datatype Event =
    | Admits
    | Refuses
    | Aborts(id: JobId)
    | Launches(id: JobId)
    | Reports(id: JobId)
    | Returns(id: JobId, outcome: Status)
    | Publishes(id: JobId)
    | Cancels(id: JobId)
    | Removes(id: JobId)

  predicate AllTerminal(jobs: map<JobId, Record>) { forall id :: id in jobs ==> Terminal(jobs[id].status) }

  const QUEUED := Record(Pending, None, Unstarted, false, false)

  function Admitted(s: State): State { State(s.jobs[s.nextId := QUEUED], s.nextId + 1) }

  function With(s: State, id: JobId, r: Record): State { s.(jobs := s.jobs[id := r]) }

  function Without(s: State, id: JobId): State { s.(jobs := s.jobs - {id}) }

  /** What the worker writes while it scans; a requested stop shows as Cancelling. */
  function Reported(r: Record, cancelling: bool): Record { r.(status := if cancelling then Cancelling else Running) }

  function Published(r: Record): Record
    requires r.worker.Returned?
  {
    r.(status := r.worker.outcome, result := Some(r.worker.outcome), worker := Done)
  }

  /** A stop requested before the worker thread exists reaches no one. */
  function CancelRequested(r: Record): Record {
    r.(status := Cancelling, stopRequested := r.stopRequested || !r.worker.Unstarted?, asked := true)
  }

  ghost predicate Step(s: State, e: Event, s': State) {
    match e
    case Admits => AllTerminal(s.jobs) && s' == Admitted(s)
    case Refuses => !AllTerminal(s.jobs) && s' == s
    case Aborts(id) => id in s.jobs && s.jobs[id].worker.Unstarted? && s' == Without(s, id)
    case Launches(id) => id in s.jobs && s.jobs[id].worker.Unstarted? && s' == With(s, id, s.jobs[id].(worker := Scanning))
    case Reports(id) =>
      id in s.jobs && s.jobs[id].worker.Scanning?
      && exists cancelling ::
         (cancelling ==> s.jobs[id].stopRequested) && s' == With(s, id, Reported(s.jobs[id], cancelling))
    case Returns(id, outcome) =>
      && id in s.jobs && s.jobs[id].worker.Scanning? && Terminal(outcome)
         && (outcome.Cancelled? ==> s.jobs[id].stopRequested)
      && s' == With(s, id, s.jobs[id].(worker := Returned(outcome)))
    case Publishes(id) => id in s.jobs && s.jobs[id].worker.Returned? && s' == With(s, id, Published(s.jobs[id]))
    case Cancels(id) =>
      if id in s.jobs && !Terminal(s.jobs[id].status) then s' == With(s, id, CancelRequested(s.jobs[id])) else s' == s
    case Removes(id) =>
      if id in s.jobs && s.jobs[id].result.Some? then s' == Without(s, id) else s' == s
  }

  // ---------------------------------------------------------------- the invariant

  /** A job is terminal exactly when it has a result, and exactly when its worker is done. */
  ghost predicate RecordInv(r: Record) {
    && (Terminal(r.status) <==> r.result.Some?) && (r.result.Some? ==> r.result == Some(r.status))
    && (r.worker.Done? <==> Terminal(r.status))
    && (r.worker.Returned? ==> Terminal(r.worker.outcome) && (r.worker.outcome.Cancelled? ==> r.stopRequested))
    && (r.status.Cancelled? ==> r.stopRequested)
    && (r.stopRequested || r.status.Cancelling? ==> r.asked) && (r.status.Running? ==> !r.worker.Unstarted?)
  }

  ghost predicate RecordsInv(s: State) { forall id :: id in s.jobs ==> id < s.nextId && RecordInv(s.jobs[id]) }

  ghost predicate OneActive(jobs: map<JobId, Record>) {
    forall i, j :: i in jobs && j in jobs && !Terminal(jobs[i].status) && !Terminal(jobs[j].status) ==> i == j
  }

  ghost predicate Inv(s: State) { RecordsInv(s) && OneActive(s.jobs) }

  lemma StepKeepsInv(s: State, e: Event, s': State)
    requires Inv(s) && Step(s, e, s')
    ensures Inv(s')
  {
    forall id | id in s'.jobs ensures id < s'.nextId && RecordInv(s'.jobs[id]) {
      if id in s.jobs { assert RecordInv(s.jobs[id]); }
    }
  }

  // ---------------------------------------------------------------- whole runs

  ghost predicate IsRun(states: seq<State>, events: seq<Event>) {
    IsRunOf(Step, states, events) && states[0] == State(map[], 1)
  }

  lemma RunKeepsInv(states: seq<State>, events: seq<Event>, n: nat)
    requires IsRun(states, events) && n < |states|
    ensures Inv(states[n])
  {
    forall s, e, s' | Inv(s) && Step(s, e, s') ensures Inv(s') { StepKeepsInv(s, e, s'); }
    Invariant(Step, Inv, states, events, n);
  }

  /** At every moment at most one job is not terminal, and in particular scans never overlap; and a
    * job is terminal exactly when its result is there to read. */
  lemma ScansNeverOverlap(states: seq<State>, events: seq<Event>, n: nat, i: JobId, j: JobId)
    requires IsRun(states, events) && n < |states| && i in states[n].jobs && j in states[n].jobs
    ensures !states[n].jobs[i].worker.Done? && !states[n].jobs[j].worker.Done? ==> i == j
    ensures Terminal(states[n].jobs[i].status) <==> states[n].jobs[i].result == Some(states[n].jobs[i].status)
    ensures states[n].jobs[i].status.Cancelled? ==> states[n].jobs[i].stopRequested
    ensures states[n].jobs[i].status.Cancelling? ==> states[n].jobs[i].asked
    ensures states[n].jobs[i].status.Running? ==>
      states[n].jobs[i].worker.Scanning? || states[n].jobs[i].worker.Returned?
  {
    RunKeepsInv(states, events, n);
    assert RecordInv(states[n].jobs[i]) && RecordInv(states[n].jobs[j]);
  }

  /** Only Cancel asks a job to stop, and it shows at once; no other step but a report of the worker,
    * after it has seen the request, shows a job as cancelling. */
  lemma WhoCancels(s: State, e: Event, s': State, id: JobId)
    requires Inv(s) && Step(s, e, s') && id in s'.jobs && (id in s.jobs || s'.jobs[id] != QUEUED)
    ensures id in s.jobs
    ensures s'.jobs[id].asked != s.jobs[id].asked ==> e == Cancels(id) && s'.jobs[id].status == Cancelling
    ensures e == Cancels(id) && !Terminal(s.jobs[id].status) ==> s'.jobs[id].asked && s'.jobs[id].status == Cancelling
    ensures s'.jobs[id].status == Cancelling && s.jobs[id].status != Cancelling ==>
      e == Cancels(id) || (e == Reports(id) && s.jobs[id].stopRequested)
    ensures s'.jobs[id].status == Running && s.jobs[id].status != Running ==>
      e == Reports(id) && s.jobs[id].worker == Scanning
    ensures s'.jobs[id].stopRequested != s.jobs[id].stopRequested ==> e == Cancels(id) && s.jobs[id].worker != Unstarted
    ensures e == Cancels(id) && !Terminal(s.jobs[id].status) && s.jobs[id].worker != Unstarted ==>
      s'.jobs[id].stopRequested
  {
  }

  /** A job begins pending, without a result, asked nothing. */
  lemma HowJobsBegin(s: State, e: Event, s': State, id: JobId)
    requires Step(s, e, s') && id in s'.jobs && id !in s.jobs
    ensures e == Admits && id == s.nextId && s'.nextId == s.nextId + 1 && AllTerminal(s.jobs)
    ensures var r := s'.jobs[id];
      r.status == Pending && r.result == None && r.worker == Unstarted && !r.stopRequested && !r.asked
  {
  }

  lemma TerminalStays(s: State, e: Event, s': State, id: JobId)
    requires Inv(s) && Step(s, e, s') && id in s.jobs && Terminal(s.jobs[id].status)
    ensures id in s'.jobs ==> s'.jobs[id] == s.jobs[id]
    ensures id < s'.nextId
  {
    assert RecordInv(s.jobs[id]);
  }

  lemma GoneStays(s: State, e: Event, s': State, id: JobId)
    requires Step(s, e, s') && id < s.nextId && id !in s.jobs
    ensures id < s'.nextId && id !in s'.jobs
  {
  }

  /** A terminal job never changes again: it stays as it is until it is removed, and its id is never
    * given to another job. */
  lemma {:induction false} TerminalIsAbsorbing(states: seq<State>, events: seq<Event>, m: nat, n: nat, id: JobId)
    requires IsRun(states, events) && m <= n < |states| && id in states[m].jobs && Terminal(states[m].jobs[id].status)
    ensures id in states[n].jobs ==> states[n].jobs[id] == states[m].jobs[id]
    ensures id < states[n].nextId
    decreases n
  {
    if m == n {
      RunKeepsInv(states, events, m);
    } else {
      TerminalIsAbsorbing(states, events, m, n - 1, id);
      RunKeepsInv(states, events, n - 1);
      assert Step(states[n - 1], events[n - 1], states[n - 1 + 1]);
      if id in states[n - 1].jobs {
        TerminalStays(states[n - 1], events[n - 1], states[n], id);
      } else {
        GoneStays(states[n - 1], events[n - 1], states[n], id);
      }
    }
  }

  // ---------------------------------------------------------------- the service, updated in place

  /** CInpxScanJobService.  Each method is one critical section; Start is Admit followed by Launch
    * or Abort, and the worker is Report, Return and PublishResult. */
  class JobService {
    var jobs: map<JobId, Record>
    var nextId: JobId

    ghost function View(): State
      reads this
    {
      State(jobs, nextId)
    }

    ghost predicate Valid()
      reads this
    {
      Inv(View())
    }

    constructor ()
      ensures Valid() && View() == State(map[], 1)
    {
      jobs, nextId := map[], 1;
    }

    /** The locked part of Start: refuses while any job is not terminal. */
    method Admit() returns (id: Option<JobId>)
      requires Valid()
      modifies this
      ensures Valid() && Step(old(View()), if id.Some? then Admits else Refuses, View())
      ensures id.Some? ==> id.value == old(nextId) && id.value in jobs
    {
      var todo := jobs.Keys;
      while todo != {}
        invariant todo <= jobs.Keys && View() == old(View())
        invariant forall j :: j in jobs && j !in todo ==> Terminal(jobs[j].status)
        decreases todo
      {
        var j :| j in todo;
        if !Terminal(jobs[j].status) { return None; }
        todo := todo - {j};
      }
      id := Some(nextId);
      jobs, nextId := jobs[nextId := QUEUED], nextId + 1;
      StepKeepsInv(old(View()), Admits, View());
    }

    /** The workspace or the thread could not be created. */
    method Abort(id: JobId)
      requires Valid() && id in jobs && jobs[id].worker.Unstarted?
      modifies this
      ensures Valid() && Step(old(View()), Aborts(id), View())
    {
      jobs := jobs - {id};
      StepKeepsInv(old(View()), Aborts(id), View());
    }

    method Launch(id: JobId)
      requires Valid() && id in jobs && jobs[id].worker.Unstarted?
      modifies this
      ensures Valid() && Step(old(View()), Launches(id), View())
    {
      jobs := jobs[id := jobs[id].(worker := Scanning)];
      StepKeepsInv(old(View()), Launches(id), View());
    }

    /** PublishSnapshot from inside RunScan. */
    method Report(id: JobId, cancelling: bool)
      requires Valid() && id in jobs && jobs[id].worker.Scanning? && (cancelling ==> jobs[id].stopRequested)
      modifies this
      ensures Valid() && Step(old(View()), Reports(id), View())
      ensures jobs[id].status == if cancelling then Cancelling else Running
    {
      jobs := jobs[id := Reported(jobs[id], cancelling)];
      StepKeepsInv(old(View()), Reports(id), View());
    }

    /** RunScan returns, is cancelled, or throws. */
    method Return(id: JobId, outcome: Status)
      requires Valid() && id in jobs && jobs[id].worker.Scanning? && Terminal(outcome)
        && (outcome.Cancelled? ==> jobs[id].stopRequested)
      modifies this
      ensures Valid() && Step(old(View()), Returns(id, outcome), View())
    {
      jobs := jobs[id := jobs[id].(worker := Returned(outcome))];
      StepKeepsInv(old(View()), Returns(id, outcome), View());
    }

    /** The worker stores the snapshot and the result together. */
    method PublishResult(id: JobId)
      requires Valid() && id in jobs && jobs[id].worker.Returned?
      modifies this
      ensures Valid() && Step(old(View()), Publishes(id), View())
      ensures jobs[id].result == Some(old(jobs)[id].worker.outcome)
    {
      jobs := jobs[id := Published(jobs[id])];
      StepKeepsInv(old(View()), Publishes(id), View());
    }

    /** Cancel: the request reaches the worker if Start has returned. */
    method Cancel(id: JobId) returns (requested: bool)
      requires Valid()
      modifies this
      ensures Valid() && Step(old(View()), Cancels(id), View())
      ensures requested <==> id in old(jobs) && !Terminal(old(jobs)[id].status)
      ensures requested ==> jobs[id].status == Cancelling && jobs[id].asked
      ensures requested && !old(jobs)[id].worker.Unstarted? ==> jobs[id].stopRequested
    {
      if id !in jobs || Terminal(jobs[id].status) { return false; }
      jobs := jobs[id := CancelRequested(jobs[id])];
      StepKeepsInv(old(View()), Cancels(id), View());
      return true;
    }

    method Remove(id: JobId) returns (removed: bool)
      requires Valid()
      modifies this
      ensures Valid() && Step(old(View()), Removes(id), View())
      ensures removed <==> id in old(jobs) && Terminal(old(jobs)[id].status)
    {
      assert id in jobs ==> RecordInv(jobs[id]);
      if id !in jobs || jobs[id].result.None? { return false; }
      jobs := jobs - {id};
      StepKeepsInv(old(View()), Removes(id), View());
      return true;
    }
  }
}
