/** Every snapshot that is not empty, readable and unambiguous has plans in either mode, and payloads
  * that fit them.  Whether a scan that runs commits is said in ScanRun. */
module ScanTotality {
  import opened Wrappers
  import opened CatalogModel
  import opened IncrementalScan
  import opened IncrementalScanProof
  import opened ScanPlanning
  import opened ScanHistory

  // ---------------------------------------------------------------- plans

  /** One removal for each of the given segments. */
  ghost predicate RemovesExactly(c: Catalog, gone: set<SegmentName>, plans: seq<Plan>) {
    && (forall i :: 0 <= i < |plans| ==> RemovalFits(c, plans[i]) && plans[i].name in gone)
    && (forall i, j :: 0 <= i < j < |plans| ==> plans[i].name != plans[j].name)
    && (forall s :: s in gone ==> NamedIn(plans, s))
  }

  lemma {:induction false} Removals(c: Catalog, gone: set<SegmentName>) returns (plans: seq<Plan>)
    requires gone <= c.segments.Keys
    ensures RemovesExactly(c, gone, plans)
  {
    plans := [];
    if gone != {} {
      var s :| s in gone;
      var rest := Removals(c, gone - {s});
      plans := rest + [RemovedPlan(s, c.segments[s])];
      forall t | t in gone ensures NamedIn(plans, t) {
        if t == s {
          assert plans[|rest|].name == t;
        } else {
          assert NamedIn(rest, t);
          var i :| 0 <= i < |rest| && rest[i].name == t;
          assert plans[i].name == t;
        }
      }
    }
  }

  lemma {:induction false} CurrentPlans(c: Catalog, mode: Mode, x: Inpx, world: Sources, n: nat)
    returns (plans: seq<Plan>)
    requires Inv(c) && DistinctNames(x) && Readable(x, world) && Honest(c, world) && n <= |x|
    ensures |plans| == n && forall i :: 0 <= i < n ==> PlanSegment(c, mode, x[i], i, world) == Some(plans[i])
  {
    plans := [];
    if n > 0 {
      var front := CurrentPlans(c, mode, x, world, n - 1);
      PlanIsAccurate(c, mode, x, n - 1, world);
      plans := front + [PlanSegment(c, mode, x[n - 1], n - 1, world).value];
    }
  }

  lemma SnapshotIsPlannable(c: Catalog, mode: Mode, x: Inpx, world: Sources) returns (plans: seq<Plan>)
    requires Inv(c) && DistinctNames(x) && Readable(x, world) && Honest(c, world)
    ensures PlannedIn(c, mode, x, world, plans)
  {
    var current := CurrentPlans(c, mode, x, world, |x|);
    var removals := Removals(c, c.segments.Keys - Names(x));
    plans := current + removals;
    forall s | s in c.segments && s !in Names(x) ensures exists i :: |x| <= i < |plans| && plans[i].name == s {
      assert NamedIn(removals, s);
      var k :| 0 <= k < |removals| && removals[k].name == s;
      assert plans[|x| + k].name == s;
    }
  }

  // ---------------------------------------------------------------- payloads

  predicate Before(i: int, j: int, k: nat, n: nat) { i < k || (i == k && j < n) }

  ghost predicate FromBefore(plans: seq<Plan>, size: nat, k: nat, n: nat, t: Task) {
    exists i, j :: 0 <= i < size && i < |plans| && Before(i, j, k, n) && TaskOf(plans[i], j, t)
  }

  ghost predicate HasTaskAt(plans: seq<Plan>, i: int, j: int, tasks: seq<Task>)
    requires 0 <= i < |plans|
  {
    exists a :: 0 <= a < |tasks| && TaskOf(plans[i], j, tasks[a])
  }

  /** The tasks of the active records of reparsed segments before a position, each once. */
  ghost predicate TasksBefore(plans: seq<Plan>, size: nat, k: nat, n: nat, tasks: seq<Task>)
    requires size <= |plans|
  {
    && DistinctTasks(tasks)
    && (forall a :: 0 <= a < |tasks| ==> FromBefore(plans, size, k, n, tasks[a]))
    && (forall i, j :: 0 <= i < size && Before(i, j, k, n) && Reparsed(plans[i]) && 0 <= j < |plans[i].parsed| && IsActive(plans[i].parsed[j])
          ==> HasTaskAt(plans, i, j, tasks))
  }

  /** A later record has another LibId than every task before it. */
  lemma NewLibId(c: Catalog, x: Inpx, facts: ArchiveFacts, plans: seq<Plan>, k: nat, n: nat, t: Task, earlier: Task)
    requires Unambiguous(x) && PlansFit(c, x, facts, plans) && k < |x| && TaskOf(plans[k], n, t)
    requires FromBefore(plans, |x|, k, n, earlier)
    ensures earlier.record.libId != t.record.libId
  {
    var i, j :| 0 <= i < |x| && i < |plans| && Before(i, j, k, n) && TaskOf(plans[i], j, earlier);
    assert PlanFits(c, x[i], i, facts, plans[i]) && PlanFits(c, x[k], k, facts, plans[k]);
    assert Lists(x, i, j, earlier.record.libId) && Lists(x, k, n, t.record.libId);
  }

  lemma OneMoreTask(c: Catalog, x: Inpx, facts: ArchiveFacts, plans: seq<Plan>, k: nat, n: nat, tasks: seq<Task>,
                    t: Task)
    requires Unambiguous(x) && PlansFit(c, x, facts, plans) && k < |x| && TaskOf(plans[k], n, t)
    requires TasksBefore(plans, |x|, k, n, tasks)
    ensures TasksBefore(plans, |x|, k, n + 1, tasks + [t])
  {
    var more := tasks + [t];
    forall a | 0 <= a < |tasks| ensures tasks[a].record.libId != t.record.libId {
      NewLibId(c, x, facts, plans, k, n, t, tasks[a]);
    }
    forall a | 0 <= a < |more| ensures FromBefore(plans, |x|, k, n + 1, more[a]) {
      if a < |tasks| {
        assert FromBefore(plans, |x|, k, n, tasks[a]);
        var i, j :| 0 <= i < |x| && i < |plans| && Before(i, j, k, n) && TaskOf(plans[i], j, tasks[a]);
        assert Before(i, j, k, n + 1) && TaskOf(plans[i], j, more[a]);
      } else {
        assert Before(k, n, k, n + 1) && TaskOf(plans[k], n, more[a]);
      }
    }
    forall i, j | 0 <= i < |x| && Before(i, j, k, n + 1) && Reparsed(plans[i]) && 0 <= j < |plans[i].parsed| && IsActive(plans[i].parsed[j])
      ensures HasTaskAt(plans, i, j, more)
    {
      if Before(i, j, k, n) {
        assert HasTaskAt(plans, i, j, tasks);
        var a :| 0 <= a < |tasks| && TaskOf(plans[i], j, tasks[a]);
        assert TaskOf(plans[i], j, more[a]);
      } else {
        assert TaskOf(plans[i], j, more[|tasks|]);
      }
    }
  }

  lemma NoTaskHere(plans: seq<Plan>, size: nat, k: nat, n: nat, k': nat, n': nat, tasks: seq<Task>)
    requires size <= |plans| && TasksBefore(plans, size, k, n, tasks)
    requires forall i, j :: Before(i, j, k, n) ==> Before(i, j, k', n')
    requires forall i, j :: (0 <= i < size && Before(i, j, k', n') && !Before(i, j, k, n)
      ==> !(Reparsed(plans[i]) && 0 <= j < |plans[i].parsed| && IsActive(plans[i].parsed[j])))
    ensures TasksBefore(plans, size, k', n', tasks)
  {
    forall a | 0 <= a < |tasks| ensures FromBefore(plans, size, k', n', tasks[a]) {
      assert FromBefore(plans, size, k, n, tasks[a]);
      var i, j :| 0 <= i < size && i < |plans| && Before(i, j, k, n) && TaskOf(plans[i], j, tasks[a]);
      assert Before(i, j, k', n');
    }
  }

  lemma NextRecord(c: Catalog, x: Inpx, facts: ArchiveFacts, plans: seq<Plan>, k: nat, n: nat, tasks: seq<Task>)
    returns (more: seq<Task>)
    requires Unambiguous(x) && FactsFit(x, facts) && PlansFit(c, x, facts, plans)
    requires k < |x| && n < |plans[k].parsed| && TasksBefore(plans, |x|, k, n, tasks)
    ensures TasksBefore(plans, |x|, k, n + 1, more)
  {
    assert PlanFits(c, x[k], k, facts, plans[k]);
    if Reparsed(plans[k]) && IsActive(plans[k].parsed[n]) {
      var t := Task(plans[k].name, plans[k].parsed[n], facts[x[k].name].manifest[plans[k].parsed[n].entry]);
      OneMoreTask(c, x, facts, plans, k, n, tasks, t);
      more := tasks + [t];
    } else {
      NoTaskHere(plans, |x|, k, n, k, n + 1, tasks);
      more := tasks;
    }
  }

  lemma NextSegment(plans: seq<Plan>, size: nat, k: nat, tasks: seq<Task>)
    requires k < size <= |plans| && TasksBefore(plans, size, k, |plans[k].parsed|, tasks)
    ensures TasksBefore(plans, size, k + 1, 0, tasks)
  {
    NoTaskHere(plans, size, k, |plans[k].parsed|, k + 1, 0, tasks);
  }

  lemma {:induction false} Payloads(c: Catalog, x: Inpx, facts: ArchiveFacts, plans: seq<Plan>, k: nat, n: nat)
    returns (tasks: seq<Task>)
    requires Unambiguous(x) && FactsFit(x, facts) && PlansFit(c, x, facts, plans)
    requires k <= |x| && (k == |x| ==> n == 0) && (k < |x| ==> n <= |plans[k].parsed|)
    ensures TasksBefore(plans, |x|, k, n, tasks)
    decreases k, n
  {
    tasks := [];
    if n > 0 {
      tasks := Payloads(c, x, facts, plans, k, n - 1);
      tasks := NextRecord(c, x, facts, plans, k, n - 1, tasks);
    } else if k > 0 {
      tasks := Payloads(c, x, facts, plans, k - 1, |plans[k - 1].parsed|);
      NextSegment(plans, |x|, k - 1, tasks);
    }
  }

  lemma AllTasksFit(c: Catalog, x: Inpx, facts: ArchiveFacts, plans: seq<Plan>, tasks: seq<Task>)
    requires PlansFit(c, x, facts, plans) && TasksBefore(plans, |x|, |x|, 0, tasks)
    ensures TasksFit(plans, tasks)
  {
    forall a | 0 <= a < |tasks| ensures Planned(plans, tasks[a]) {
      assert FromBefore(plans, |x|, |x|, 0, tasks[a]);
      var i, j :| 0 <= i < |x| && i < |plans| && Before(i, j, |x|, 0) && TaskOf(plans[i], j, tasks[a]);
    }
    forall i, j | 0 <= i < |plans| && Reparsed(plans[i]) && 0 <= j < |plans[i].parsed| && IsActive(plans[i].parsed[j])
      ensures exists a :: 0 <= a < |tasks| && TaskOf(plans[i], j, tasks[a])
    {
      assert Before(i, j, |x|, 0);
      assert HasTaskAt(plans, i, j, tasks);
    }
  }

  /** Into any catalog that satisfies the invariant, in either mode: there are plans and payloads, and
    * writing them commits the declared catalog. */
  lemma EverySnapshotHasAScan(w: Work, mode: Mode, x: Inpx, world: Sources, id: ScanId) returns (scan: Scan)
    requires Inv(w.cat) && FreshId(w, id) && Unambiguous(x) && Readable(x, world) && Honest(w.cat, world)
    requires x != [] && FactsFit(x, WorldFacts(x, world))
    ensures scan.x == x && scan.id == id && PlannedIn(w.cat, mode, x, world, scan.plans)
    ensures Admissible(w.cat, scan)
    ensures Committed(w, scan).cat == Rebuilt(w.cat, x, WorldFacts(x, world))
  {
    var facts := WorldFacts(x, world);
    var plans := SnapshotIsPlannable(w.cat, mode, x, world);
    PlannedFits(w.cat, mode, x, world, plans);
    var tasks := Payloads(w.cat, x, facts, plans, |x|, 0);
    AllTasksFit(w.cat, x, facts, plans, tasks);
    IncrementalIsRebuilt(w, x, facts, plans, tasks, id);
    scan := Scan(x, facts, plans, tasks, id);
  }
}
