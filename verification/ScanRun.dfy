/** A whole scan: planning under guards, execution through the payload window, and one commit
  * or a rollback. */
module ScanRun {
  import opened Wrappers
  import opened Bytes
  import opened CatalogModel
  import opened IncrementalScan
  import opened IncrementalScanProof
  import opened ScanPlanning
  import opened ScanHistory
  import opened CatalogStatistics
  import opened CatalogWriter
  import opened ScanExecution
  import opened ArchiveDirectory
  import opened ArchiveGuards
  import opened ScanConditions
  import opened ScanCounters

  // ---------------------------------------------------------------- planning the snapshot

  /** True guards to begin with, and no interference since. */
  ghost predicate Undisturbed(a: Watch, b: Watch) { GuardsTrue(a.guards, a.files) && a.faults == b.faults }

  /** The next segment: refused if its name was used before. */
  method PlanNext(g: ScanGuards, c: Catalog, mode: Mode, x: Inpx, i: nat, names: set<SegmentName>)
    returns (p: Option<Plan>)
    requires g.Watching() && i < |x|
    modifies g`guards, g.world
    ensures p.Some? ==> g.world.refusals == old(g.world.refusals)
    ensures g.Watching() && Proceeds(old(g.Now()), g.Now())
    ensures p.Some? ==> x[i].name !in names && p == PlanSegment(c, mode, x[i], i, View(g.resolve, g.guards))
    ensures p.Some? ==> Confirmed(g.guards, c, p.value)
    ensures p.None? ==> Undisturbed(old(g.Now()), g.Now()) ==>
      x[i].name in names || !g.Findable(c, mode, x[i], old(g.world.files))
  {
    var cancelled := g.world.Strike();
    if cancelled || x[i].name in names { return None; }
    p := g.PlanSegment(c, mode, x[i], i);
  }

  ghost predicate AllConfirmed(guards: Guards, c: Catalog, plans: seq<Plan>) {
    forall k :: 0 <= k < |plans| ==> Confirmed(guards, c, plans[k])
  }

  lemma ConfirmedOneMore(before: Guards, after: Guards, c: Catalog, plans: seq<Plan>, p: Plan)
    requires Advances(before, after) && AllConfirmed(before, c, plans) && Confirmed(after, c, p)
    ensures AllConfirmed(after, c, plans + [p])
  {
    forall k | 0 <= k < |plans| + 1 ensures Confirmed(after, c, (plans + [p])[k]) {
      if k < |plans| { assert Confirmed(before, c, plans[k]); }
    }
  }

  ghost predicate PlannedUpTo(c: Catalog, mode: Mode, x: Inpx, src: Sources, plans: seq<Plan>) {
    |plans| <= |x| && forall k :: 0 <= k < |plans| ==> PlanSegment(c, mode, x[k], k, src) == Some(plans[k])
  }

  lemma PlannedOneMore(c: Catalog, mode: Mode, x: Inpx, resolve: map<SegmentName, ArchivePath>, before: Guards,
                       after: Guards, plans: seq<Plan>, p: Plan)
    requires PlannedUpTo(c, mode, x, View(resolve, before), plans) && Advances(before, after) && |plans| < |x|
    requires PlanSegment(c, mode, x[|plans|], |plans|, View(resolve, after)) == Some(p)
    ensures PlannedUpTo(c, mode, x, View(resolve, after), plans + [p])
  {
    AdvancesExtends(resolve, before, after);
    forall k | 0 <= k < |plans| ensures PlanSegment(c, mode, x[k], k, View(resolve, after)) == Some(plans[k]) {
      PlanIsStable(c, mode, x[k], k, View(resolve, before), View(resolve, after));
    }
  }

  /** Every segment can be planned. */
  ghost predicate Plannable(g: ScanGuards, c: Catalog, mode: Mode, x: Inpx, files: ArchiveFiles) {
    DistinctNames(x) && forall k :: 0 <= k < |x| ==> g.Findable(c, mode, x[k], files)
  }

  /** The plans of the first segments. */
  ghost predicate PlannedSoFar(c: Catalog, mode: Mode, x: Inpx, src: Sources, plans: seq<Plan>, names: set<SegmentName>,
                               i: nat) {
    && |plans| == i <= |x| && names == Names(x[..i]) && DistinctNames(x[..i]) && PlannedUpTo(c, mode, x, src, plans)
  }

  /** One segment more. */
  method PlanOneMore(g: ScanGuards, c: Catalog, mode: Mode, x: Inpx, i: nat, names: set<SegmentName>, done: seq<Plan>)
    returns (p: Option<Plan>)
    requires g.Watching() && i < |x| && PlannedSoFar(c, mode, x, View(g.resolve, g.guards), done, names, i)
    requires AllConfirmed(g.guards, c, done)
    modifies g`guards, g.world
    ensures p.Some? ==> g.world.refusals == old(g.world.refusals)
    ensures g.Watching() && Proceeds(old(g.Now()), g.Now())
    ensures p.Some? ==>
      PlannedSoFar(c, mode, x, View(g.resolve, g.guards), done + [p.value], names + {x[i].name}, i + 1)
    ensures p.Some? ==> AllConfirmed(g.guards, c, done + [p.value])
    ensures p.None? ==> Undisturbed(old(g.Now()), g.Now()) ==> !Plannable(g, c, mode, x, old(g.world.files))
  {
    p := PlanNext(g, c, mode, x, i, names);
    if p.None? {
      if DistinctNames(x) { FreshName(x, i); }
      return;
    }
    NamesStep(x, i);
    PlannedOneMore(c, mode, x, g.resolve, old(g.guards), g.guards, done, p.value);
    ConfirmedOneMore(old(g.guards), g.guards, c, done, p.value);
  }

  lemma UndisturbedBetween(a: Watch, b: Watch, c: Watch)
    requires Proceeds(a, b) && Proceeds(b, c) && Undisturbed(a, c)
    ensures Undisturbed(b, c) && a.files == b.files
  {
    SteadyBetween(a, b, c);
  }

  method PlanCurrent(g: ScanGuards, c: Catalog, mode: Mode, x: Inpx) returns (plans: Option<seq<Plan>>)
    requires g.Watching()
    modifies g`guards, g.world
    ensures plans.Some? ==> g.world.refusals == old(g.world.refusals)
    ensures g.Watching() && Proceeds(old(g.Now()), g.Now())
    ensures plans.Some? ==>
      DistinctNames(x) && |plans.value| == |x| && PlannedUpTo(c, mode, x, View(g.resolve, g.guards), plans.value)
    ensures plans.Some? ==> AllConfirmed(g.guards, c, plans.value)
    ensures plans.None? ==> Undisturbed(old(g.Now()), g.Now()) ==> !Plannable(g, c, mode, x, old(g.world.files))
  {
    var done: seq<Plan> := [];
    var names: set<SegmentName> := {};
    assert x[..0] == [];
    for i := 0 to |x|
      invariant g.Watching() && Proceeds(old(g.Now()), g.Now()) && g.world.refusals == old(g.world.refusals)
      invariant PlannedSoFar(c, mode, x, View(g.resolve, g.guards), done, names, i) && AllConfirmed(g.guards, c, done)
    {
      ghost var before := g.Now();
      var p := PlanOneMore(g, c, mode, x, i, names, done);
      ProceedsTwice(old(g.Now()), before, g.Now());
      if p.None? {
        if Undisturbed(old(g.Now()), g.Now()) { UndisturbedBetween(old(g.Now()), before, g.Now()); }
        return None;
      }
      done, names := done + [p.value], names + {x[i].name};
    }
    assert x[..|x|] == x;
    return Some(done);
  }

  lemma FreshName(x: Inpx, i: nat)
    requires i < |x| && DistinctNames(x)
    ensures x[i].name !in Names(x[..i])
  {
    forall k | 0 <= k < i ensures x[..i][k].name != x[i].name { assert x[..i][k] == x[k]; }
  }

  lemma NamesStep(x: Inpx, i: nat)
    requires i < |x|
    ensures Names(x[..i + 1]) == Names(x[..i]) + {x[i].name}
    ensures DistinctNames(x[..i]) && x[i].name !in Names(x[..i]) ==> DistinctNames(x[..i + 1])
  {
    var short, long := x[..i], x[..i + 1];
    assert forall k :: 0 <= k < i ==> long[k] == short[k];
    assert long[i] == x[i];
    forall s | s in Names(long) ensures s in Names(short) + {x[i].name} {
      var k :| 0 <= k < |long| && long[k].name == s;
      assert k < i ==> short[k].name == s;
    }
    forall s | s in Names(short) + {x[i].name} ensures s in Names(long) {
      if s in Names(short) { var k :| 0 <= k < |short| && short[k].name == s; assert long[k].name == s; }
      else { assert long[i].name == s; }
    }
  }

  /** One removal per stored segment the snapshot no longer has. */
  method PlanRemovals(c: Catalog, x: Inpx) returns (plans: seq<Plan>)
    ensures forall i :: 0 <= i < |plans| ==> RemovalFits(c, plans[i]) && plans[i].name !in Names(x)
    ensures forall i, j :: 0 <= i < j < |plans| ==> plans[i].name != plans[j].name
    ensures forall s :: s in c.segments && s !in Names(x) ==> NamedIn(plans, s)
  {
    plans := [];
    var gone := c.segments.Keys - Names(x);
    var todo := gone;
    while todo != {}
      invariant todo <= gone
      invariant forall i :: 0 <= i < |plans| ==> RemovalFits(c, plans[i]) && plans[i].name in gone - todo
      invariant forall i, j :: 0 <= i < j < |plans| ==> plans[i].name != plans[j].name
      invariant forall s :: s in gone && s !in todo ==> NamedIn(plans, s)
      decreases todo
    {
      var s :| s in todo;
      ghost var before := plans;
      plans := plans + [RemovedPlan(s, c.segments[s])];
      todo := todo - {s};
      forall t | t in gone && t !in todo ensures NamedIn(plans, t) {
        if t == s {
          assert plans[|before|].name == t;
        } else {
          assert NamedIn(before, t);
          var i :| 0 <= i < |before| && before[i].name == t;
          assert plans[i].name == t;
        }
      }
    }
  }

  // ---------------------------------------------------------------- execution order

  function PathOf(plans: seq<Plan>, i: nat): Bytes {
    if i < |plans| && plans[i].archive.Some? then plans[i].archive.value.path else []
  }

  /** Indices with equal keys keep their order. */
  ghost predicate AscendingWithin(key: nat -> Bytes, s: seq<nat>) {
    forall a, b :: 0 <= a < b < |s| && key(s[a]) == key(s[b]) ==> s[a] < s[b]
  }

  lemma {:induction false} InsertMembers(key: nat -> Bytes, x: nat, s: seq<nat>, y: nat)
    requires y in Insert(key, x, s)
    ensures y == x || y in s
  {
    if s != [] && !AtMost(key(x), key(s[0])) && y != s[0] { InsertMembers(key, x, s[1..], y); }
  }

  lemma AscendingFrom(key: nat -> Bytes, first: nat, rest: seq<nat>)
    requires AscendingWithin(key, rest) && forall b :: 0 <= b < |rest| && key(first) == key(rest[b]) ==> first < rest[b]
    ensures AscendingWithin(key, [first] + rest)
  {
  }

  lemma {:induction false} InsertIsStable(key: nat -> Bytes, x: nat, s: seq<nat>)
    requires AscendingWithin(key, s) && forall a :: 0 <= a < |s| ==> x < s[a]
    ensures AscendingWithin(key, Insert(key, x, s))
  {
    if s == [] {
    } else if AtMost(key(x), key(s[0])) {
      AscendingFrom(key, x, s);
    } else {
      InsertIsStable(key, x, s[1..]);
      var rest := Insert(key, x, s[1..]);
      AtMostTotal(key(x), key(x));
      forall b | 0 <= b < |rest| && key(s[0]) == key(rest[b]) ensures s[0] < rest[b] {
        InsertMembers(key, x, s[1..], rest[b]);
        var c :| 0 <= c < |s[1..]| && s[1..][c] == rest[b];
        assert s[c + 1] == rest[b];
      }
      AscendingFrom(key, s[0], rest);
    }
  }

  lemma {:induction false} SortIsStable(key: nat -> Bytes, s: seq<nat>)
    requires forall a, b :: 0 <= a < b < |s| ==> s[a] < s[b]
    ensures AscendingWithin(key, Sort(key, s))
  {
    if s != [] {
      SortIsStable(key, s[1..]);
      SortSorts(key, s[1..]);
      var rest := Sort(key, s[1..]);
      forall a | 0 <= a < |rest| ensures s[0] < rest[a] {
        assert rest[a] in multiset(s[1..]);
        var c :| 0 <= c < |s[1..]| && s[1..][c] == rest[a];
        assert s[c + 1] == rest[a];
      }
      InsertIsStable(key, s[0], rest);
    }
  }

  lemma DistinctPermutation(s: seq<nat>, t: seq<nat>)
    requires multiset(s) == multiset(t) && forall a, b :: 0 <= a < b < |s| ==> s[a] != s[b]
    ensures forall a, b :: 0 <= a < b < |t| ==> t[a] != t[b]
    ensures forall i :: i in s <==> i in t
  {
    forall i ensures i in s <==> i in t { assert i in s <==> i in multiset(s); assert i in t <==> i in multiset(t); }
    forall a, b | 0 <= a < b < |t| ensures t[a] != t[b] {
      if t[a] == t[b] {
        TwiceCounted(t, a, b);
        var i, j := TwicePlaces(s, t[a]);
        assert false;
      }
    }
  }

  /** The archive of plan `i` comes before that of plan `j`, or it is the same and `i` comes first. */
  ghost predicate InTurn(plans: seq<Plan>, i: nat, j: nat) {
    i < |plans| && j < |plans| && plans[i].archive.Some? && plans[j].archive.Some? ==>
      var p, q := plans[i].archive.value.path, plans[j].archive.value.path;
      AtMost(p, q) && (p == q ==> i < j)
  }

  /** The reparsed plans sorted by archive path, so that an archive is opened once. */
  method ExecutionOrder(plans: seq<Plan>) returns (order: seq<nat>)
    ensures IsExecutionOrder(plans, order)
    ensures SortedBy((i: nat) => PathOf(plans, i), order)
    ensures AscendingWithin((i: nat) => PathOf(plans, i), order)
    ensures forall a, b :: 0 <= a < b < |order| ==> InTurn(plans, order[a], order[b])
  {
    var indices: seq<nat> := [];
    for i := 0 to |plans|
      invariant forall a :: 0 <= a < |indices| ==> indices[a] < i && Reparsed(plans[indices[a]])
      invariant forall a, b :: 0 <= a < b < |indices| ==> indices[a] < indices[b]
      invariant forall k: nat :: k < i && Reparsed(plans[k]) ==> k in indices
    {
      if Reparsed(plans[i]) { indices := indices + [i]; }
    }
    var key := (i: nat) => PathOf(plans, i);
    order := Sort(key, indices);
    SortSorts(key, indices);
    SortIsStable(key, indices);
    DistinctPermutation(indices, order);
    forall a | 0 <= a < |order| ensures order[a] < |plans| && Reparsed(plans[order[a]]) { assert order[a] in indices; }
  }

  // ---------------------------------------------------------------- the scan

  /** How a scan ends; `cleaned` says whether every cover-file removal it attempted succeeded. */
  datatype ScanEnd = Published(counters: Counters, cleaned: bool) | Discarded(cleaned: bool)

  /** Upserts every planned segment inside the open transaction. */
  method UpsertSegments(writer: StreamWriter, plans: seq<Plan>) returns (ok: bool)
    requires writer.Valid() && writer.log == []
    modifies writer`work, writer`prepared, writer.store`faults
    ensures writer.Valid() && writer.store.faults >= old(writer.store.faults)
    ensures writer.store.faults == old(writer.store.faults) <==> ok
    ensures ok ==> writer.work == Prepared(old(writer.work), plans)
  {
    for i := 0 to |plans|
      invariant writer.Valid() && writer.store.faults == old(writer.store.faults)
      invariant writer.work == Prepared(old(writer.work), plans[..i])
    {
      var cancelled := writer.store.Strike();
      if cancelled { return false; }
      assert plans[..i + 1][..i] == plans[..i];
      ok := writer.UpsertSegment(plans[i]);
      if !ok { return; }
    }
    assert plans[..|plans|] == plans;
    return true;
  }

  /** The tables once every segment is upserted. */
  function Prepared(w: Work, plans: seq<Plan>): Work { Work(UpsertAll(w.cat, plans), w.lastSeen) }

  /** The record counters summed while planning. */
  method CountPlanned(plans: seq<Plan>) returns (total: nat, reused: nat)
    ensures total == SumOver(plans, ListedCount) && reused == SumOver(plans, ReusedCount)
  {
    total, reused := 0, 0;
    for i := 0 to |plans|
      invariant total == SumOver(plans[..i], ListedCount) && reused == SumOver(plans[..i], ReusedCount)
    {
      assert plans[..i + 1][..i] == plans[..i];
      if !plans[i].change.Removed? { total := total + plans[i].total; }
      if plans[i].change.Unchanged? { reused := reused + plans[i].total; }
    }
    assert plans[..|plans|] == plans;
  }

  /** Planning: one plan per current segment, then the removals. */
  method PlanSnapshot(g: ScanGuards, c: Catalog, mode: Mode, x: Inpx) returns (plans: Option<seq<Plan>>)
    requires g.Watching()
    modifies g`guards, g.world
    ensures plans.Some? ==> g.world.refusals == old(g.world.refusals)
    ensures g.Watching() && Proceeds(old(g.Now()), g.Now())
    ensures plans.Some? ==> x != [] && DistinctNames(x) && PlannedIn(c, mode, x, View(g.resolve, g.guards), plans.value)
    ensures plans.Some? ==> AllConfirmed(g.guards, c, plans.value)
    ensures plans.None? ==> Undisturbed(old(g.Now()), g.Now()) ==>
      x == [] || !Plannable(g, c, mode, x, old(g.world.files))
  {
    plans := PlanCurrent(g, c, mode, x);
    if plans.None? || x == [] { return None; }
    var removals := PlanRemovals(c, x);
    WithRemovals(c, mode, x, View(g.resolve, g.guards), plans.value, removals);
    RemovalsConfirmed(g.guards, c, plans.value, removals);
    plans := Some(plans.value + removals);
  }

  lemma RemovalsConfirmed(guards: Guards, c: Catalog, plans: seq<Plan>, removals: seq<Plan>)
    requires AllConfirmed(guards, c, plans) && forall i :: 0 <= i < |removals| ==> RemovalFits(c, removals[i])
    ensures AllConfirmed(guards, c, plans + removals)
  {
    forall k | 0 <= k < |plans| + |removals| ensures Confirmed(guards, c, (plans + removals)[k]) {
      if k < |plans| { assert Confirmed(guards, c, plans[k]); } else { assert RemovalFits(c, removals[k - |plans|]); }
    }
  }

  lemma WithRemovals(c: Catalog, mode: Mode, x: Inpx, src: Sources, plans: seq<Plan>, removals: seq<Plan>)
    requires |plans| == |x| && PlannedUpTo(c, mode, x, src, plans)
    requires forall i :: 0 <= i < |removals| ==> RemovalFits(c, removals[i]) && removals[i].name !in Names(x)
    requires forall i, j :: 0 <= i < j < |removals| ==> removals[i].name != removals[j].name
    requires forall s :: s in c.segments && s !in Names(x) ==> NamedIn(removals, s)
    ensures PlannedIn(c, mode, x, src, plans + removals)
  {
    var all := plans + removals;
    forall s | s in c.segments && s !in Names(x) ensures exists i :: |x| <= i < |all| && all[i].name == s {
      assert NamedIn(removals, s);
      var k :| 0 <= k < |removals| && removals[k].name == s;
      assert all[|x| + k].name == s;
    }
  }

  // ---------------------------------------------------------------- execution

  ghost predicate AllPlanned(plans: seq<Plan>, tasks: seq<Task>) {
    forall a :: 0 <= a < |tasks| ==> Planned(plans, tasks[a])
  }

  /** These are planned payloads, no LibId twice. */
  ghost predicate OncePlanned(plans: seq<Plan>, tasks: seq<Task>) { AllPlanned(plans, tasks) && DistinctTasks(tasks) }

  ghost predicate AllAllowed(tasks: seq<Task>, maxBytes: nat) {
    forall a :: 0 <= a < |tasks| ==> TaskAllowed(tasks[a], maxBytes)
  }

  lemma WrittenArePlanned(plans: seq<Plan>, submitted: seq<Task>, tasks: seq<Task>)
    requires AllPlanned(plans, submitted) && DistinctTasks(submitted) && multiset(tasks) <= multiset(submitted)
    ensures OncePlanned(plans, tasks)
  {
    forall a | 0 <= a < |tasks| ensures Planned(plans, tasks[a]) { assert tasks[a] in multiset(submitted); }
    PartKeepsDistinct(submitted, tasks);
  }

  lemma DrainedAreAllowed(submitted: seq<Task>, tasks: seq<Task>, maxBytes: nat)
    requires AllAllowed(submitted, maxBytes) && multiset(tasks) == multiset(submitted)
    ensures AllAllowed(tasks, maxBytes)
  {
    forall a | 0 <= a < |tasks| ensures TaskAllowed(tasks[a], maxBytes) { assert tasks[a] in multiset(submitted); }
  }

  ghost function LookAt(world: ArchiveWorld, store: CatalogStore): Look
    reads world, store`faults
  {
    Look(world.history, world.files, world.faults, world.faults + store.faults)
  }

  /** A scan stopped for a reason: interference, a write over the cover budget, or plans that cannot
    * be executed. */
  ghost predicate Stopped(writer: StreamWriter, before: Look, now: Look, c: Catalog, plans: seq<Plan>, maxBytes: nat)
    reads writer
  {
    || now.strikes > before.strikes
    || (writer.Over() && OncePlanned(plans, writer.log))
    || !Runnable(plans, ReusedIds(c, plans), before.files, maxBytes)
  }

  lemma {:induction false} FinishedLedger(c: Catalog, plans: seq<Plan>, reusedIds: set<LibId>, reused: nat,
                                          maxBytes: nat, log: seq<Entry>,
                                          books: Ledger, drained: seq<Task>)
    requires reusedIds == ReusedIds(c, plans) && reused == SumOver(plans, ReusedCount)
    requires Legal(plans, Blank(reusedIds, reused, maxBytes), log)
      && books == Replayed(plans, Blank(reusedIds, reused, maxBytes), log)
    requires books.done == Positions(plans) && multiset(books.submitted) == multiset(drained)
    requires forall i :: 0 <= i < |plans| && Reparsed(plans[i]) ==> plans[i].total == |plans[i].parsed|
    ensures TasksFit(plans, drained) && PassesDuplicateCheck(c, plans) && AllAllowed(drained, maxBytes)
    ensures books.scanned == SumOver(plans, ListedCount) && books.skipped == SumOver(plans, ParsedSkips)
    ensures books.scanned == reused + |drained| + books.skipped + SumOver(plans, ParsedDeletions)
  {
    LedgerBalances(plans, reusedIds, reused, maxBytes, log);
    LedgerIsTight(plans, reusedIds, reused, maxBytes, log);
    FinishedTasksFit(c, plans, reusedIds, books.processed, books.submitted, drained);
    DrainedAreAllowed(books.submitted, drained, maxBytes);
    FinishedCounts(plans, books.scanned, books.skipped, books.submitted, drained);
  }

  datatype Verdict = Sound | Unsound

  /** Sound: the tasks are the payloads to be written, all of them allowed, and the counters say so. */
  ghost function Tally(c: Catalog, plans: seq<Plan>, books: map<LibId, BookRow>, tasks: seq<Task>, maxBytes: nat,
                       counters: Counters): Verdict {
    if TasksFit(plans, tasks) && PassesDuplicateCheck(c, plans) && AllAllowed(tasks, maxBytes) && CountersExact(counters, plans, books, tasks)
    then Sound else Unsound
  }

  lemma FinishedTally(c: Catalog, plans: seq<Plan>, reusedIds: set<LibId>, maxBytes: nat, log: seq<Entry>,
                      books: Ledger,
                      w: Work, drained: seq<Task>, id: ScanId, k: Counters)
    requires reusedIds == ReusedIds(c, plans) && k.reused == SumOver(plans, ReusedCount)
      && k.total == SumOver(plans, ListedCount)
    requires Legal(plans, Blank(reusedIds, k.reused, maxBytes), log)
      && books == Replayed(plans, Blank(reusedIds, k.reused, maxBytes), log)
    requires books.done == Positions(plans) && multiset(books.submitted) == multiset(drained)
    requires forall i :: 0 <= i < |plans| && Reparsed(plans[i]) ==> plans[i].total == |plans[i].parsed|
    requires k.scanned == books.scanned && k.skipped == books.skipped
    requires k.parsedFb2 == |drained| && k.added == Inserts(w, drained, id) && k.added + k.updated == k.parsedFb2
    ensures Tally(c, plans, w.cat.books, drained, maxBytes, k).Sound?
  {
    FinishedLedger(c, plans, reusedIds, k.reused, maxBytes, log, books, drained);
    InsertsAreNewBooks(w, drained, id);
  }

  lemma HaltedLedger(plans: seq<Plan>, reusedIds: set<LibId>, reused: nat, maxBytes: nat, log: seq<Entry>,
                     books: Ledger, tasks: seq<Task>)
    requires Legal(plans, Blank(reusedIds, reused, maxBytes), log)
      && books == Replayed(plans, Blank(reusedIds, reused, maxBytes), log)
    requires multiset(tasks) <= multiset(books.submitted)
    ensures OncePlanned(plans, tasks)
  {
    LedgerBalances(plans, reusedIds, reused, maxBytes, log);
    WrittenArePlanned(plans, books.submitted, tasks);
  }

  /** The books of an execution follow from its entries; a finished one has done every position. */
  ghost function Ledgered(plans: seq<Plan>, reusedIds: set<LibId>, reused: nat, maxBytes: nat, log: seq<Entry>,
                          books: Ledger): Verdict {
    if Legal(plans, Blank(reusedIds, reused, maxBytes), log) && books == Replayed(plans, Blank(reusedIds, reused, maxBytes), log)
    then Sound else Unsound
  }

  /** The counters agree with the books and the writes. */
  ghost predicate Matches(k: Counters, books: Ledger, w: Work, tasks: seq<Task>, id: ScanId) {
    && k.scanned == books.scanned && k.skipped == books.skipped
    && k.parsedFb2 == |tasks| && k.added == Inserts(w, tasks, id) && k.added + k.updated == k.parsedFb2
  }

  /** Runs the scanner over the plans, with the counters of planning. */
  method ScanRecords(writer: StreamWriter, world: ArchiveWorld, plans: seq<Plan>, maxInFlight: nat, maxBytes: nat,
                     ids: set<LibId>, total: nat, reused: nat)
    returns (ok: bool, counters: Counters, ghost log: seq<Entry>, ghost books: Ledger)
    requires writer.Valid() && writer.log == [] && maxInFlight > 0 && ArchivesAgree(plans)
    modifies writer`work, writer`written, writer`log, writer.stats, writer.store`coverFiles, writer.store`faults, world
    ensures ok ==> writer.store.faults == old(writer.store.faults) && world.refusals == old(world.refusals)
    ensures ok ==> Extractions(world.history) == Extractions(old(world.history)) + |books.submitted|
    ensures writer.RollbackReady() && Ledgered(plans, ids, reused, maxBytes, log, books).Sound?
    ensures counters.total == total && counters.reused == reused
    ensures ok ==> writer.Valid() && books.done == Positions(plans) && multiset(books.submitted) == multiset(writer.log)
    ensures ok ==> Matches(counters, books, writer.prepared, writer.log, writer.id)
    ensures Browsed(old(LookAt(world, writer.store)), LookAt(world, writer.store))
    ensures !ok ==> LookAt(world, writer.store).strikes > old(LookAt(world, writer.store)).strikes
                    || (writer.Over() && multiset(writer.log) <= multiset(books.submitted))
                    || !Runnable(plans, ids, old(world.files), maxBytes)
  {
    var window := new PayloadWindow(writer, maxInFlight, maxBytes);
    var scanner := new RecordScanner(plans, window, world, ids, reused);
    var order := ExecutionOrder(plans);
    ok := scanner.Execute(order);
    counters := Counters(total, scanner.scanned, reused, window.parsedFb2, window.added, window.updated,
                         scanner.skipped);
    log, books := scanner.log, scanner.Books();
  }

  lemma SameSize<T>(s: seq<T>, t: seq<T>)
    requires multiset(s) == multiset(t)
    ensures |s| == |t|
  {
    assert |multiset(s)| == |s| && |multiset(t)| == |t|;
  }

  /** Everything between the upserts and the final validation. */
  method ExecuteScan(writer: StreamWriter, world: ArchiveWorld, c: Catalog, plans: seq<Plan>, maxInFlight: nat,
                     maxBytes: nat)
    returns (ok: bool, counters: Counters)
    requires writer.Valid() && writer.log == [] && maxInFlight > 0 && ArchivesAgree(plans)
    requires forall i :: 0 <= i < |plans| && Reparsed(plans[i]) ==> plans[i].total == |plans[i].parsed|
    modifies writer`work, writer`written, writer`log, writer.stats, writer.store`coverFiles, writer.store`faults, world
    ensures ok ==> writer.store.faults == old(writer.store.faults) && world.refusals == old(world.refusals)
    ensures ok ==> Extractions(world.history) == Extractions(old(world.history)) + |writer.log|
    ensures writer.RollbackReady()
    ensures ok ==> writer.Valid() && Tally(c, plans, writer.prepared.cat.books, writer.log, maxBytes, counters).Sound?
    ensures Browsed(old(LookAt(world, writer.store)), LookAt(world, writer.store))
    ensures !ok ==> Stopped(writer, old(LookAt(world, writer.store)), LookAt(world, writer.store), c, plans, maxBytes)
  {
    var total, reused := CountPlanned(plans);
    var ids := set l | l in c.books && c.books[l].present && exists i :: 0 <= i < |plans| && plans[i].change.Unchanged? && plans[i].name == c.books[l].segment;
    assert ids == ReusedIds(c, plans);
    ghost var log, books;
    ok, counters, log, books := ScanRecords(writer, world, plans, maxInFlight, maxBytes, ids, total, reused);
    if ok {
      SameSize(books.submitted, writer.log);
      FinishedTally(c, plans, ids, maxBytes, log, books, writer.prepared, writer.log, writer.id, counters);
    } else if writer.Over() && multiset(writer.log) <= multiset(books.submitted) {
      HaltedLedger(plans, ids, reused, maxBytes, log, books, writer.log);
    }
  }

  // ---------------------------------------------------------------- the end of a scan

  /** The last statements of the transaction and the checks before the commit. */
  method FinishScan(writer: StreamWriter, g: ScanGuards, plans: seq<Plan>) returns (ok: bool)
    requires writer.Settling() && g.Watching()
    modifies writer`work, writer.stats, writer.store`faults, g.world
    ensures ok ==> writer.store.faults == old(writer.store.faults) && g.world.refusals == old(g.world.refusals)
    ensures writer.RollbackReady()
    ensures ok ==> writer.Settling()
    ensures ok ==> writer.work == Recomputed(ClearAll(old(writer.work), ReparsedNames(plans), writer.id), writer.id)
    ensures ok ==> Vigilance(g.guards, plans, g.world.history, |old(g.world.history)|).Sound?
    ensures Grew(old(g.world.history), g.world.history, {Validating})
    ensures writer.store.faults >= old(writer.store.faults) && g.world.faults >= old(g.world.faults)
    ensures !ok ==> writer.store.faults > old(writer.store.faults) || g.world.faults > old(g.world.faults)
                    || !GuardsTrue(g.guards, old(g.world.files)) || !AllGuarded(g.guards, plans)
  {
    ok := writer.ClearAbsentRows(ReparsedNames(plans));
    if !ok { return; }
    var marked := writer.RecomputeAvailability();
    ok := g.Validate(plans);
    var sourceChanged := g.world.Strike();
    ok := ok && !sourceChanged;
  }

  /** The open rows after a finished execution are ready to be settled. */
  lemma ExecutedIsSettling(writer: StreamWriter, plans: seq<Plan>)
    requires writer.Valid() && Agrees(writer.baseStats, writer.baseTables.cat.books)
    requires writer.prepared == Prepared(writer.baseTables, plans)
    ensures writer.Settling()
  {
    UpsertAllBooks(writer.baseTables.cat, plans);
    RecordedAllAgrees(writer.baseStats, writer.prepared, writer.log, writer.id);
  }

  /** The scan the execution amounts to is one the history theorems speak about. */
  lemma ExecutedIsAdmissible(c: Catalog, mode: Mode, x: Inpx, src: Sources, plans: seq<Plan>, tasks: seq<Task>,
                             id: ScanId)
    requires Inv(c) && DistinctNames(x) && PlannedIn(c, mode, x, src, plans)
    requires TasksFit(plans, tasks) && PassesDuplicateCheck(c, plans)
    ensures Admissible(c, Scan(x, PlanFacts(x, plans), plans, tasks, id))
  {
    PlansFromSources(c, mode, x, src, plans);
    FactsComplete(c, mode, x, src, plans, tasks);
    DuplicateCheckIsExact(c, x, PlanFacts(x, plans), plans);
  }

  lemma AdmissibleCommits(w: Work, scan: Scan)
    requires Inv(w.cat) && FreshId(w, scan.id) && Admissible(w.cat, scan)
    ensures Committed(w, scan).cat == Rebuilt(w.cat, scan.x, scan.facts) && Inv(Committed(w, scan).cat)
  {
    IncrementalIsRebuilt(w, scan.x, scan.facts, scan.plans, scan.tasks, scan.id);
    RebuiltKeepsInv(w.cat, scan.x, scan.facts);
  }

  lemma ParsedTotals(c: Catalog, x: Inpx, facts: ArchiveFacts, plans: seq<Plan>)
    requires PlansFit(c, x, facts, plans)
    ensures forall i :: 0 <= i < |plans| && Reparsed(plans[i]) ==> plans[i].total == |plans[i].parsed|
  {
    forall i | 0 <= i < |plans| && Reparsed(plans[i]) ensures plans[i].total == |plans[i].parsed| {
      PlanIndex(c, x, facts, plans, i);
      assert PlanFits(c, x[i], i, facts, plans[i]);
    }
  }

  /** Sound: the writes are an admissible scan of allowed payloads, and the counters say so. */
  ghost function Account(c: Catalog, x: Inpx, plans: seq<Plan>, tasks: seq<Task>, id: ScanId, counters: Counters,
                         maxBytes: nat): Verdict
    requires |x| <= |plans|
  {
    if Admissible(c, Scan(x, PlanFacts(x, plans), plans, tasks, id)) && AllAllowed(tasks, maxBytes)
       && CountersExact(counters, plans, c.books, tasks) then Sound else Unsound
  }

  /** Sound: every archive-backed plan agrees with its guard, and every guard held since `from`. */
  ghost function Vigilance(guards: Guards, plans: seq<Plan>, h: History, from: nat): Verdict {
    if AllGuarded(guards, plans) && Watched(guards, h, from) then Sound else Unsound
  }

  /** The record writes, once the segments are upserted. */
  method WriteRecords(writer: StreamWriter, world: ArchiveWorld, mode: Mode, x: Inpx, ghost src: Sources,
                      plans: seq<Plan>, maxInFlight: nat, maxBytes: nat)
    returns (ok: bool, counters: Counters)
    requires writer.Valid() && writer.log == [] && writer.prepared == Prepared(writer.baseTables, plans)
      && maxInFlight > 0
    requires Inv(writer.baseTables.cat) && Agrees(writer.baseStats, writer.baseTables.cat.books)
    requires DistinctNames(x) && PlannedIn(writer.baseTables.cat, mode, x, src, plans)
    modifies writer`work, writer`written, writer`log, writer.stats, writer.store`coverFiles, writer.store`faults, world
    ensures ok ==> writer.store.faults == old(writer.store.faults) && world.refusals == old(world.refusals)
    ensures ok ==> Extractions(world.history) == Extractions(old(world.history)) + |writer.log|
    ensures writer.RollbackReady()
    ensures ok ==>
      writer.Settling() && Account(writer.baseTables.cat, x, plans, writer.log, writer.id, counters, maxBytes).Sound?
    ensures ok ==> writer.work == WriteAll(Prepared(writer.baseTables, plans), writer.log, writer.id)
    ensures Browsed(old(LookAt(world, writer.store)), LookAt(world, writer.store))
    ensures !ok ==>
      Stopped(writer, old(LookAt(world, writer.store)), LookAt(world, writer.store), writer.baseTables.cat, plans,
              maxBytes)
  {
    ghost var c := writer.baseTables.cat;
    PlansFromSources(c, mode, x, src, plans);
    ParsedTotals(c, x, PlanFacts(x, plans), plans);
    UpsertAllBooks(c, plans);
    ok, counters := ExecuteScan(writer, world, writer.store.tables.cat, plans, maxInFlight, maxBytes);
    if !ok { return; }
    ExecutedIsAdmissible(c, mode, x, src, plans, writer.log, writer.id);
    ExecutedIsSettling(writer, plans);
  }

  /** The statements up to the last record write. */
  method WriteScan(writer: StreamWriter, world: ArchiveWorld, mode: Mode, x: Inpx, ghost src: Sources, plans: seq<Plan>,
                   maxInFlight: nat, maxBytes: nat)
    returns (ok: bool, counters: Counters)
    requires writer.Valid() && writer.log == [] && writer.work == writer.baseTables && maxInFlight > 0
    requires Inv(writer.baseTables.cat) && Agrees(writer.baseStats, writer.baseTables.cat.books)
    requires DistinctNames(x) && PlannedIn(writer.baseTables.cat, mode, x, src, plans)
    modifies writer, writer.stats, writer.store`coverFiles, writer.store`faults, world
    ensures ok ==> writer.store.faults == old(writer.store.faults) && world.refusals == old(world.refusals)
    ensures ok ==> Extractions(world.history) == Extractions(old(world.history)) + |writer.log|
    ensures writer.RollbackReady()
    ensures ok ==>
      writer.Settling() && Account(writer.baseTables.cat, x, plans, writer.log, writer.id, counters, maxBytes).Sound?
    ensures ok ==> writer.work == WriteAll(Prepared(writer.baseTables, plans), writer.log, writer.id)
    ensures writer.prepared == Prepared(writer.baseTables, plans)
      || (!ok && writer.store.faults > old(writer.store.faults))
    ensures Browsed(old(LookAt(world, writer.store)), LookAt(world, writer.store))
    ensures !ok ==>
      Stopped(writer, old(LookAt(world, writer.store)), LookAt(world, writer.store), writer.baseTables.cat, plans,
              maxBytes)
  {
    counters := Counters(0, 0, 0, 0, 0, 0, 0);
    ok := UpsertSegments(writer, plans);
    if !ok { return; }
    assert writer.prepared == writer.work;
    ghost var before := LookAt(world, writer.store);
    ok, counters := WriteRecords(writer, world, mode, x, src, plans, maxInFlight, maxBytes);
    BrowsedTwice(old(LookAt(world, writer.store)), before, LookAt(world, writer.store));
  }

  // ---------------------------------------------------------------- the guards of a published scan

  /** The archives were looked at for planning and for payloads first, and for confirmation from
    * `validation` on; every guard was seen to hold in both stretches, each archive-backed segment
    * agrees with its guard, and segments of one archive agree on its manifest. */
  ghost predicate GuardedTwice(guards: Guards, plans: seq<Plan>, h: History, from: nat, validation: nat) {
    && from <= validation <= |h| && AllGuarded(guards, plans)
    && Watched(guards, h[..validation], from) && Watched(guards, h, validation)
    && (forall k :: from <= k < validation ==> !h[k].purpose.Validating?)
    && (forall k :: validation <= k < |h| ==> h[k].purpose.Validating?)
  }

  lemma SeenTwice(guards: Guards, plans: seq<Plan>, start: History, planned: History, executed: History, h: History)
    requires Grew(start, planned, {Planning}) && Grew(planned, executed, {Purpose.Opening, Extracting})
      && Grew(executed, h, {Validating})
    requires Watched(guards, planned, |start|) && Watched(guards, h, |executed|) && AllGuarded(guards, plans)
    ensures GuardedTwice(guards, plans, h, |start|, |executed|)
  {
    WatchedStill(guards, planned, executed, |start|);
    assert h[..|executed|] == executed;
    forall k | |start| <= k < |executed| ensures !h[k].purpose.Validating? { assert h[k] == executed[k]; }
  }

  // ---------------------------------------------------------------- one transaction

  /** Sound: the transaction holds what the scan commits, the counters and the guards are sound, and
    * the archives were only looked at for payloads until `executed` and for confirmation since. */
  ghost function Readiness(writer: StreamWriter, g: ScanGuards, x: Inpx, plans: seq<Plan>, counters: Counters,
                           maxBytes: nat,
                           planned: History, executed: History): Verdict
    requires |x| <= |plans|
    reads writer, writer.stats, writer.store`tables, writer.store`stats, writer.store`coverFiles, g`guards, g.world`history
  {
    if writer.Settling() && writer.prepared == Prepared(writer.baseTables, plans)
       && writer.work == Committed(writer.baseTables, Scan(x, PlanFacts(x, plans), plans, writer.log, writer.id))
       && Account(writer.baseTables.cat, x, plans, writer.log, writer.id, counters, maxBytes).Sound?
       && Vigilance(g.guards, plans, g.world.history, |executed|).Sound?
       && Grew(planned, executed, {Purpose.Opening, Extracting}) && Grew(executed, g.world.history, {Validating})
    then Sound else Unsound
  }

  /** Why a scan did not commit. */
  datatype Reason = Interference | CoverBudget | NotRunnable | GuardsUntrue | Unexplained

  ghost function ReasonFor(writer: StreamWriter, g: ScanGuards, before: Look, now: Look, plans: seq<Plan>,
                           maxBytes: nat): Reason
    reads writer, g`guards
  {
    if now.strikes > before.strikes then Interference
    else if writer.Over() && OncePlanned(plans, writer.log) && writer.prepared == Prepared(writer.baseTables, plans) then CoverBudget
    else if !Runnable(plans, ReusedIds(writer.baseTables.cat, plans), before.files, maxBytes) then NotRunnable
    else if !GuardsTrue(g.guards, before.files) || !AllGuarded(g.guards, plans) then GuardsUntrue
    else Unexplained
  }

  /** Sound: the transaction holds the records of an admissible scan, and the counters say so. */
  ghost function Writings(writer: StreamWriter, x: Inpx, plans: seq<Plan>, counters: Counters, maxBytes: nat): Verdict
    requires |x| <= |plans|
    reads writer, writer.stats, writer.store`tables, writer.store`stats, writer.store`coverFiles
  {
    if writer.Settling() && writer.prepared == Prepared(writer.baseTables, plans)
       && writer.work == WriteAll(Prepared(writer.baseTables, plans), writer.log, writer.id)
       && Account(writer.baseTables.cat, x, plans, writer.log, writer.id, counters, maxBytes).Sound?
    then Sound else Unsound
  }

  /** The records of a scan, or a reason why not. */
  method WriteForCommit(writer: StreamWriter, g: ScanGuards, mode: Mode, x: Inpx, plans: seq<Plan>, maxInFlight: nat,
                        maxBytes: nat)
    returns (ok: bool, counters: Counters)
    requires writer.Valid() && writer.log == [] && writer.work == writer.baseTables && maxInFlight > 0
    requires Inv(writer.baseTables.cat) && Agrees(writer.baseStats, writer.baseTables.cat.books)
    requires DistinctNames(x) && PlannedIn(writer.baseTables.cat, mode, x, View(g.resolve, g.guards), plans)
    modifies writer, writer.stats, writer.store`coverFiles, writer.store`faults, g.world
    ensures ok ==> writer.store.faults == old(writer.store.faults) && g.world.refusals == old(g.world.refusals)
    ensures ok ==> Extractions(g.world.history) == Extractions(old(g.world.history)) + |writer.log|
    ensures writer.RollbackReady()
    ensures ok ==> Writings(writer, x, plans, counters, maxBytes).Sound?
    ensures Browsed(old(LookAt(g.world, writer.store)), LookAt(g.world, writer.store))
      && writer.store.faults >= old(writer.store.faults)
    ensures !ok ==>
      !ReasonFor(writer, g, old(LookAt(g.world, writer.store)), LookAt(g.world, writer.store), plans,
                 maxBytes).Unexplained?
  {
    ok, counters := WriteScan(writer, g.world, mode, x, View(g.resolve, g.guards), plans, maxInFlight, maxBytes);
  }

  /** Settles the written records and validates the guards. */
  method SettleScan(writer: StreamWriter, g: ScanGuards, x: Inpx, plans: seq<Plan>, counters: Counters, maxBytes: nat,
                    ghost planned: History)
    returns (ok: bool)
    requires |x| <= |plans| && Writings(writer, x, plans, counters, maxBytes).Sound? && g.Watching()
    requires Grew(planned, g.world.history, {Purpose.Opening, Extracting})
    modifies writer`work, writer.stats, writer.store`faults, g.world
    ensures ok ==> writer.store.faults == old(writer.store.faults) && g.world.refusals == old(g.world.refusals)
    ensures ok ==> Extractions(g.world.history) == Extractions(old(g.world.history))
    ensures writer.RollbackReady()
    ensures ok ==> Readiness(writer, g, x, plans, counters, maxBytes, planned, old(g.world.history)).Sound?
    ensures g.world.faults >= old(g.world.faults) && writer.store.faults >= old(writer.store.faults)
    ensures !ok ==>
      !ReasonFor(writer, g, old(LookAt(g.world, writer.store)), LookAt(g.world, writer.store), plans,
                 maxBytes).Unexplained?
  {
    CommittedIs(writer.baseTables, Scan(x, PlanFacts(x, plans), plans, writer.log, writer.id));
    ok := FinishScan(writer, g, plans);
    NothingExtracted(old(g.world.history), g.world.history, {Validating});
    assert ok ==>
      writer.work == Committed(writer.baseTables, Scan(x, PlanFacts(x, plans), plans, writer.log, writer.id));
  }

  lemma CommittedIs(w: Work, scan: Scan)
    ensures Committed(w, scan)
         == Recomputed(ClearAll(WriteAll(Prepared(w, scan.plans), scan.tasks, scan.id), ReparsedNames(scan.plans), scan.id), scan.id)
  {
  }

  /** What follows an undisturbed stretch is explained for the whole. */
  lemma ReasonCarries(writer: StreamWriter, g: ScanGuards, a: Look, b: Look, c: Look, plans: seq<Plan>, maxBytes: nat)
    requires Browsed(a, b) && a.strikes <= b.strikes <= c.strikes && b.strikes - a.strikes >= b.faults - a.faults
    requires !ReasonFor(writer, g, b, c, plans, maxBytes).Unexplained?
    ensures !ReasonFor(writer, g, a, c, plans, maxBytes).Unexplained?
  {
  }

  /** A scan with its transaction open: write, settle, validate; report whether the commit may go
    * ahead, and the history when the final validation began. */
  method ScanToCommit(writer: StreamWriter, g: ScanGuards, mode: Mode, x: Inpx, plans: seq<Plan>, maxInFlight: nat,
                      maxBytes: nat)
    returns (ok: bool, counters: Counters, ghost executed: History)
    requires writer.Valid() && writer.log == [] && writer.work == writer.baseTables && maxInFlight > 0
    requires Inv(writer.baseTables.cat) && Agrees(writer.baseStats, writer.baseTables.cat.books)
    requires g.Watching() && DistinctNames(x)
      && PlannedIn(writer.baseTables.cat, mode, x, View(g.resolve, g.guards), plans)
    modifies writer, writer.stats, writer.store`coverFiles, writer.store`faults, g.world
    ensures ok ==> writer.store.faults == old(writer.store.faults) && g.world.refusals == old(g.world.refusals)
    ensures ok ==> Extractions(g.world.history) == Extractions(old(g.world.history)) + |writer.log|
    ensures writer.RollbackReady()
    ensures ok ==> Readiness(writer, g, x, plans, counters, maxBytes, old(g.world.history), executed).Sound?
    ensures g.world.faults >= old(g.world.faults) && writer.store.faults >= old(writer.store.faults)
    ensures !ok ==>
      !ReasonFor(writer, g, old(LookAt(g.world, writer.store)), LookAt(g.world, writer.store), plans,
                 maxBytes).Unexplained?
  {
    ok, counters := WriteForCommit(writer, g, mode, x, plans, maxInFlight, maxBytes);
    executed := g.world.history;
    if !ok { return; }
    WatchedStill(g.guards, old(g.world.history), executed, g.start);
    ghost var before := LookAt(g.world, writer.store);
    ok := SettleScan(writer, g, x, plans, counters, maxBytes, old(g.world.history));
    if !ok { ReasonCarries(writer, g, old(LookAt(g.world, writer.store)), before, LookAt(g.world, writer.store), plans, maxBytes); }
  }
  // ---------------------------------------------------------------- a whole scan

  /** Writing these payloads in this order first exceeded the cover budget with the last one. */
  ghost predicate Refused(st: Stats, w: Work, scan: Scan, budget: nat) {
    OncePlanned(scan.plans, scan.tasks) && OverBudget(st, Prepared(w, scan.plans), scan.tasks, scan.id, budget)
  }

  /** What a committed scan did, besides its rows: counters, cover budget, payload limits. */
  ghost predicate Accounted(st: Stats, w: Work, scan: Scan, counters: Counters, maxBytes: nat, budget: nat) {
    && CountersExact(counters, scan.plans, w.cat.books, scan.tasks) && AllAllowed(scan.tasks, maxBytes)
    && WithinBudget(st, Prepared(w, scan.plans), scan.tasks, scan.id, budget)
  }

  /** Sound: an admissible scan, accounted for. */
  ghost function Report(st: Stats, w: Work, scan: Scan, counters: Counters, maxBytes: nat, budget: nat): Verdict {
    if Admissible(w.cat, scan) && Accounted(st, w, scan, counters, maxBytes, budget) then Sound else Unsound
  }

  lemma ReadyReports(writer: StreamWriter, g: ScanGuards, scan: Scan, counters: Counters, maxBytes: nat,
                     planned: History, executed: History)
    requires |scan.x| <= |scan.plans|
      && scan == Scan(scan.x, PlanFacts(scan.x, scan.plans), scan.plans, writer.log, writer.id)
    requires Readiness(writer, g, scan.x, scan.plans, counters, maxBytes, planned, executed).Sound?
    ensures Report(writer.baseStats, writer.baseTables, scan, counters, maxBytes, writer.coverBudget).Sound?
    ensures writer.Settling() && writer.work == Committed(writer.baseTables, scan)
  {
    var c, plans := writer.baseTables.cat, scan.plans;
    assert Account(c, scan.x, plans, writer.log, writer.id, counters, maxBytes).Sound?;
    assert writer.InBudget() && writer.prepared == Prepared(writer.baseTables, plans);
  }

  /** Publishes a transaction that is ready. */
  method CommitScan(writer: StreamWriter, g: ScanGuards, ghost scan: Scan, counters: Counters, ghost maxBytes: nat,
                    ghost planned: History, ghost executed: History)
    returns (cleaned: bool)
    requires |scan.x| <= |scan.plans|
      && scan == Scan(scan.x, PlanFacts(scan.x, scan.plans), scan.plans, writer.log, writer.id)
    requires Readiness(writer, g, scan.x, scan.plans, counters, maxBytes, planned, executed).Sound?
    requires Inv(writer.baseTables.cat) && FreshId(writer.baseTables, scan.id)
    modifies writer.store
    ensures writer.store.Valid() && writer.store.tables == Committed(writer.baseTables, scan)
    ensures Report(writer.baseStats, writer.baseTables, scan, counters, maxBytes, writer.coverBudget).Sound?
    ensures writer.store.faults >= old(writer.store.faults)
      && (writer.store.faults == old(writer.store.faults) <==> cleaned)
    ensures cleaned ==> writer.store.coverFiles == CoversNamed(writer.store.tables.cat.books)
    ensures scan.tasks != [] ==> writer.store.stats.coverBytes <= writer.coverBudget
  {
    ReadyReports(writer, g, scan, counters, maxBytes, planned, executed);
    AdmissibleCommits(writer.baseTables, scan);
    cleaned := writer.Commit();
  }

  /** What keeps a transaction from its commit when nothing interferes. */
  ghost predicate Obstructed(st: Stats, w: Work, scan: Scan, guards: Guards, files: ArchiveFiles, maxBytes: nat,
                             budget: nat) {
    || Refused(st, w, scan, budget)
    || !Runnable(scan.plans, ReusedIds(w.cat, scan.plans), files, maxBytes)
    || !GuardsTrue(guards, files) || !AllGuarded(guards, scan.plans)
  }

  /** One transaction, from its first statement to the commit or the roll-back. */
  method Transact(store: CatalogStore, g: ScanGuards, mode: Mode, x: Inpx, plans: seq<Plan>, id: ScanId,
                  maxInFlight: nat, maxBytes: nat, coverBudget: nat)
    returns (end: ScanEnd, ghost scan: Scan, ghost executed: History)
    requires store.Valid() && FreshId(store.tables, id) && maxInFlight > 0
    requires g.Watching() && DistinctNames(x) && PlannedIn(store.tables.cat, mode, x, View(g.resolve, g.guards), plans)
    modifies store, g.world
    ensures store.Valid() && scan == Scan(x, PlanFacts(x, plans), plans, scan.tasks, id)
    ensures end.Discarded? ==> store.tables == old(store.tables) && store.stats == old(store.stats)
    ensures end.Discarded? && end.cleaned ==> store.coverFiles == old(store.coverFiles)
    ensures end.Published? ==> store.tables == Committed(old(store.tables), scan)
    ensures end.Published? ==>
      Report(old(store.stats), old(store.tables), scan, end.counters, maxBytes, coverBudget).Sound?
    ensures end.Published? && end.cleaned ==> store.coverFiles == CoversNamed(store.tables.cat.books)
    ensures end.Published? && scan.tasks != [] ==> store.stats.coverBytes <= coverBudget
    ensures end.Published? ==> Vigilance(g.guards, plans, g.world.history, |executed|).Sound?
    ensures end.Published? ==>
      Grew(old(g.world.history), executed, {Purpose.Opening, Extracting})
        && Grew(executed, g.world.history, {Validating})
    ensures store.faults >= old(store.faults) && g.world.faults >= old(g.world.faults)
    ensures store.faults == old(store.faults) ==> end.cleaned
    ensures end.Published? && end.cleaned ==> store.faults == old(store.faults)
    ensures end.Published? ==> g.world.refusals == old(g.world.refusals)
    ensures end.Published? ==> Extractions(g.world.history) == Extractions(old(g.world.history)) + |scan.tasks|
    ensures end.Discarded? && store.faults == old(store.faults) && g.world.faults == old(g.world.faults) ==>
      Obstructed(old(store.stats), old(store.tables), scan, g.guards, old(g.world.files), maxBytes, coverBudget)
  {
    var writer := new StreamWriter(store, id, coverBudget);
    var ok, counters;
    ok, counters, executed := ScanToCommit(writer, g, mode, x, plans, maxInFlight, maxBytes);
    scan := Scan(x, PlanFacts(x, plans), plans, writer.log, id);
    if ok {
      var cleaned := CommitScan(writer, g, scan, counters, maxBytes, old(g.world.history), executed);
      end := Published(counters, cleaned);
    } else {
      var cleaned := writer.Rollback();
      end := Discarded(cleaned);
    }
  }
  /** If nothing interfered with a scan that was planned, it was published exactly if it had to be. */
  lemma QuietOutcome(c: Catalog, mode: Mode, x: Inpx, resolve: map<SegmentName, ArchivePath>, guards: Guards,
                     files: ArchiveFiles, scan: Scan, maxBytes: nat)
    requires Inv(c) && x != [] && DistinctNames(x) && GuardsTrue(guards, files) && GuardsValid(guards)
    requires PlannedIn(c, mode, x, View(resolve, guards), scan.plans) && scan.x == x
      && scan.facts == PlanFacts(x, scan.plans)
    ensures PlannedIn(c, mode, x, SourcesOf(resolve, files), scan.plans)
    ensures Admissible(c, scan) && AllAllowed(scan.tasks, maxBytes) ==>
      Scannable(c, mode, x, SourcesOf(resolve, files), maxBytes)
    ensures Scannable(c, mode, x, SourcesOf(resolve, files), maxBytes) ==>
      Runnable(scan.plans, ReusedIds(c, scan.plans), files, maxBytes)
    ensures Scannable(c, mode, x, SourcesOf(resolve, files), maxBytes) && Honest(c, SourcesOf(resolve, files)) ==>
      AllGuarded(guards, scan.plans)
  {
    var src := SourcesOf(resolve, files);
    QuietPlans(c, mode, x, resolve, guards, files, scan.plans);
    if Admissible(c, scan) && AllAllowed(scan.tasks, maxBytes) {
      FinishedIsScannable(c, mode, x, resolve, files, scan.plans, scan.tasks, maxBytes);
    }
    if Scannable(c, mode, x, src, maxBytes) {
      ScannableIsRunnable(c, mode, x, resolve, files, scan.plans, maxBytes);
      if Honest(c, src) { QuietIsGuarded(c, mode, x, resolve, guards, files, scan.plans); }
    }
  }

  /** The snapshot cannot be scanned, an archive was changed behind an unchanged state, or the plans
    * the files call for exceed the cover budget when written in some order. */
  ghost predicate HadToStop(st: Stats, w: Work, mode: Mode, x: Inpx, src: Sources, scan: Scan, maxBytes: nat,
                            budget: nat) {
    || !Scannable(w.cat, mode, x, src, maxBytes) || !Honest(w.cat, src)
    || (PlannedIn(w.cat, mode, x, src, scan.plans) && Refused(st, w, scan, budget))
  }

  lemma QuietStop(st: Stats, w: Work, mode: Mode, x: Inpx, resolve: map<SegmentName, ArchivePath>, guards: Guards,
                  files: ArchiveFiles,
                  scan: Scan, maxBytes: nat, budget: nat)
    requires Inv(w.cat) && x != [] && DistinctNames(x) && GuardsTrue(guards, files) && GuardsValid(guards)
    requires PlannedIn(w.cat, mode, x, View(resolve, guards), scan.plans) && scan.x == x
      && scan.facts == PlanFacts(x, scan.plans)
    requires Obstructed(st, w, scan, guards, files, maxBytes, budget)
    ensures HadToStop(st, w, mode, x, SourcesOf(resolve, files), scan, maxBytes, budget)
  {
    QuietOutcome(w.cat, mode, x, resolve, guards, files, scan, maxBytes);
  }

  lemma ReportIsKept(st: Stats, w: Work, scan: Scan, counters: Counters, maxBytes: nat, budget: nat)
    requires Inv(w.cat) && FreshId(w, scan.id) && Report(st, w, scan, counters, maxBytes, budget).Sound?
    ensures Admissible(w.cat, scan) && Accounted(st, w, scan, counters, maxBytes, budget)
    ensures Committed(w, scan).cat == Rebuilt(w.cat, scan.x, scan.facts)
  {
    AdmissibleCommits(w, scan);
  }

  lemma QuietPublication(st: Stats, w: Work, mode: Mode, x: Inpx, resolve: map<SegmentName, ArchivePath>,
                         guards: Guards, files: ArchiveFiles,
                         scan: Scan, counters: Counters, maxBytes: nat, budget: nat)
    requires Inv(w.cat) && x != [] && DistinctNames(x) && GuardsTrue(guards, files) && GuardsValid(guards)
    requires PlannedIn(w.cat, mode, x, View(resolve, guards), scan.plans) && scan.x == x
      && scan.facts == PlanFacts(x, scan.plans)
    requires Report(st, w, scan, counters, maxBytes, budget).Sound?
    ensures Scannable(w.cat, mode, x, SourcesOf(resolve, files), maxBytes)
    ensures CountersDescribe(counters, w.cat, mode, x, SourcesOf(resolve, files))
  {
    QuietOutcome(w.cat, mode, x, resolve, guards, files, scan, maxBytes);
    ExactCountersDescribe(counters, w.cat, mode, x, SourcesOf(resolve, files), scan.plans, scan.tasks);
  }

  lemma ReportDescribes(st: Stats, w: Work, mode: Mode, x: Inpx, src: Sources, scan: Scan, counters: Counters,
                        maxBytes: nat, budget: nat)
    requires Inv(w.cat) && PlannedIn(w.cat, mode, x, src, scan.plans)
      && Report(st, w, scan, counters, maxBytes, budget).Sound?
    ensures CountersDescribe(counters, w.cat, mode, x, src)
    ensures mode == InitialScan ==> counters.reused == 0
    ensures mode == Rescan && AllUnaltered(w.cat, x, src) ==>
      counters.reused == counters.total && counters.parsedFb2 == 0
  {
    ExactCountersDescribe(counters, w.cat, mode, x, src, scan.plans, scan.tasks);
    WhatIsKept(counters, w.cat, mode, x, src);
  }

  /** A snapshot that can be scanned can be planned. */
  lemma ScannableIsPlannable(g: ScanGuards, c: Catalog, mode: Mode, x: Inpx, files: ArchiveFiles, maxBytes: nat)
    requires Inv(c) && Scannable(c, mode, x, SourcesOf(g.resolve, files), maxBytes)
    ensures x != [] && Plannable(g, c, mode, x, files)
  {
    forall k | 0 <= k < |x| ensures g.Findable(c, mode, x[k], files) { ReadableIsFindable(c, mode, x, g, files, k); }
  }

  /** Planning under new guards. */
  method PlanScan(world: ArchiveWorld, resolve: map<SegmentName, ArchivePath>, c: Catalog, mode: Mode, x: Inpx,
                  ghost maxBytes: nat)
    returns (g: ScanGuards, plans: Option<seq<Plan>>)
    requires Inv(c)
    modifies world
    ensures plans.Some? ==> world.refusals == old(world.refusals)
    ensures fresh(g) && g.world == world && g.resolve == resolve && g.start == |old(world.history)| && g.Watching()
    ensures Grew(old(world.history), world.history, {Planning}) && world.faults >= old(world.faults)
    ensures plans.Some? ==> x != [] && DistinctNames(x) && PlannedIn(c, mode, x, View(resolve, g.guards), plans.value)
    ensures plans.Some? ==> AllConfirmed(g.guards, c, plans.value)
    ensures world.faults == old(world.faults) ==>
      world.files == old(world.files) && GuardsTrue(g.guards, old(world.files))
    ensures plans.None? && world.faults == old(world.faults) ==>
      !Scannable(c, mode, x, SourcesOf(resolve, old(world.files)), maxBytes)
  {
    g := new ScanGuards(world, resolve);
    plans := PlanSnapshot(g, c, mode, x);
    if plans.None? && Scannable(c, mode, x, SourcesOf(resolve, old(world.files)), maxBytes) {
      ScannableIsPlannable(g, c, mode, x, old(world.files), maxBytes);
    }
  }

  /** RunScan against a database: it either publishes exactly the catalog the snapshot declares,
    * guarded and counted, or leaves the stored catalog as it was; and if nothing interferes it
    * publishes unless the snapshot cannot be scanned or a write exceeds the cover budget. */
  method RunScan(store: CatalogStore, world: ArchiveWorld, resolve: map<SegmentName, ArchivePath>, mode: Mode, x: Inpx,
                 id: ScanId, maxInFlight: nat, maxBytes: nat, coverBudget: nat)
    returns (end: ScanEnd, ghost scan: Scan, ghost guards: Guards, ghost validation: nat)
    requires store.Valid() && FreshId(store.tables, id) && maxInFlight > 0
    modifies store, world
    ensures store.Valid()
    ensures end.Discarded? ==> store.tables == old(store.tables) && store.stats == old(store.stats)
    ensures end.Discarded? && end.cleaned ==> store.coverFiles == old(store.coverFiles)
    ensures end.Published? ==> scan.x == x && scan.id == id && Admissible(old(store.tables.cat), scan)
    ensures end.Published? ==> store.tables == Committed(old(store.tables), scan)
    ensures end.Published? ==> store.tables.cat == Rebuilt(old(store.tables.cat), x, scan.facts)
    ensures end.Published? ==> GuardedTwice(guards, scan.plans, world.history, |old(world.history)|, validation)
    ensures end.Published? ==> AllConfirmed(guards, old(store.tables.cat), scan.plans)
    ensures end.Published? ==> Accounted(old(store.stats), old(store.tables), scan, end.counters, maxBytes, coverBudget)
    ensures end.Published? ==> CountersDescribe(end.counters, old(store.tables.cat), mode, x, View(resolve, guards))
    ensures end.Published? && mode == InitialScan ==> end.counters.reused == 0
    ensures end.Published? && mode == Rescan && AllUnaltered(old(store.tables.cat), x, View(resolve, guards)) ==>
      end.counters.reused == end.counters.total && end.counters.parsedFb2 == 0
    ensures end.Published? && end.cleaned ==> store.coverFiles == CoversNamed(store.tables.cat.books)
    ensures end.Published? && scan.tasks != [] ==> store.stats.coverBytes <= coverBudget
    ensures store.faults == old(store.faults) ==> end.cleaned
    ensures end.Published? && end.cleaned ==> store.faults == old(store.faults)
    ensures end.Published? ==> world.refusals == old(world.refusals)
    ensures end.Published? ==> Extractions(world.history) == Extractions(old(world.history)) + |scan.tasks|
    ensures end.Published? && store.faults == old(store.faults) && world.faults == old(world.faults) ==>
      CountersDescribe(end.counters, old(store.tables.cat), mode, x, SourcesOf(resolve, old(world.files)))
    ensures end.Published? && store.faults == old(store.faults) && world.faults == old(world.faults) ==>
      Scannable(old(store.tables.cat), mode, x, SourcesOf(resolve, old(world.files)), maxBytes)
    ensures end.Discarded? && store.faults == old(store.faults) && world.faults == old(world.faults) ==>
      HadToStop(old(store.stats), old(store.tables), mode, x, SourcesOf(resolve, old(world.files)), scan, maxBytes, coverBudget)
  {
    ghost var st, w, files := store.stats, store.tables, world.files;
    scan, guards, validation := Scan(x, map[], [], [], id), map[], |world.history|;
    var g, plans := PlanScan(world, resolve, store.tables.cat, mode, x, maxBytes);
    if plans.None? { return Discarded(true), scan, guards, validation; }
    ghost var planned, calm := world.history, GuardsTrue(g.guards, files);
    NothingExtracted(old(world.history), planned, {Planning});
    ghost var executed: History;
    end, scan, executed := Transact(store, g, mode, x, plans.value, id, maxInFlight, maxBytes, coverBudget);
    guards, validation := g.guards, |executed|;
    if end.Published? {
      ReportIsKept(st, w, scan, end.counters, maxBytes, coverBudget);
      ReportDescribes(st, w, mode, x, View(resolve, guards), scan, end.counters, maxBytes, coverBudget);
      SeenTwice(guards, scan.plans, old(world.history), planned, executed, world.history);
      if calm { QuietPublication(st, w, mode, x, resolve, guards, files, scan, end.counters, maxBytes, coverBudget); }
    } else if calm && Obstructed(st, w, scan, guards, files, maxBytes, coverBudget) {
      QuietStop(st, w, mode, x, resolve, guards, files, scan, maxBytes, coverBudget);
    }
  }
}
