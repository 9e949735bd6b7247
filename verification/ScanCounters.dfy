/** The counters of a scan, and what they say about the snapshot. */
module ScanCounters {
  import opened Wrappers
  import opened CatalogModel
  import opened IncrementalScan
  import opened ScanPlanning
  import opened ScanExecution

  datatype Counters = Counters(total: nat, scanned: nat, reused: nat, parsedFb2: nat, added: nat, updated: nat,
                               skipped: nat)

  /** What the counters of a finished scan say about its plans and tasks. */
  ghost predicate CountersExact(k: Counters, plans: seq<Plan>, books: map<LibId, BookRow>, tasks: seq<Task>) {
    && k.total == SumOver(plans, ListedCount) && k.reused == SumOver(plans, ReusedCount)
    && k.parsedFb2 == |tasks| && k.added == |NewBooks(books, tasks)| && k.added + k.updated == k.parsedFb2
    && k.skipped == SumOver(plans, ParsedSkips)
    && k.total == k.scanned == k.reused + k.parsedFb2 + k.skipped + SumOver(plans, ParsedDeletions)
  }

  // ---------------------------------------------------------------- the records of a snapshot

  /** Every record, by segment and position. */
  ghost function Spots(x: Inpx): set<(nat, nat)> {
    set i: nat, j: nat | i < |x| && j < |x[i].records| :: (i, j)
  }

  /** The records of the segments a rescan finds unaltered. */
  ghost function KeptSpots(c: Catalog, mode: Mode, x: Inpx, src: Sources): set<(nat, nat)> {
    set d | d in Spots(x) && mode == Rescan && Unaltered(c, x[d.0], src)
  }

  ghost predicate AllUnaltered(c: Catalog, x: Inpx, src: Sources) {
    forall i :: 0 <= i < |x| ==> Unaltered(c, x[i], src)
  }

  /** The records of the other segments, by kind. */
  ghost function ReadSpots(c: Catalog, mode: Mode, x: Inpx, src: Sources, deleted: bool, fb2: bool): set<(nat, nat)> {
    set d | d in Spots(x) - KeptSpots(c, mode, x, src)
            && x[d.0].records[d.1].deleted == deleted && x[d.0].records[d.1].fb2 == fb2
  }

  /** The books that were not in the catalog. */
  ghost function NewIds(c: Catalog, mode: Mode, x: Inpx, src: Sources): set<LibId> {
    set d | d in ReadSpots(c, mode, x, src, false, true) && x[d.0].records[d.1].libId !in c.books :: x[d.0].records[d.1].libId
  }

  /** What the counters of a finished scan say about the snapshot. */
  ghost predicate CountersDescribe(k: Counters, c: Catalog, mode: Mode, x: Inpx, src: Sources) {
    && k.total == k.scanned == |Spots(x)| && k.reused == |KeptSpots(c, mode, x, src)|
    && k.parsedFb2 == |ReadSpots(c, mode, x, src, false, true)|
    && k.skipped == |ReadSpots(c, mode, x, src, false, false)|
    && k.added == |NewIds(c, mode, x, src)| && k.added + k.updated == k.parsedFb2
  }

  // ---------------------------------------------------------------- plans and spots

  lemma PlanIsReparsedIff(c: Catalog, mode: Mode, x: Inpx, src: Sources, plans: seq<Plan>, i: nat)
    requires PlannedIn(c, mode, x, src, plans) && i < |plans|
    ensures Reparsed(plans[i]) <==> i < |x| && !(mode == Rescan && Unaltered(c, x[i], src))
    ensures Reparsed(plans[i]) ==> plans[i].parsed == x[i].records
  {
    if i < |x| {
      assert PlanSegment(c, mode, x[i], i, src) == Some(plans[i]);
      ReusedIff(c, mode, x[i], i, src);
    } else {
      assert RemovalFits(c, plans[i]);
    }
  }

  /** The positions of the execution are the records that are not kept. */
  lemma PositionsAreRead(c: Catalog, mode: Mode, x: Inpx, src: Sources, plans: seq<Plan>)
    requires PlannedIn(c, mode, x, src, plans)
    ensures Positions(plans) == Spots(x) - KeptSpots(c, mode, x, src)
    ensures forall d: (nat, nat) :: d in Positions(plans) ==> plans[d.0].parsed[d.1] == x[d.0].records[d.1]
  {
    forall d: (nat, nat)
      ensures d in Positions(plans) <==> d in Spots(x) - KeptSpots(c, mode, x, src)
      ensures d in Positions(plans) ==> d in Spots(x) && plans[d.0].parsed[d.1] == x[d.0].records[d.1]
    {
      if d.0 < |plans| { PlanIsReparsedIff(c, mode, x, src, plans, d.0); }
    }
  }

  lemma SpotsStep(x: Inpx, seg: Segment)
    ensures Spots(x + [seg]) == Spots(x) + Column(|x|, |seg.records|) && Spots(x) !! Column(|x|, |seg.records|)
  {
  }

  /** Every record of the snapshot is counted, segment by segment. */
  lemma {:induction false} ListedAreSpots(plans: seq<Plan>, x: Inpx)
    requires |plans| == |x|
    requires forall i :: 0 <= i < |x| ==> !plans[i].change.Removed? && plans[i].total == |x[i].records|
    ensures SumOver(plans, ListedCount) == |Spots(x)|
  {
    if x == [] {
      assert Spots(x) == {};
    } else {
      var n := |x| - 1;
      ListedAreSpots(plans[..n], x[..n]);
      assert x == x[..n] + [x[n]];
      SpotsStep(x[..n], x[n]);
      ColumnSize(n, |x[n].records|);
    }
  }

  lemma {:induction false} RemovalsAreUnlisted(plans: seq<Plan>, n: nat)
    requires n <= |plans| && forall i :: n <= i < |plans| ==> plans[i].change.Removed?
    ensures SumOver(plans, ListedCount) == SumOver(plans[..n], ListedCount)
  {
    if n < |plans| {
      RemovalsAreUnlisted(plans[..|plans| - 1], n);
      assert plans[..|plans| - 1][..n] == plans[..n];
    } else {
      assert plans[..n] == plans;
    }
  }

  lemma TotalIsSpots(c: Catalog, mode: Mode, x: Inpx, src: Sources, plans: seq<Plan>)
    requires Inv(c) && PlannedIn(c, mode, x, src, plans)
    ensures SumOver(plans, ListedCount) == |Spots(x)|
  {
    forall i | 0 <= i < |x| ensures !plans[i].change.Removed? && plans[i].total == |x[i].records| {
      assert PlanSegment(c, mode, x[i], i, src) == Some(plans[i]);
      ReusedIff(c, mode, x[i], i, src);
      if plans[i].change == Unchanged { assert SegmentContentMatches(c, x[i].name); }
    }
    ListedAreSpots(plans[..|x|], x);
    RemovalsAreUnlisted(plans, |x|);
  }

  lemma ReadSpotsAreAmong(c: Catalog, mode: Mode, x: Inpx, src: Sources, plans: seq<Plan>)
    requires PlannedIn(c, mode, x, src, plans)
    ensures Among(plans, Positions(plans), IsSkipped) == ReadSpots(c, mode, x, src, false, false)
    ensures Among(plans, Positions(plans), IsDeleted)
         == ReadSpots(c, mode, x, src, true, false) + ReadSpots(c, mode, x, src, true, true)
  {
    PositionsAreRead(c, mode, x, src, plans);
  }

  /** Every record that is read is an FB2, another format, or a deletion. */
  lemma ReadSpotsPartition(c: Catalog, mode: Mode, x: Inpx, src: Sources)
    ensures var rest := Spots(x) - KeptSpots(c, mode, x, src);
      var fb2, other := ReadSpots(c, mode, x, src, false, true), ReadSpots(c, mode, x, src, false, false);
      var deletions := ReadSpots(c, mode, x, src, true, false) + ReadSpots(c, mode, x, src, true, true);
      rest == fb2 + other + deletions && fb2 !! other && (fb2 + other) !! deletions
    ensures KeptSpots(c, mode, x, src) <= Spots(x)
  {
  }

  lemma PartsAddUp(all: set<(nat, nat)>, kept: set<(nat, nat)>, a: set<(nat, nat)>, b: set<(nat, nat)>,
                   d: set<(nat, nat)>)
    requires kept <= all && all - kept == a + b + d && a !! b && (a + b) !! d
    ensures |all| == |kept| + |a| + |b| + |d|
  {
    assert all == kept + (all - kept);
  }

  // ---------------------------------------------------------------- tasks and spots

  /** With each LibId once, there are as many tasks for new books as there are new LibIds. */
  lemma {:induction false} NewBooksAreIds(books: map<LibId, BookRow>, tasks: seq<Task>)
    requires DistinctTasks(tasks)
    ensures |NewBooks(books, tasks)| == |NewTaskIds(books, tasks)|
  {
    if tasks == [] {
      assert NewBooks(books, tasks) == {} && NewTaskIds(books, tasks) == {};
    } else {
      var n := |tasks| - 1;
      var front, t := tasks[..n], tasks[n];
      assert tasks == front + [t];
      NewBooksAreIds(books, front);
      NewBooksStep(books, front, t);
      NewTaskIdsStep(books, front, t);
    }
  }

  ghost function NewTaskIds(books: map<LibId, BookRow>, tasks: seq<Task>): set<LibId> {
    set a | 0 <= a < |tasks| && tasks[a].record.libId !in books :: tasks[a].record.libId
  }

  lemma NewTaskIdsStep(books: map<LibId, BookRow>, front: seq<Task>, t: Task)
    requires DistinctTasks(front + [t])
    ensures NewTaskIds(books, front + [t]) ==
      NewTaskIds(books, front) + if t.record.libId !in books then {t.record.libId} else {}
    ensures t.record.libId !in NewTaskIds(books, front)
  {
    var all := front + [t];
    assert all[|front|] == t && forall a :: 0 <= a < |front| ==> all[a] == front[a];
    forall l | l in NewTaskIds(books, front) ensures l in NewTaskIds(books, all) && l != t.record.libId {
      var a :| 0 <= a < |front| && front[a].record.libId == l;
      assert all[a] == front[a];
    }
  }

  lemma TaskIsRead(c: Catalog, mode: Mode, x: Inpx, src: Sources, plans: seq<Plan>, t: Task) returns (d: (nat, nat))
    requires PlannedIn(c, mode, x, src, plans) && Planned(plans, t)
    ensures d in ReadSpots(c, mode, x, src, false, true) && x[d.0].records[d.1] == t.record
  {
    var i: nat, j: nat :| i < |plans| && TaskOf(plans[i], j, t);
    d := (i, j);
    PlanIsReparsedIff(c, mode, x, src, plans, i);
  }

  lemma ReadIsTask(c: Catalog, mode: Mode, x: Inpx, src: Sources, plans: seq<Plan>, tasks: seq<Task>, d: (nat, nat))
    returns (a: nat)
    requires PlannedIn(c, mode, x, src, plans) && TasksFit(plans, tasks) && d in ReadSpots(c, mode, x, src, false, true)
    ensures a < |tasks| && tasks[a].record == x[d.0].records[d.1]
  {
    PlanIsReparsedIff(c, mode, x, src, plans, d.0);
    a :| a < |tasks| && TaskOf(plans[d.0], d.1, tasks[a]);
  }

  lemma NewTaskIdsAre(c: Catalog, mode: Mode, x: Inpx, src: Sources, plans: seq<Plan>, tasks: seq<Task>)
    requires PlannedIn(c, mode, x, src, plans) && TasksFit(plans, tasks)
    ensures NewTaskIds(c.books, tasks) == NewIds(c, mode, x, src)
  {
    forall l | l in NewTaskIds(c.books, tasks) ensures l in NewIds(c, mode, x, src) {
      var a :| 0 <= a < |tasks| && tasks[a].record.libId == l && l !in c.books;
      var d := TaskIsRead(c, mode, x, src, plans, tasks[a]);
    }
    forall l | l in NewIds(c, mode, x, src) ensures l in NewTaskIds(c.books, tasks) {
      var d :| d in ReadSpots(c, mode, x, src, false, true) && x[d.0].records[d.1].libId == l && l !in c.books;
      var a := ReadIsTask(c, mode, x, src, plans, tasks, d);
    }
  }

  /** The counters of a finished scan count the records of its snapshot. */
  lemma ExactCountersDescribe(k: Counters, c: Catalog, mode: Mode, x: Inpx, src: Sources, plans: seq<Plan>,
                              tasks: seq<Task>)
    requires Inv(c) && PlannedIn(c, mode, x, src, plans) && TasksFit(plans, tasks)
      && CountersExact(k, plans, c.books, tasks)
    ensures CountersDescribe(k, c, mode, x, src)
  {
    TotalIsSpots(c, mode, x, src, plans);
    PositionsAreRead(c, mode, x, src, plans);
    AmongCount(plans);
    PositionCount(plans);
    ReadSpotsAreAmong(c, mode, x, src, plans);
    ReadSpotsPartition(c, mode, x, src);
    PartsAddUp(Spots(x), KeptSpots(c, mode, x, src), ReadSpots(c, mode, x, src, false, true), ReadSpots(c, mode, x, src, false, false),
               ReadSpots(c, mode, x, src, true, false) + ReadSpots(c, mode, x, src, true, true));
    RestSize(Spots(x), KeptSpots(c, mode, x, src));
    ReusedIsRest(plans, c, mode, x, src);
    NewBooksAreIds(c.books, tasks);
    NewTaskIdsAre(c, mode, x, src, plans, tasks);
  }

  lemma RestSize(all: set<(nat, nat)>, kept: set<(nat, nat)>)
    requires kept <= all
    ensures |all - kept| == |all| - |kept|
  {
  }

  lemma ReusedIsRest(plans: seq<Plan>, c: Catalog, mode: Mode, x: Inpx, src: Sources)
    requires PlannedIn(c, mode, x, src, plans)
    ensures SumOver(plans, ListedCount) == SumOver(plans, ReusedCount) + SumOver(plans, ParsedCount)
  {
    forall i | 0 <= i < |plans| && Reparsed(plans[i]) ensures plans[i].total == |plans[i].parsed| {
      PlanIsReparsedIff(c, mode, x, src, plans, i);
      assert PlanSegment(c, mode, x[i], i, src) == Some(plans[i]);
      ReusedIff(c, mode, x[i], i, src);
    }
    CountsAddUp(plans);
  }

  /** An initial scan keeps nothing; a rescan of an unaltered snapshot keeps everything and reads no
    * payload. */
  lemma WhatIsKept(k: Counters, c: Catalog, mode: Mode, x: Inpx, src: Sources)
    requires CountersDescribe(k, c, mode, x, src)
    ensures mode == InitialScan ==> k.reused == 0
    ensures mode == Rescan && AllUnaltered(c, x, src) ==> k.reused == k.total && k.parsedFb2 == 0
  {
    if mode == InitialScan { assert KeptSpots(c, mode, x, src) == {}; }
    if mode == Rescan && AllUnaltered(c, x, src) {
      assert KeptSpots(c, mode, x, src) == Spots(x);
      assert ReadSpots(c, mode, x, src, false, true) == {};
    }
  }
}
