/** What holds after every history of committed scans. */
module ScanHistory {
  import opened Wrappers
  import opened CatalogModel
  import opened IncrementalScan
  import opened IncrementalScanProof

  // ---------------------------------------------------------------- one scan keeps the invariant

  lemma ListedIsStored(c: Catalog, x: Inpx, facts: ArchiveFacts, i: nat, j: nat)
    requires Unambiguous(x) && FactsFit(x, facts) && i < |x| && j < |x[i].records| && IsActive(x[i].records[j])
    ensures x[i].name in RebuiltSegments(c, x, facts)
    ensures ActiveRecordStored(Rebuilt(c, x, facts), x[i].name, x[i].records[j])
  {
    IndexIsUnique(x, i);
    var l := x[i].records[j].libId;
    assert Lists(x, i, j, l);
    AllActiveListed(x, l);
  }

  lemma PresentIsListed(c: Catalog, x: Inpx, facts: ArchiveFacts, i: nat, l: LibId)
    requires Unambiguous(x) && FactsFit(x, facts) && i < |x|
    requires var books := RebuiltBooks(c, x, facts); l in books && books[l].segment == x[i].name && books[l].present
    ensures l in ActiveIds(x[i].records)
  {
    assert x[i].name in Names(x);
    AllActiveListed(x, l);
    var (i', j') := Owner(x, l);
  }

  lemma RebuiltSegmentMatches(c: Catalog, x: Inpx, facts: ArchiveFacts, i: nat)
    requires Unambiguous(x) && FactsFit(x, facts) && i < |x|
    ensures x[i].name in RebuiltSegments(c, x, facts)
    ensures SegmentContentMatches(Rebuilt(c, x, facts), x[i].name)
  {
    var r := Rebuilt(c, x, facts);
    var s := x[i].name;
    IndexIsUnique(x, i);
    forall l ensures (s, l) in r.deletions <==> l in DeletedIds(x[i].records) { RebuiltDeletionAt(x, s, l); }
    forall j | 0 <= j < |x[i].records| && IsActive(x[i].records[j]) ensures ActiveRecordStored(r, s, x[i].records[j]) {
      ListedIsStored(c, x, facts, i, j);
    }
    forall l | l in r.books && r.books[l].segment == s && r.books[l].present ensures l in ActiveIds(x[i].records) {
      PresentIsListed(c, x, facts, i, l);
    }
    assert DistinctActive(x[i].records) by {
      forall j, j' | 0 <= j < j' < |x[i].records| && IsActive(x[i].records[j]) && IsActive(x[i].records[j'])
        ensures x[i].records[j].libId != x[i].records[j'].libId {
        assert Lists(x, i, j, x[i].records[j].libId) && Lists(x, i, j', x[i].records[j'].libId);
      }
    }
  }

  lemma RebuiltRow(c: Catalog, x: Inpx, facts: ArchiveFacts, l: LibId)
    requires Inv(c) && Unambiguous(x) && FactsFit(x, facts) && l in RebuiltBooks(c, x, facts)
    ensures var r := Rebuilt(c, x, facts);
      && r.books[l].segment in r.segments && r.books[l].record.libId == l
      && (r.books[l].available <==> Eligible(r.segments, r.deletions, l, r.books[l]))
  {
    AllActiveListed(x, l);
    if Listed(x, l) {
      var (i, j) := Owner(x, l);
      IndexIsUnique(x, i);
      EligibleWhenListed(c, x, facts, i, l, ListedRow(x, facts, l));
    } else {
      IneligibleWhenUnlisted(c, x, facts, l, c.books[l]);
    }
  }

  lemma RebuiltKeepsInv(c: Catalog, x: Inpx, facts: ArchiveFacts)
    requires Inv(c) && Unambiguous(x) && FactsFit(x, facts)
    ensures Inv(Rebuilt(c, x, facts))
  {
    var r := Rebuilt(c, x, facts);
    forall s | s in r.segments && r.segments[s].available ensures SegmentContentMatches(r, s) {
      assert s in Names(x);
      RebuiltSegmentMatches(c, x, facts, IndexOf(x, s));
    }
    forall s, l | (s, l) in r.deletions ensures s in r.segments && r.segments[s].available {
      RebuiltDeletionAt(x, s, l);
    }
    forall l | l in r.books
      ensures r.books[l].segment in r.segments && r.books[l].record.libId == l
      ensures r.books[l].available <==> Eligible(r.segments, r.deletions, l, r.books[l])
    { RebuiltRow(c, x, facts, l); }
  }

  // ---------------------------------------------------------------- runs

  /** One committed scan: the snapshot, what planning decided, the drained payloads, the scan id. */
  datatype Scan = Scan(x: Inpx, facts: ArchiveFacts, plans: seq<Plan>, tasks: seq<Task>, id: ScanId)

  ghost predicate Admissible(c: Catalog, scan: Scan) {
    && Unambiguous(scan.x) && FactsFit(scan.x, scan.facts)
    && PlansFit(c, scan.x, scan.facts, scan.plans) && TasksFit(scan.plans, scan.tasks)
  }

  function Committed(w: Work, scan: Scan): Work {
    Incremental(w, scan.plans, scan.tasks, scan.id)
  }

  ghost predicate IsRun(ws: seq<Work>, scans: seq<Scan>) {
    && |ws| == |scans| + 1
    && ws[0] == Work(EMPTY_CATALOG, map[])
    && (forall k :: 0 <= k < |scans| ==> Admissible(ws[k].cat, scans[k]) && ws[k + 1] == Committed(ws[k], scans[k]))
    && (forall k, m :: 0 <= k < m < |scans| ==> scans[k].id < scans[m].id)
  }

  ghost predicate SeenBefore(w: Work, id: ScanId) {
    forall l :: l in w.lastSeen ==> w.lastSeen[l] < id
  }

  lemma {:induction false} WriteAllSeen(w: Work, tasks: seq<Task>, id: ScanId, next: ScanId)
    requires SeenBefore(w, next) && id < next
    ensures SeenBefore(WriteAll(w, tasks, id), next)
  {
    if tasks != [] { WriteAllSeen(w, tasks[..|tasks| - 1], id, next); }
  }

  lemma {:induction false} ClearAllSeen(w: Work, names: seq<SegmentName>, id: ScanId, next: ScanId)
    requires SeenBefore(w, next) && id < next
    ensures SeenBefore(ClearAll(w, names, id), next)
  {
    if names != [] { ClearAllSeen(w, names[..|names| - 1], id, next); }
  }

  lemma CommittedSeen(w: Work, scan: Scan, next: ScanId)
    requires SeenBefore(w, next) && scan.id < next
    ensures SeenBefore(Committed(w, scan), next)
  {
    var upserted := Work(UpsertAll(w.cat, scan.plans), w.lastSeen);
    WriteAllSeen(upserted, scan.tasks, scan.id, next);
    ClearAllSeen(WriteAll(upserted, scan.tasks, scan.id), ReparsedNames(scan.plans), scan.id, next);
  }

  /** Along any run the invariant holds, no scan id was seen before its scan, and every scan
    * commits exactly the declared catalog. */
  lemma {:induction false} RunKeepsInv(ws: seq<Work>, scans: seq<Scan>, k: nat)
    requires IsRun(ws, scans) && k <= |scans|
    ensures Inv(ws[k].cat)
    ensures forall m :: k <= m < |scans| ==> SeenBefore(ws[k], scans[m].id)
    ensures k > 0 ==> ws[k].cat == Rebuilt(ws[k - 1].cat, scans[k - 1].x, scans[k - 1].facts)
  {
    if k == 0 {
      EmptyInv();
    } else {
      RunKeepsInv(ws, scans, k - 1);
      var w, scan := ws[k - 1], scans[k - 1];
      assert Admissible(w.cat, scan) && ws[k] == Committed(w, scan);
      IncrementalIsRebuilt(w, scan.x, scan.facts, scan.plans, scan.tasks, scan.id);
      RebuiltKeepsInv(w.cat, scan.x, scan.facts);
      forall m | k <= m < |scans| ensures SeenBefore(ws[k], scans[m].id) {
        CommittedSeen(w, scan, scans[m].id);
      }
    }
  }

  /** The rows a reader sees as available. */
  ghost function AvailableRows(c: Catalog): map<LibId, BookRow> {
    map l | l in c.books && c.books[l].available :: c.books[l]
  }

  /** Some segment lists `l` as an active FB2 record and no later segment deletes it. */
  ghost predicate ListedAndKept(x: Inpx, l: LibId) {
    exists i, j :: Lists(x, i, j, l) && !DeletedAfter(x, i, l)
  }

  lemma AvailableAt(c: Catalog, x: Inpx, facts: ArchiveFacts, l: LibId)
    requires Unambiguous(x) && FactsFit(x, facts)
    ensures var books := RebuiltBooks(c, x, facts);
      && (l in books && books[l].available <==> ListedAndKept(x, l))
      && (ListedAndKept(x, l) ==> Listed(x, l) && books[l] == ListedRow(x, facts, l))
  {
    AllActiveListed(x, l);
    if Listed(x, l) {
      var (i, j) := Owner(x, l);
      assert Lists(x, i, j, l);
    }
  }

  lemma AvailableInRebuilt(c: Catalog, x: Inpx, facts: ArchiveFacts)
    requires Unambiguous(x) && FactsFit(x, facts)
    ensures AvailableRows(Rebuilt(c, x, facts)) == AvailableRows(Rebuilt(EMPTY_CATALOG, x, facts))
    ensures forall l :: l in AvailableRows(Rebuilt(c, x, facts)) <==> ListedAndKept(x, l)
  {
    AvailableRowsAre(c, x, facts);
    AvailableRowsAre(EMPTY_CATALOG, x, facts);
    forall l ensures l in ShownRows(x, facts) <==> ListedAndKept(x, l) { AvailableAt(c, x, facts, l); }
  }

  /** The rows a snapshot shows, whatever was there before. */
  ghost function ShownRows(x: Inpx, facts: ArchiveFacts): map<LibId, BookRow>
    requires FactsFit(x, facts)
  {
    map l | l in AllActive(x) && ListedAndKept(x, l) :: AllActiveListed(x, l); ListedRow(x, facts, l)
  }

  lemma AvailableRowsAre(c: Catalog, x: Inpx, facts: ArchiveFacts)
    requires Unambiguous(x) && FactsFit(x, facts)
    ensures AvailableRows(Rebuilt(c, x, facts)) == ShownRows(x, facts)
  {
    forall l ensures SameAt(AvailableRows(Rebuilt(c, x, facts)), ShownRows(x, facts), l) {
      AvailableRowAt(c, x, facts, l);
    }
    SameEverywhere(AvailableRows(Rebuilt(c, x, facts)), ShownRows(x, facts));
  }

  ghost predicate SameAt(a: map<LibId, BookRow>, b: map<LibId, BookRow>, l: LibId) {
    (l in a <==> l in b) && (l in a ==> a[l] == b[l])
  }

  lemma SameEverywhere(a: map<LibId, BookRow>, b: map<LibId, BookRow>)
    requires forall l :: SameAt(a, b, l)
    ensures a == b
  {
    forall l ensures (l in a <==> l in b) && (l in a ==> a[l] == b[l]) { assert SameAt(a, b, l); }
  }

  lemma AvailableRowAt(c: Catalog, x: Inpx, facts: ArchiveFacts, l: LibId)
    requires Unambiguous(x) && FactsFit(x, facts)
    ensures SameAt(AvailableRows(Rebuilt(c, x, facts)), ShownRows(x, facts), l)
  {
    AvailableAt(c, x, facts, l);
    AllActiveListed(x, l);
  }

  /** History independence: after any run of committed scans a LibId is available iff the last
    * snapshot lists it and no later segment of that snapshot deletes it, and the available
    * rows are those of a single full scan of that snapshot into an empty catalog. */
  lemma HistoryIndependence(ws: seq<Work>, scans: seq<Scan>)
    requires IsRun(ws, scans) && |scans| > 0
    ensures var last := scans[|scans| - 1];
      && (forall l :: l in AvailableRows(ws[|scans|].cat) <==> ListedAndKept(last.x, l))
      && FactsFit(last.x, last.facts)
      && AvailableRows(ws[|scans|].cat) == AvailableRows(Rebuilt(EMPTY_CATALOG, last.x, last.facts))
  {
    var n := |scans|;
    RunKeepsInv(ws, scans, n);
    assert Admissible(ws[n - 1].cat, scans[n - 1]);
    AvailableInRebuilt(ws[n - 1].cat, scans[n - 1].x, scans[n - 1].facts);
  }

  // ---------------------------------------------------------------- the same, record by record

  /** Record `j` of segment `i` is an FB2 of `l` that is not deleted, and no record of a later segment
    * deletes `l`. */
  ghost predicate Shows(x: Inpx, i: nat, j: nat, l: LibId) {
    && i < |x| && j < |x[i].records| && !x[i].records[j].deleted && x[i].records[j].fb2 && x[i].records[j].libId == l
    && forall k: nat, m: nat ::
       i < k < |x| && m < |x[k].records| ==> !x[k].records[m].deleted || x[k].records[m].libId != l
  }

  lemma ShowsIff(x: Inpx, i: nat, j: nat, l: LibId)
    ensures Shows(x, i, j, l) <==> Lists(x, i, j, l) && !DeletedAfter(x, i, l)
  {
    if Lists(x, i, j, l) && DeletedAfter(x, i, l) {
      var k :| i < k < |x| && 0 <= k && l in DeletedIds(x[k].records);
      var m :| 0 <= m < |x[k].records| && x[k].records[m].deleted && x[k].records[m].libId == l;
      assert !Shows(x, i, j, l);
    }
    forall k: nat, m: nat | i < k < |x| && m < |x[k].records| && x[k].records[m].deleted && x[k].records[m].libId == l
      ensures DeletedAfter(x, i, l)
    {
      assert l in DeletedIds(x[k].records);
    }
  }

  /** After any run a book is available exactly if the last snapshot shows it, and then it holds the
    * payload of that record's entry in its segment's archive. */
  lemma AvailableIff(ws: seq<Work>, scans: seq<Scan>, l: LibId)
    requires IsRun(ws, scans) && |scans| > 0
    ensures var x, books := scans[|scans| - 1].x, ws[|scans|].cat.books;
      l in books && books[l].available <==> exists i: nat, j: nat :: Shows(x, i, j, l)
  {
    HistoryIndependence(ws, scans);
    var x := scans[|scans| - 1].x;
    assert l in AvailableRows(ws[|scans|].cat) <==> ListedAndKept(x, l);
    if ListedAndKept(x, l) {
      var i, j :| Lists(x, i, j, l) && !DeletedAfter(x, i, l);
      ShowsIff(x, i, j, l);
    }
    forall i: nat, j: nat | Shows(x, i, j, l) ensures ListedAndKept(x, l) { ShowsIff(x, i, j, l); }
  }

  lemma LastIsRebuilt(ws: seq<Work>, scans: seq<Scan>)
    requires IsRun(ws, scans) && |scans| > 0
    ensures var n, last := |scans|, scans[|scans| - 1];
      && Unambiguous(last.x) && FactsFit(last.x, last.facts)
      && ws[n].cat == Rebuilt(ws[n - 1].cat, last.x, last.facts)
  {
    RunKeepsInv(ws, scans, |scans|);
    assert Admissible(ws[|scans| - 1].cat, scans[|scans| - 1]);
  }

  lemma ShownRow(ws: seq<Work>, scans: seq<Scan>, i: nat, j: nat)
    requires IsRun(ws, scans) && |scans| > 0
    requires var x := scans[|scans| - 1].x; i < |x| && j < |x[i].records| && Shows(x, i, j, x[i].records[j].libId)
    ensures var last, books := scans[|scans| - 1], ws[|scans|].cat.books;
      var seg, r := last.x[i], last.x[i].records[j];
      && seg.name in last.facts && r.entry in last.facts[seg.name].manifest && r.libId in books
      && books[r.libId] == BookRow(seg.name, r, last.facts[seg.name].manifest[r.entry], true, true)
  {
    LastIsRebuilt(ws, scans);
    var x, facts, l := scans[|scans| - 1].x, scans[|scans| - 1].facts, scans[|scans| - 1].x[i].records[j].libId;
    ShowsIff(x, i, j, l);
    AllActiveListed(x, l);
    var (i', j') := Owner(x, l);
  }

  /** The rows of the segments: content, order, counts and archive of the last snapshot; segments it does
    * not have stay as they were, unavailable. */
  lemma StoredSegments(ws: seq<Work>, scans: seq<Scan>)
    requires IsRun(ws, scans) && |scans| > 0
    ensures var x, facts, segments := scans[|scans| - 1].x, scans[|scans| - 1].facts, ws[|scans|].cat.segments;
      forall i :: 0 <= i < |x| ==>
        && x[i].name in segments && segments[x[i].name].available
        && segments[x[i].name].records == x[i].records && segments[x[i].name].order == i
        && segments[x[i].name].total == |x[i].records|
        && segments[x[i].name].archive == (if x[i].name in facts then Some(facts[x[i].name]) else None)
    ensures var x, before, segments := scans[|scans| - 1].x, ws[|scans| - 1].cat.segments, ws[|scans|].cat.segments;
      forall s :: s in segments && (forall i :: 0 <= i < |x| ==> x[i].name != s) ==>
        s in before && segments[s] == before[s].(available := false)
  {
    LastIsRebuilt(ws, scans);
    var x := scans[|scans| - 1].x;
    forall i | 0 <= i < |x| ensures x[i].name in Names(x) && IndexOf(x, x[i].name) == i { IndexIsUnique(x, i); }
  }

  /** Books are never removed, and one the last snapshot does not list keeps its record and payload. */
  lemma BooksStay(ws: seq<Work>, scans: seq<Scan>, l: LibId)
    requires IsRun(ws, scans) && |scans| > 0 && l in ws[|scans| - 1].cat.books
    ensures l in ws[|scans|].cat.books
    ensures var x, before, after := scans[|scans| - 1].x, ws[|scans| - 1].cat.books[l], ws[|scans|].cat.books[l];
      (forall i: nat, j: nat :: i < |x| && j < |x[i].records| ==>
        x[i].records[j].deleted || !x[i].records[j].fb2 || x[i].records[j].libId != l)
      ==> after.record == before.record && after.book == before.book && after.segment == before.segment && !after.available
  {
    LastIsRebuilt(ws, scans);
    AllActiveListed(scans[|scans| - 1].x, l);
  }
}
