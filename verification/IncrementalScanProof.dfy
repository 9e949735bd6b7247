/** An incremental scan writes the declared catalog: statement-by-statement lemmas and the
  * refinement theorem. */
module IncrementalScanProof {
  import opened CatalogModel
  import opened IncrementalScan

  // ---------------------------------------------------------------- upserts

  ghost predicate DistinctPlanNames(plans: seq<Plan>) {
    forall i, j :: 0 <= i < j < |plans| ==> plans[i].name != plans[j].name
  }

  ghost predicate NamedIn(plans: seq<Plan>, s: SegmentName) {
    exists i :: 0 <= i < |plans| && plans[i].name == s
  }

  lemma PlansAreDistinct(c: Catalog, x: Inpx, facts: ArchiveFacts, plans: seq<Plan>)
    requires PlansFit(c, x, facts, plans) && DistinctNames(x)
    ensures DistinctPlanNames(plans)
  {
    forall i, j | 0 <= i < j < |plans| ensures plans[i].name != plans[j].name {
      if i < |x| {
        assert PlanFits(c, x[i], i, facts, plans[i]);
        assert x[i].name in Names(x);
        if j < |x| { assert PlanFits(c, x[j], j, facts, plans[j]); }
      }
    }
  }

  lemma PlanIndex(c: Catalog, x: Inpx, facts: ArchiveFacts, plans: seq<Plan>, i: nat)
    requires PlansFit(c, x, facts, plans) && i < |plans|
    ensures i < |x| <==> plans[i].name in Names(x)
    ensures i < |x| <==> !plans[i].change.Removed?
  {
    if i < |x| {
      assert PlanFits(c, x[i], i, facts, plans[i]);
      assert x[i].name in Names(x);
    } else {
      assert RemovalFits(c, plans[i]);
    }
  }

  lemma {:induction false} UpsertAllBooks(c: Catalog, plans: seq<Plan>)
    ensures UpsertAll(c, plans).books == c.books
  {
    if plans != [] { UpsertAllBooks(c, plans[..|plans| - 1]); }
  }

  /** A segment no plan names keeps its row and its deletions. */
  lemma {:induction false} UpsertAllElsewhere(c: Catalog, plans: seq<Plan>, s: SegmentName)
    requires !NamedIn(plans, s)
    ensures var u := UpsertAll(c, plans);
      && (s in u.segments <==> s in c.segments)
      && (s in c.segments ==> u.segments[s] == c.segments[s])
      && (forall l :: (s, l) in u.deletions <==> (s, l) in c.deletions)
  {
    if plans != [] {
      var n := |plans| - 1;
      assert forall i :: 0 <= i < n ==> plans[..n][i] == plans[i];
      UpsertAllElsewhere(c, plans[..n], s);
      assert plans[n].name != s;
    }
  }

  ghost predicate DeletionsOf(c: Catalog, p: Plan, deletions: set<(SegmentName, LibId)>) {
    forall l :: (p.name, l) in deletions <==>
      match p.change
      case Unchanged => (p.name, l) in c.deletions
      case Removed => false
      case _ => l in DeletedIds(p.parsed)
  }

  /** A planned segment ends with its plan's row and deletions. */
  lemma {:induction false} UpsertAllAt(c: Catalog, plans: seq<Plan>, i: nat)
    requires DistinctPlanNames(plans) && i < |plans|
    ensures var u := UpsertAll(c, plans);
      && plans[i].name in u.segments && u.segments[plans[i].name] == PlanRow(plans[i])
      && DeletionsOf(c, plans[i], u.deletions)
  {
    var n := |plans| - 1;
    if i == n {
      assert forall k :: 0 <= k < n ==> plans[..n][k] == plans[k];
      UpsertAllElsewhere(c, plans[..n], plans[n].name);
    } else {
      UpsertAllAt(c, plans[..n], i);
      assert plans[..n][i] == plans[i] && plans[i].name != plans[n].name;
    }
  }

  // ---------------------------------------------------------------- record writes

  ghost predicate TaskedIn(tasks: seq<Task>, l: LibId) {
    exists a :: 0 <= a < |tasks| && tasks[a].record.libId == l
  }

  lemma {:induction false} WriteAllTables(w: Work, tasks: seq<Task>, id: ScanId)
    ensures var v := WriteAll(w, tasks, id);
      v.cat.segments == w.cat.segments && v.cat.deletions == w.cat.deletions
  {
    if tasks != [] { WriteAllTables(w, tasks[..|tasks| - 1], id); }
  }

  lemma {:induction false} WriteAllElsewhere(w: Work, tasks: seq<Task>, id: ScanId, l: LibId)
    requires !TaskedIn(tasks, l)
    ensures var v := WriteAll(w, tasks, id);
      && (l in v.cat.books <==> l in w.cat.books)
      && (l in w.cat.books ==> v.cat.books[l] == w.cat.books[l])
      && (l in v.lastSeen <==> l in w.lastSeen)
      && (l in w.lastSeen ==> v.lastSeen[l] == w.lastSeen[l])
  {
    if tasks != [] {
      var n := |tasks| - 1;
      assert forall a :: 0 <= a < n ==> tasks[..n][a] == tasks[a];
      WriteAllElsewhere(w, tasks[..n], id, l);
      assert tasks[n].record.libId != l;
    }
  }

  lemma {:induction false} WriteAllAt(w: Work, tasks: seq<Task>, id: ScanId, a: nat)
    requires DistinctTasks(tasks) && a < |tasks|
    ensures var v := WriteAll(w, tasks, id);
      var l := tasks[a].record.libId;
      && l in v.cat.books && v.cat.books[l] == WrittenRow(tasks[a])
      && l in v.lastSeen && v.lastSeen[l] == id
  {
    var n := |tasks| - 1;
    if a < n {
      WriteAllAt(w, tasks[..n], id, a);
      assert tasks[..n][a] == tasks[a] && tasks[a].record.libId != tasks[n].record.libId;
    }
  }

  // ---------------------------------------------------------------- clearing absent rows

  predicate Unseen(w: Work, l: LibId, id: ScanId) {
    l !in w.lastSeen || w.lastSeen[l] != id
  }

  lemma {:induction false} ClearAllTables(w: Work, names: seq<SegmentName>, id: ScanId)
    ensures var v := ClearAll(w, names, id);
      && v.cat.segments == w.cat.segments && v.cat.deletions == w.cat.deletions
      && v.cat.books.Keys == w.cat.books.Keys
  {
    if names != [] { ClearAllTables(w, names[..|names| - 1], id); }
  }

  lemma {:induction false} ClearAllAt(w: Work, names: seq<SegmentName>, id: ScanId, l: LibId)
    requires l in w.cat.books
    ensures var v := ClearAll(w, names, id);
      var row := w.cat.books[l];
      && l in v.cat.books
      && v.cat.books[l] == (if row.segment in names && Unseen(w, l, id) then row.(present := false) else row)
      && (row.segment in names || !row.present || (Unseen(v, l, id) <==> Unseen(w, l, id)))
      && (!Unseen(w, l, id) ==> !Unseen(v, l, id))
  {
    if names != [] {
      var n := |names| - 1;
      ClearAllAt(w, names[..n], id, l);
      assert names == names[..n] + [names[n]];
    }
  }

  lemma {:induction false} ReparsedNamesMembers(plans: seq<Plan>, s: SegmentName)
    ensures s in ReparsedNames(plans) <==> exists i :: 0 <= i < |plans| && Reparsed(plans[i]) && plans[i].name == s
  {
    if plans != [] {
      var n := |plans| - 1;
      ReparsedNamesMembers(plans[..n], s);
      assert forall i :: 0 <= i < n ==> plans[..n][i] == plans[i];
    }
  }

  // ---------------------------------------------------------------- the declared tables

  lemma IndexIsUnique(x: Inpx, i: nat)
    requires DistinctNames(x) && i < |x|
    ensures x[i].name in Names(x) && IndexOf(x, x[i].name) == i
  {
  }

  lemma RebuiltDeletionAt(x: Inpx, s: SegmentName, l: LibId)
    requires DistinctNames(x)
    ensures (s, l) in RebuiltDeletions(x) <==> s in Names(x) && l in DeletedIds(x[IndexOf(x, s)].records)
  {
    if (s, l) in RebuiltDeletions(x) {
      var i :| 0 <= i < |x| && l in DeletedIds(x[i].records) && x[i].name == s;
      IndexIsUnique(x, i);
    }
  }

  /** On the declared tables a listed record is eligible unless a later segment deletes it. */
  lemma EligibleWhenListed(c: Catalog, x: Inpx, facts: ArchiveFacts, i: nat, l: LibId, row: BookRow)
    requires DistinctNames(x) && i < |x| && row.segment == x[i].name && row.present
    ensures Eligible(RebuiltSegments(c, x, facts), RebuiltDeletions(x), l, row) <==> !DeletedAfter(x, i, l)
  {
    var segments := RebuiltSegments(c, x, facts);
    var deletions := RebuiltDeletions(x);
    IndexIsUnique(x, i);
    if DeletedAfter(x, i, l) {
      var k :| i < k < |x| && l in DeletedIds(x[k].records);
      IndexIsUnique(x, k);
      RebuiltDeletionAt(x, x[k].name, l);
      assert (x[k].name, l) in deletions && DeletesLater(segments, (x[k].name, l), l, segments[row.segment].order);
    }
    if d :| d in deletions && DeletesLater(segments, d, l, segments[row.segment].order) {
      RebuiltDeletionAt(x, d.0, l);
      assert IndexOf(x, d.0) > i;
    }
  }

  lemma IneligibleWhenUnlisted(c: Catalog, x: Inpx, facts: ArchiveFacts, l: LibId, row: BookRow)
    ensures !Eligible(RebuiltSegments(c, x, facts), RebuiltDeletions(x), l, UnlistedRow(x, row))
  {
  }

  // ---------------------------------------------------------------- table by table

  lemma PlannedRow(c: Catalog, x: Inpx, facts: ArchiveFacts, plans: seq<Plan>, i: nat)
    requires Inv(c) && PlansFit(c, x, facts, plans) && i < |x|
    ensures PlanRow(plans[i]) == FreshSegmentRow(x[i], i, FactsOf(facts, x[i].name))
  {
    assert PlanFits(c, x[i], i, facts, plans[i]);
    if plans[i].change.Unchanged? {
      assert SegmentContentMatches(c, plans[i].name);
    }
  }

  lemma SegmentAgreesAt(c: Catalog, x: Inpx, facts: ArchiveFacts, plans: seq<Plan>, s: SegmentName)
    requires Inv(c) && PlansFit(c, x, facts, plans) && DistinctNames(x)
    ensures var u, target := UpsertAll(c, plans).segments, RebuiltSegments(c, x, facts);
      (s in u <==> s in target) && (s in u ==> u[s] == target[s])
  {
    PlansAreDistinct(c, x, facts, plans);
    if s in Names(x) {
      var i := IndexOf(x, s);
      assert PlanFits(c, x[i], i, facts, plans[i]);
      UpsertAllAt(c, plans, i);
      PlannedRow(c, x, facts, plans, i);
    } else if s in c.segments {
      var i :| |x| <= i < |plans| && plans[i].name == s;
      UpsertAllAt(c, plans, i);
      assert RemovalFits(c, plans[i]);
    } else {
      forall i | 0 <= i < |plans| ensures plans[i].name != s {
        PlanIndex(c, x, facts, plans, i);
        assert i >= |x| ==> RemovalFits(c, plans[i]);
      }
      UpsertAllElsewhere(c, plans, s);
    }
  }

  lemma SegmentsAgree(c: Catalog, x: Inpx, facts: ArchiveFacts, plans: seq<Plan>)
    requires Inv(c) && PlansFit(c, x, facts, plans) && DistinctNames(x)
    ensures UpsertAll(c, plans).segments == RebuiltSegments(c, x, facts)
  {
    var u, target := UpsertAll(c, plans).segments, RebuiltSegments(c, x, facts);
    forall s ensures s in u <==> s in target
             ensures s in u ==> u[s] == target[s] {
      SegmentAgreesAt(c, x, facts, plans, s);
    }
  }

  lemma DeletionAgreesAt(c: Catalog, x: Inpx, facts: ArchiveFacts, plans: seq<Plan>, s: SegmentName, l: LibId)
    requires Inv(c) && PlansFit(c, x, facts, plans) && DistinctNames(x)
    ensures (s, l) in UpsertAll(c, plans).deletions <==> (s, l) in RebuiltDeletions(x)
  {
    PlansAreDistinct(c, x, facts, plans);
    RebuiltDeletionAt(x, s, l);
    if s in Names(x) {
      var i := IndexOf(x, s);
      assert PlanFits(c, x[i], i, facts, plans[i]);
      UpsertAllAt(c, plans, i);
      if plans[i].change.Unchanged? { assert SegmentContentMatches(c, s); }
    } else if NamedIn(plans, s) {
      var i :| 0 <= i < |plans| && plans[i].name == s;
      UpsertAllAt(c, plans, i);
      PlanIndex(c, x, facts, plans, i);
    } else {
      UpsertAllElsewhere(c, plans, s);
      assert (s, l) !in c.deletions;
    }
  }

  lemma DeletionsAgree(c: Catalog, x: Inpx, facts: ArchiveFacts, plans: seq<Plan>)
    requires Inv(c) && PlansFit(c, x, facts, plans) && DistinctNames(x)
    ensures UpsertAll(c, plans).deletions == RebuiltDeletions(x)
  {
    var u, target := UpsertAll(c, plans).deletions, RebuiltDeletions(x);
    forall d ensures d in u <==> d in target { DeletionAgreesAt(c, x, facts, plans, d.0, d.1); }
  }

  /** A task for `l` means some reparsed segment lists `l`. */
  lemma TaskedIsListed(c: Catalog, x: Inpx, facts: ArchiveFacts, plans: seq<Plan>, tasks: seq<Task>, l: LibId)
    returns (i: nat, j: nat)
    requires PlansFit(c, x, facts, plans) && TasksFit(plans, tasks) && TaskedIn(tasks, l)
    ensures Lists(x, i, j, l) && Reparsed(plans[i])
  {
    var a :| 0 <= a < |tasks| && tasks[a].record.libId == l;
    assert Planned(plans, tasks[a]);
    i, j :| 0 <= i < |plans| && TaskOf(plans[i], j, tasks[a]);
    PlanIndex(c, x, facts, plans, i);
    assert PlanFits(c, x[i], i, facts, plans[i]);
  }

  ghost predicate ScanFits(w: Work, x: Inpx, facts: ArchiveFacts, plans: seq<Plan>, tasks: seq<Task>, id: ScanId) {
    && Inv(w.cat) && FreshId(w, id)
    && Unambiguous(x) && FactsFit(x, facts)
    && PlansFit(w.cat, x, facts, plans) && TasksFit(plans, tasks)
  }

  lemma SettledTables(w: Work, x: Inpx, facts: ArchiveFacts, plans: seq<Plan>, tasks: seq<Task>, id: ScanId)
    requires ScanFits(w, x, facts, plans, tasks, id)
    ensures Settled(w, plans, tasks, id).cat.segments == RebuiltSegments(w.cat, x, facts)
    ensures Settled(w, plans, tasks, id).cat.deletions == RebuiltDeletions(x)
  {
    var upserted := Work(UpsertAll(w.cat, plans), w.lastSeen);
    SegmentsAgree(w.cat, x, facts, plans);
    DeletionsAgree(w.cat, x, facts, plans);
    WriteAllTables(upserted, tasks, id);
    ClearAllTables(WriteAll(upserted, tasks, id), ReparsedNames(plans), id);
  }

  /** A listed book of a reused segment is stored as a reparse would store it. */
  lemma ReusedIsStored(c: Catalog, x: Inpx, facts: ArchiveFacts, plans: seq<Plan>, i: nat, j: nat)
    requires Inv(c) && PlansFit(c, x, facts, plans) && FactsFit(x, facts)
    requires i < |x| && plans[i].change.Unchanged? && j < |x[i].records| && IsActive(x[i].records[j])
    ensures var r := x[i].records[j];
      && r.libId in c.books && x[i].name in facts && r.entry in facts[x[i].name].manifest
      && c.books[r.libId].(available := true) == BookRow(x[i].name, r, facts[x[i].name].manifest[r.entry], true, true)
  {
    assert PlanFits(c, x[i], i, facts, plans[i]);
    assert SegmentContentMatches(c, x[i].name);
    assert ActiveRecordStored(c, x[i].name, x[i].records[j]);
  }

  /** No task rewrites a listed book of a reused segment. */
  lemma ReusedIsNotTasked(c: Catalog, x: Inpx, facts: ArchiveFacts, plans: seq<Plan>, tasks: seq<Task>, i: nat, j: nat,
                          l: LibId)
    requires PlansFit(c, x, facts, plans) && TasksFit(plans, tasks) && Unambiguous(x)
    requires Lists(x, i, j, l) && plans[i].change.Unchanged?
    ensures !TaskedIn(tasks, l)
  {
    if TaskedIn(tasks, l) {
      var i', j' := TaskedIsListed(c, x, facts, plans, tasks, l);
      assert false;
    }
  }

  /** A reused segment is not among those whose unseen rows are cleared. */
  lemma ReusedIsNotCleared(c: Catalog, x: Inpx, facts: ArchiveFacts, plans: seq<Plan>, i: nat)
    requires PlansFit(c, x, facts, plans) && DistinctNames(x) && i < |x| && plans[i].change.Unchanged?
    ensures x[i].name !in ReparsedNames(plans)
  {
    assert PlanFits(c, x[i], i, facts, plans[i]);
    PlansAreDistinct(c, x, facts, plans);
    ReparsedNamesMembers(plans, x[i].name);
  }

  /** A book the snapshot lists is settled from the snapshot, whether its segment was
    * reparsed or reused. */
  lemma SettledWhenListed(w: Work, x: Inpx, facts: ArchiveFacts, plans: seq<Plan>, tasks: seq<Task>, id: ScanId,
                          l: LibId)
    requires ScanFits(w, x, facts, plans, tasks, id) && Listed(x, l)
    ensures var books := Settled(w, plans, tasks, id).cat.books;
      l in books && books[l].(available := true) == ListedRow(x, facts, l).(available := true)
  {
    var upserted := Work(UpsertAll(w.cat, plans), w.lastSeen);
    UpsertAllBooks(w.cat, plans);
    var (i, j) := Owner(x, l);
    assert PlanFits(w.cat, x[i], i, facts, plans[i]);
    if Reparsed(plans[i]) {
      var a :| 0 <= a < |tasks| && TaskOf(plans[i], j, tasks[a]);
      WriteAllAt(upserted, tasks, id, a);
    } else {
      ReusedIsNotTasked(w.cat, x, facts, plans, tasks, i, j, l);
      ReusedIsNotCleared(w.cat, x, facts, plans, i);
      ReusedIsStored(w.cat, x, facts, plans, i, j);
      WriteAllElsewhere(upserted, tasks, id, l);
    }
    ClearAllAt(WriteAll(upserted, tasks, id), ReparsedNames(plans), id, l);
  }

  lemma SettledWhenUnlisted(w: Work, x: Inpx, facts: ArchiveFacts, plans: seq<Plan>, tasks: seq<Task>, id: ScanId,
                            l: LibId)
    requires ScanFits(w, x, facts, plans, tasks, id) && !Listed(x, l)
    ensures var books := Settled(w, plans, tasks, id).cat.books;
      && (l in books <==> l in w.cat.books)
      && (l in books ==> books[l].(available := false) == UnlistedRow(x, w.cat.books[l]))
  {
    var upserted := Work(UpsertAll(w.cat, plans), w.lastSeen);
    UpsertAllBooks(w.cat, plans);
    var written := WriteAll(upserted, tasks, id);
    if TaskedIn(tasks, l) {
      var i, j := TaskedIsListed(w.cat, x, facts, plans, tasks, l);
      assert false;
    }
    WriteAllElsewhere(upserted, tasks, id, l);
    ClearAllTables(written, ReparsedNames(plans), id);
    if l in w.cat.books {
      ClearAllAt(written, ReparsedNames(plans), id, l);
      ReparsedNamesMembers(plans, w.cat.books[l].segment);
      UnlistedPresence(w, x, facts, plans, l);
    }
  }

  /** An unlisted book's segment is reparsed, gone, or already knows the book is absent. */
  lemma UnlistedPresence(w: Work, x: Inpx, facts: ArchiveFacts, plans: seq<Plan>, l: LibId)
    requires Inv(w.cat) && PlansFit(w.cat, x, facts, plans) && DistinctNames(x) && !Listed(x, l) && l in w.cat.books
    ensures var s := w.cat.books[l].segment;
      var reparsed := exists i :: 0 <= i < |plans| && Reparsed(plans[i]) && plans[i].name == s;
      && (reparsed ==> s in Names(x))
      && (s in Names(x) && !reparsed ==> !w.cat.books[l].present)
  {
    var s := w.cat.books[l].segment;
    if i :| 0 <= i < |plans| && Reparsed(plans[i]) && plans[i].name == s {
      PlanIndex(w.cat, x, facts, plans, i);
      assert PlanFits(w.cat, x[i], i, facts, plans[i]);
    } else if s in Names(x) {
      var i := IndexOf(x, s);
      assert PlanFits(w.cat, x[i], i, facts, plans[i]);
      assert SegmentContentMatches(w.cat, s);
      AllActiveListed(x, l);
    }
  }

  lemma BookAgreesAt(w: Work, x: Inpx, facts: ArchiveFacts, plans: seq<Plan>, tasks: seq<Task>, id: ScanId, l: LibId)
    requires ScanFits(w, x, facts, plans, tasks, id)
    ensures var got, want := RecomputedBooks(Settled(w, plans, tasks, id).cat), RebuiltBooks(w.cat, x, facts);
      (l in got <==> l in want) && (l in got ==> got[l] == want[l])
  {
    SettledTables(w, x, facts, plans, tasks, id);
    var settled := Settled(w, plans, tasks, id).cat;
    AllActiveListed(x, l);
    if Listed(x, l) {
      SettledWhenListed(w, x, facts, plans, tasks, id, l);
      EligibleWhenListed(w.cat, x, facts, Owner(x, l).0, l, settled.books[l]);
    } else {
      SettledWhenUnlisted(w, x, facts, plans, tasks, id, l);
      if l in w.cat.books { IneligibleWhenUnlisted(w.cat, x, facts, l, w.cat.books[l]); }
    }
  }

  lemma BooksAgree(w: Work, x: Inpx, facts: ArchiveFacts, plans: seq<Plan>, tasks: seq<Task>, id: ScanId)
    requires ScanFits(w, x, facts, plans, tasks, id)
    ensures RecomputedBooks(Settled(w, plans, tasks, id).cat) == RebuiltBooks(w.cat, x, facts)
  {
    var got, want := RecomputedBooks(Settled(w, plans, tasks, id).cat), RebuiltBooks(w.cat, x, facts);
    forall l ensures l in got <==> l in want
             ensures l in got ==> got[l] == want[l] { BookAgreesAt(w, x, facts, plans, tasks, id, l); }
  }

  /** Refinement: whatever was reused and whatever order the payloads were drained in, the
    * transaction holds exactly the catalog the snapshot declares. */
  lemma IncrementalIsRebuilt(w: Work, x: Inpx, facts: ArchiveFacts, plans: seq<Plan>, tasks: seq<Task>, id: ScanId)
    requires ScanFits(w, x, facts, plans, tasks, id)
    ensures Incremental(w, plans, tasks, id).cat == Rebuilt(w.cat, x, facts)
  {
    SettledTables(w, x, facts, plans, tasks, id);
    BooksAgree(w, x, facts, plans, tasks, id);
  }

  // ---------------------------------------------------------------- the stamps

  /** Book `l` has the same stamp in both. */
  ghost predicate SameStamp(v: Work, w: Work, l: LibId) {
    (l in v.lastSeen <==> l in w.lastSeen) && (l in v.lastSeen ==> v.lastSeen[l] == w.lastSeen[l])
  }

  ghost predicate Stamped(v: Work, l: LibId, id: ScanId) { l in v.lastSeen && v.lastSeen[l] == id }

  /** Clearing stamps the rows it changes and no others. */
  lemma {:induction false} ClearAllStamps(w: Work, names: seq<SegmentName>, id: ScanId, l: LibId)
    ensures var v := ClearAll(w, names, id);
      && v.cat.books.Keys == w.cat.books.Keys
      && if l in w.cat.books && v.cat.books[l] != w.cat.books[l] then !v.cat.books[l].present && Stamped(v, l, id)
         else SameStamp(v, w, l)
  {
    ClearAllTables(w, names, id);
    if names != [] {
      var n := |names| - 1;
      ClearAllTables(w, names[..n], id);
      ClearAllStamps(w, names[..n], id, l);
      if l in w.cat.books { ClearAllAt(w, names[..n], id, l); }
    }
  }

  /** A scan stamps a book with its own id exactly when it stored the book again or changed its row;
    * every other book keeps its stamp. */
  lemma StampedIff(w: Work, plans: seq<Plan>, tasks: seq<Task>, id: ScanId, l: LibId)
    requires FreshId(w, id) && DistinctTasks(tasks)
    ensures var v := Incremental(w, plans, tasks, id);
      && (l in w.cat.books ==> l in v.cat.books)
      && var touched := TaskedIn(tasks, l) || (l in w.cat.books && v.cat.books[l] != w.cat.books[l]);
      (touched <==> Stamped(v, l, id)) && (!touched ==> SameStamp(v, w, l))
  {
    var upserted := Work(UpsertAll(w.cat, plans), w.lastSeen);
    UpsertAllBooks(w.cat, plans);
    var written := WriteAll(upserted, tasks, id);
    var names := ReparsedNames(plans);
    ClearAllTables(written, names, id);
    ClearAllStamps(written, names, id, l);
    if TaskedIn(tasks, l) {
      var a :| 0 <= a < |tasks| && tasks[a].record.libId == l;
      WriteAllAt(upserted, tasks, id, a);
      ClearAllAt(written, names, id, l);
    } else {
      WriteAllElsewhere(upserted, tasks, id, l);
      if l in w.cat.books { ClearAllAt(written, names, id, l); }
    }
  }
}
