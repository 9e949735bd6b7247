/** The statements a scan issues, as functions on the tables, and the plans and payloads it may
  * issue them for. */
module IncrementalScan {
  import opened Wrappers
  import opened CatalogModel

  type ScanId = nat

  datatype Change = Unchanged | Added | Changed | Removed

  /** `records` is the content behind the INP fingerprint; `parsed` holds the records only
    * when the segment was parsed in this scan. */
  datatype Plan = Plan(change: Change, name: SegmentName, records: seq<Record>, parsed: seq<Record>,
                       total: nat, deletedCount: nat, order: nat, archive: Option<ArchiveInfo>)

  predicate Reparsed(p: Plan) { p.change.Added? || p.change.Changed? }

  /** One payload to store: the record, its segment and the parsed book. */
  datatype Task = Task(segment: SegmentName, record: Record, book: Book)

  /** The open transaction: the tables plus the last_seen_scan_id column of the locations. */
  datatype Work = Work(cat: Catalog, lastSeen: map<LibId, ScanId>)

  // ---------------------------------------------------------------- the statements

  function PlanRow(p: Plan): SegmentRow {
    SegmentRow(p.records, p.order, p.total, p.deletedCount, !p.change.Removed?, p.archive)
  }

  function DeletionRows(p: Plan): set<(SegmentName, LibId)> {
    set l | l in DeletedIds(p.parsed) :: (p.name, l)
  }

  function WithoutSegment(deletions: set<(SegmentName, LibId)>, s: SegmentName): set<(SegmentName, LibId)> {
    set d | d in deletions && d.0 != s
  }

  function UpsertSegment(c: Catalog, p: Plan): Catalog {
    var segments := c.segments[p.name := PlanRow(p)];
    match p.change
    case Unchanged => c.(segments := segments)
    case Removed => c.(segments := segments, deletions := WithoutSegment(c.deletions, p.name))
    case _ => c.(segments := segments, deletions := WithoutSegment(c.deletions, p.name) + DeletionRows(p))
  }

  function UpsertAll(c: Catalog, plans: seq<Plan>): Catalog {
    if plans == [] then c
    else UpsertSegment(UpsertAll(c, plans[..|plans| - 1]), plans[|plans| - 1])
  }

  function WrittenRow(t: Task): BookRow {
    BookRow(t.segment, t.record, t.book, true, true)
  }

  function WriteRecord(w: Work, t: Task, id: ScanId): Work {
    Work(w.cat.(books := w.cat.books[t.record.libId := WrittenRow(t)]), w.lastSeen[t.record.libId := id])
  }

  function WriteAll(w: Work, tasks: seq<Task>, id: ScanId): Work {
    if tasks == [] then w
    else WriteRecord(WriteAll(w, tasks[..|tasks| - 1], id), tasks[|tasks| - 1], id)
  }

  /** The rows the present_in_segment UPDATE touches. */
  predicate NotSeen(w: Work, l: LibId, s: SegmentName, id: ScanId)
    requires l in w.cat.books
  {
    w.cat.books[l].segment == s && w.cat.books[l].present && (l !in w.lastSeen || w.lastSeen[l] != id)
  }

  function ClearAbsent(w: Work, s: SegmentName, id: ScanId): Work {
    Work(w.cat.(books := map l | l in w.cat.books ::
                  if NotSeen(w, l, s, id) then w.cat.books[l].(present := false) else w.cat.books[l]),
         map l | l in w.lastSeen.Keys + w.cat.books.Keys && (l in w.lastSeen || NotSeen(w, l, s, id)) ::
           if l in w.cat.books && NotSeen(w, l, s, id) then id else w.lastSeen[l])
  }

  function ClearAll(w: Work, names: seq<SegmentName>, id: ScanId): Work {
    if names == [] then w
    else ClearAbsent(ClearAll(w, names[..|names| - 1], id), names[|names| - 1], id)
  }

  function RecomputedBooks(c: Catalog): map<LibId, BookRow> {
    map l | l in c.books :: c.books[l].(available := Eligible(c.segments, c.deletions, l, c.books[l]))
  }

  function ReparsedNames(plans: seq<Plan>): seq<SegmentName> {
    if plans == [] then []
    else ReparsedNames(plans[..|plans| - 1])
         + if Reparsed(plans[|plans| - 1]) then [plans[|plans| - 1].name] else []
  }

  /** The transaction's rows just before availability is recomputed. */
  function Settled(w: Work, plans: seq<Plan>, tasks: seq<Task>, id: ScanId): Work {
    ClearAll(WriteAll(Work(UpsertAll(w.cat, plans), w.lastSeen), tasks, id), ReparsedNames(plans), id)
  }

  /** The two availability UPDATEs: availability follows eligibility, and a row that changed is
    * stamped with the scan id. */
  function Recomputed(w: Work, id: ScanId): Work {
    var books := RecomputedBooks(w.cat);
    Work(w.cat.(books := books),
         map l | l in w.lastSeen.Keys + books.Keys && (l in w.lastSeen || books[l] != w.cat.books[l]) ::
           if l in books && books[l] != w.cat.books[l] then id else w.lastSeen[l])
  }

  /** Everything between opening the transaction and committing it. */
  function Incremental(w: Work, plans: seq<Plan>, tasks: seq<Task>, id: ScanId): Work {
    Recomputed(Settled(w, plans, tasks, id), id)
  }

  // ---------------------------------------------------------------- admissible plans and tasks

  /** Planning kept the segment because nothing it depends on changed. */
  ghost predicate Reusable(c: Catalog, p: Plan) {
    && p.name in c.segments
    && var row := c.segments[p.name];
       && row.available && row.records == p.records && row.total == p.total && row.deletedCount == p.deletedCount
       && (row.archive.Some? <==> p.archive.Some?)
       && (row.archive.Some? ==> row.archive.value.manifest == p.archive.value.manifest)
  }

  ghost predicate PlanFits(c: Catalog, seg: Segment, order: nat, facts: ArchiveFacts, p: Plan) {
    && p.name == seg.name && p.records == seg.records && p.order == order && p.archive == FactsOf(facts, seg.name)
    && !p.change.Removed?
    && (p.change.Unchanged? ==> Reusable(c, p))
    && (Reparsed(p) ==> p.parsed == p.records && p.total == |p.records| && p.deletedCount == CountDeleted(p.records))
  }

  ghost predicate RemovalFits(c: Catalog, p: Plan) {
    && p.change.Removed?
    && p.name in c.segments
    && PlanRow(p) == c.segments[p.name].(available := false)
  }

  /** One plan per current segment in order, then one removal per vanished segment. */
  ghost predicate PlansFit(c: Catalog, x: Inpx, facts: ArchiveFacts, plans: seq<Plan>) {
    && |x| <= |plans|
    && (forall i :: 0 <= i < |x| ==> PlanFits(c, x[i], i, facts, plans[i]))
    && (forall i :: |x| <= i < |plans| ==> RemovalFits(c, plans[i]) && plans[i].name !in Names(x))
    && (forall i, j :: |x| <= i < j < |plans| ==> plans[i].name != plans[j].name)
    && (forall s :: s in c.segments && s !in Names(x) ==> exists i :: |x| <= i < |plans| && plans[i].name == s)
  }

  predicate TaskOf(p: Plan, j: int, t: Task) {
    && Reparsed(p) && 0 <= j < |p.parsed| && IsActive(p.parsed[j])
    && p.archive.Some? && p.parsed[j].entry in p.archive.value.manifest
    && t == Task(p.name, p.parsed[j], p.archive.value.manifest[p.parsed[j].entry])
  }

  ghost predicate Planned(plans: seq<Plan>, t: Task) {
    exists i, j :: 0 <= i < |plans| && TaskOf(plans[i], j, t)
  }

  ghost predicate DistinctTasks(tasks: seq<Task>) {
    forall a, b :: 0 <= a < b < |tasks| ==> tasks[a].record.libId != tasks[b].record.libId
  }

  /** The drained tasks are the active records of the reparsed segments, each once, in any
    * order at all. */
  ghost predicate TasksFit(plans: seq<Plan>, tasks: seq<Task>) {
    && DistinctTasks(tasks)
    && (forall a :: 0 <= a < |tasks| ==> Planned(plans, tasks[a]))
    && (forall i, j :: 0 <= i < |plans| && Reparsed(plans[i]) && 0 <= j < |plans[i].parsed| && IsActive(plans[i].parsed[j])
         ==> exists a :: 0 <= a < |tasks| && TaskOf(plans[i], j, tasks[a]))
  }

  /** The scan id was not used by any earlier scan. */
  ghost predicate FreshId(w: Work, id: ScanId) {
    forall l :: l in w.lastSeen ==> w.lastSeen[l] != id
  }
}
