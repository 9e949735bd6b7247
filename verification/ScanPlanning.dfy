/** How a scan classifies one INP segment, and why the choice between reusing and reparsing
  * never shows in the catalog. */
module ScanPlanning {
  import opened Wrappers
  import opened CatalogModel
  import opened IncrementalScan
  import opened IncrementalScanProof

  datatype Mode = InitialScan | Rescan

  /** What a scan has learnt about an archive file: its size and mtime, and its manifest once read. */
  datatype Observed = Observed(state: FileState, manifest: Option<Manifest>)

  /** Archive-name resolution and the archive files it leads to. */
  datatype Sources = Sources(resolve: map<SegmentName, ArchivePath>, files: map<ArchivePath, Observed>)

  function Parse(change: Change, seg: Segment, order: nat, archive: Option<ArchiveInfo>): Plan {
    Plan(change, seg.name, seg.records, seg.records, |seg.records|, CountDeleted(seg.records), order, archive)
  }

  function Reuse(seg: Segment, order: nat, row: SegmentRow, archive: Option<ArchiveInfo>): Plan {
    Plan(Unchanged, seg.name, seg.records, [], row.total, row.deletedCount, order, archive)
  }

  function RemovedPlan(s: SegmentName, row: SegmentRow): Plan {
    Plan(Removed, s, row.records, [], row.total, row.deletedCount, row.order, row.archive)
  }

  predicate NeedsArchive(records: seq<Record>)
    ensures NeedsArchive(records) <==> RequiresArchive(records)
  {
    exists j :: 0 <= j < |records| && IsActive(records[j])
  }

  predicate CanReuse(c: Catalog, mode: Mode, seg: Segment) {
    mode.Rescan? && seg.name in c.segments && c.segments[seg.name].records == seg.records && c.segments[seg.name].available
  }

  /** The plan for one segment; None when an archive cannot be resolved or read. */
  function PlanSegment(c: Catalog, mode: Mode, seg: Segment, order: nat, src: Sources): Option<Plan> {
    if CanReuse(c, mode, seg) && c.segments[seg.name].archive.None? then
      Some(Reuse(seg, order, c.segments[seg.name], None))
    else if CanReuse(c, mode, seg) then
      var row := c.segments[seg.name];
      var known := row.archive.value;
      if seg.name !in src.resolve || src.resolve[seg.name] !in src.files then None else
      var path := src.resolve[seg.name];
      var file := src.files[path];
      if known.path == path && known.state == file.state then
        Some(Reuse(seg, order, row, Some(ArchiveInfo(path, file.state, known.manifest))))
      else if file.manifest.None? then None
      else
        var info := Some(ArchiveInfo(path, file.state, file.manifest.value));
        if known.manifest == file.manifest.value then Some(Reuse(seg, order, row, info))
        else Some(Parse(Changed, seg, order, info))
    else
      var change := if seg.name in c.segments then Changed else Added;
      if !NeedsArchive(seg.records) then Some(Parse(change, seg, order, None))
      else if seg.name !in src.resolve || src.resolve[seg.name] !in src.files then None else
      var path := src.resolve[seg.name];
      var file := src.files[path];
      if file.manifest.None? then None
      else Some(Parse(change, seg, order, Some(ArchiveInfo(path, file.state, file.manifest.value))))
  }

  // ---------------------------------------------------------------- what is reused

  /** The catalog holds the segment as the snapshot has it, available, and its archive, if it needs one,
    * has the stored path, size and modification time, or else the stored manifest. */
  ghost predicate Unaltered(c: Catalog, seg: Segment, src: Sources) {
    && seg.name in c.segments && c.segments[seg.name].available && c.segments[seg.name].records == seg.records
    && (c.segments[seg.name].archive.Some? ==> ArchiveUnaltered(c.segments[seg.name].archive.value, seg.name, src))
  }

  ghost predicate ArchiveUnaltered(known: ArchiveInfo, name: SegmentName, src: Sources) {
    && name in src.resolve && src.resolve[name] in src.files
    && var file := src.files[src.resolve[name]];
       (src.resolve[name] == known.path && file.state == known.state) || file.manifest == Some(known.manifest)
  }

  /** A segment is kept exactly if the scan is a rescan and nothing about the segment has changed;
    * otherwise all its records are parsed, as those of a known or of a new segment. */
  lemma ReusedIff(c: Catalog, mode: Mode, seg: Segment, order: nat, src: Sources)
    requires PlanSegment(c, mode, seg, order, src).Some?
    ensures var p := PlanSegment(c, mode, seg, order, src).value;
      && (p.change == Unchanged <==> mode == Rescan && Unaltered(c, seg, src))
      && (p.change != Unchanged ==> p.change == if seg.name in c.segments then Changed else Added)
      && (p.change != Unchanged ==> p.parsed == seg.records && p.total == |seg.records|)
      && (p.change == Unchanged ==> p.parsed == [] && p.total == c.segments[seg.name].total)
  {
  }

  /** The archive of a segment has to be found if a rescan could keep the segment or if some record of it
    * is an FB2 that is not deleted, and read unless the segment can be kept by the file's state alone. */
  ghost predicate Obtainable(c: Catalog, mode: Mode, seg: Segment, src: Sources) {
    if mode == Rescan && seg.name in c.segments && c.segments[seg.name].available && c.segments[seg.name].records == seg.records
    then c.segments[seg.name].archive.Some? ==> ArchiveKnown(c.segments[seg.name].archive.value, seg.name, src)
    else (exists j :: 0 <= j < |seg.records| && !seg.records[j].deleted && seg.records[j].fb2) ==> ArchiveRead(seg.name, src)
  }

  ghost predicate ArchiveRead(name: SegmentName, src: Sources) {
    name in src.resolve && src.resolve[name] in src.files && src.files[src.resolve[name]].manifest.Some?
  }

  ghost predicate ArchiveKnown(known: ArchiveInfo, name: SegmentName, src: Sources) {
    && name in src.resolve && src.resolve[name] in src.files
    && (src.files[src.resolve[name]].manifest.Some?
        || (src.resolve[name] == known.path && src.files[src.resolve[name]].state == known.state))
  }

  /** Only an archive that cannot be obtained keeps a segment from being planned. */
  lemma PlannedIff(c: Catalog, mode: Mode, seg: Segment, order: nat, src: Sources)
    ensures PlanSegment(c, mode, seg, order, src).Some? <==> Obtainable(c, mode, seg, src)
  {
    assert NeedsArchive(seg.records) <==> exists j :: 0 <= j < |seg.records| && !seg.records[j].deleted && seg.records[j].fb2;
  }

  /** Learning more about archives never revises a plan. */
  ghost predicate Extends(src: Sources, more: Sources) {
    && src.resolve == more.resolve
    && (forall p :: p in src.files ==>
          && p in more.files && more.files[p].state == src.files[p].state
          && (src.files[p].manifest.Some? ==> more.files[p].manifest == src.files[p].manifest))
  }

  lemma PlanIsStable(c: Catalog, mode: Mode, seg: Segment, order: nat, src: Sources, more: Sources)
    requires Extends(src, more) && PlanSegment(c, mode, seg, order, src).Some?
    ensures PlanSegment(c, mode, seg, order, more) == PlanSegment(c, mode, seg, order, src)
  {
  }

  // ---------------------------------------------------------------- accuracy

  /** The archive facts that hold in a world whose files are all readable. */
  ghost function WorldFacts(x: Inpx, world: Sources): ArchiveFacts
    requires Readable(x, world)
  {
    map s | s in Names(x) && RequiresArchive(x[IndexOf(x, s)].records) ::
      assert ReadableSegment(x[IndexOf(x, s)], world);
      var path := world.resolve[s];
      ArchiveInfo(path, world.files[path].state, world.files[path].manifest.value)
  }

  ghost predicate ReadableSegment(seg: Segment, world: Sources) {
    RequiresArchive(seg.records) ==>
      && seg.name in world.resolve && world.resolve[seg.name] in world.files
      && world.files[world.resolve[seg.name]].manifest.Some?
  }

  ghost predicate Readable(x: Inpx, world: Sources) {
    forall i :: 0 <= i < |x| ==> ReadableSegment(x[i], world)
  }

  /** Size and mtime identify an archive's content: a file whose state matches the stored
    * guard still has the stored manifest. */
  ghost predicate Honest(c: Catalog, world: Sources) {
    forall s :: s in c.segments && c.segments[s].available && c.segments[s].archive.Some? ==> HonestSegment(c, world, s)
  }

  ghost predicate HonestSegment(c: Catalog, world: Sources, s: SegmentName)
    requires s in c.segments && c.segments[s].archive.Some?
  {
    var known := c.segments[s].archive.value;
    (s in world.resolve && world.resolve[s] == known.path && known.path in world.files && world.files[known.path].state == known.state)
      ==> world.files[known.path].manifest == Some(known.manifest)
  }

  /** In either mode the plan carries the archive facts of the world, and it reuses a segment
    * only when the stored rows are what a reparse would store. */
  lemma PlanIsAccurate(c: Catalog, mode: Mode, x: Inpx, i: nat, world: Sources)
    requires Inv(c) && DistinctNames(x) && i < |x| && Readable(x, world) && Honest(c, world)
    ensures var p := PlanSegment(c, mode, x[i], i, world);
      p.Some? && PlanFits(c, x[i], i, WorldFacts(x, world), p.value)
  {
    var seg := x[i];
    assert ReadableSegment(seg, world);
    IndexIsUnique(x, i);
    var facts := WorldFacts(x, world);
    assert seg.name in facts <==> RequiresArchive(seg.records);
    if CanReuse(c, mode, seg) {
      assert SegmentContentMatches(c, seg.name);
      if c.segments[seg.name].archive.Some? { assert HonestSegment(c, world, seg.name); }
    }
  }

  // ---------------------------------------------------------------- both modes, one catalog

  /** A planning pass over the whole snapshot in a given mode, plus the removals. */
  ghost predicate PlannedIn(c: Catalog, mode: Mode, x: Inpx, world: Sources, plans: seq<Plan>) {
    && |x| <= |plans|
    && (forall i :: 0 <= i < |x| ==> PlanSegment(c, mode, x[i], i, world) == Some(plans[i]))
    && (forall i :: |x| <= i < |plans| ==> RemovalFits(c, plans[i]) && plans[i].name !in Names(x))
    && (forall i, j :: |x| <= i < j < |plans| ==> plans[i].name != plans[j].name)
    && (forall s :: s in c.segments && s !in Names(x) ==> exists i :: |x| <= i < |plans| && plans[i].name == s)
  }

  lemma PlannedFits(c: Catalog, mode: Mode, x: Inpx, world: Sources, plans: seq<Plan>)
    requires Inv(c) && DistinctNames(x) && Readable(x, world) && Honest(c, world)
    requires PlannedIn(c, mode, x, world, plans)
    ensures PlansFit(c, x, WorldFacts(x, world), plans)
  {
    forall i | 0 <= i < |x| ensures PlanFits(c, x[i], i, WorldFacts(x, world), plans[i]) {
      PlanIsAccurate(c, mode, x, i, world);
    }
  }

  /** An incremental rescan and a full initial scan of one snapshot, from one prior catalog,
    * commit the same segments, deletions and books, in any drain orders. */
  lemma RescanRefinesInitialScan(w: Work, x: Inpx, world: Sources,
                                 rescan: seq<Plan>, rescanTasks: seq<Task>, rescanId: ScanId,
                                 initial: seq<Plan>, initialTasks: seq<Task>, initialId: ScanId)
    requires Inv(w.cat) && Unambiguous(x) && Readable(x, world) && Honest(w.cat, world)
    requires FactsFit(x, WorldFacts(x, world))
    requires PlannedIn(w.cat, Rescan, x, world, rescan) && TasksFit(rescan, rescanTasks) && FreshId(w, rescanId)
    requires PlannedIn(w.cat, InitialScan, x, world, initial) && TasksFit(initial, initialTasks)
      && FreshId(w, initialId)
    ensures Incremental(w, rescan, rescanTasks, rescanId).cat == Incremental(w, initial, initialTasks, initialId).cat
  {
    var facts := WorldFacts(x, world);
    PlannedFits(w.cat, Rescan, x, world, rescan);
    PlannedFits(w.cat, InitialScan, x, world, initial);
    IncrementalIsRebuilt(w, x, facts, rescan, rescanTasks, rescanId);
    IncrementalIsRebuilt(w, x, facts, initial, initialTasks, initialId);
  }

  // ---------------------------------------------------------------- the duplicate check

  /** The LibIds ReadActiveInpxIdsForSegments collects for the reused segments. */
  ghost function ReusedIds(c: Catalog, plans: seq<Plan>): set<LibId> {
    set l | l in c.books && c.books[l].present && exists i :: 0 <= i < |plans| && plans[i].change.Unchanged? && plans[i].name == c.books[l].segment
  }

  ghost predicate ActiveAt(plans: seq<Plan>, i: int, j: int) {
    0 <= i < |plans| && Reparsed(plans[i]) && 0 <= j < |plans[i].parsed| && IsActive(plans[i].parsed[j])
  }

  /** Records (i, j) and (i', j') of the reparsed segments are one record, or differ in LibId. */
  ghost predicate Apart(plans: seq<Plan>, i: int, j: int, i': int, j': int)
    requires ActiveAt(plans, i, j) && ActiveAt(plans, i', j')
  {
    plans[i].parsed[j].libId == plans[i'].parsed[j'].libId ==> i == i' && j == j'
  }

  /** What lets every active record of the reparsed segments past InsertActiveLibId. */
  ghost predicate PassesDuplicateCheck(c: Catalog, plans: seq<Plan>) {
    && (forall i, j, i', j' :: ActiveAt(plans, i, j) && ActiveAt(plans, i', j') ==> Apart(plans, i, j, i', j'))
    && (forall i, j :: ActiveAt(plans, i, j) ==> plans[i].parsed[j].libId !in ReusedIds(c, plans))
  }

  lemma ReusedListed(c: Catalog, x: Inpx, facts: ArchiveFacts, plans: seq<Plan>, i: nat, j: nat)
    requires Inv(c) && PlansFit(c, x, facts, plans)
    requires i < |x| && plans[i].change.Unchanged? && j < |x[i].records| && IsActive(x[i].records[j])
    ensures ActiveRecordStored(c, x[i].name, x[i].records[j])
    ensures x[i].records[j].libId in ReusedIds(c, plans)
  {
    assert PlanFits(c, x[i], i, facts, plans[i]);
    assert SegmentContentMatches(c, x[i].name);
  }

  lemma ReusedIsListed(c: Catalog, x: Inpx, facts: ArchiveFacts, plans: seq<Plan>, l: LibId) returns (i: nat, j: nat)
    requires Inv(c) && PlansFit(c, x, facts, plans) && l in ReusedIds(c, plans)
    ensures Lists(x, i, j, l) && plans[i].change.Unchanged?
  {
    i :| 0 <= i < |plans| && plans[i].change.Unchanged? && plans[i].name == c.books[l].segment;
    PlanIndex(c, x, facts, plans, i);
    assert PlanFits(c, x[i], i, facts, plans[i]);
    assert SegmentContentMatches(c, x[i].name);
    j :| 0 <= j < |x[i].records| && IsActive(x[i].records[j]) && x[i].records[j].libId == l;
  }

  /** Two listings of one LibId: the check or the invariant forces them to coincide. */
  lemma ListingsCoincide(c: Catalog, x: Inpx, facts: ArchiveFacts, plans: seq<Plan>, i: nat, j: nat, i': nat, j': nat,
                         l: LibId)
    requires Inv(c) && PlansFit(c, x, facts, plans) && DistinctNames(x) && PassesDuplicateCheck(c, plans)
    requires Lists(x, i, j, l) && Lists(x, i', j', l)
    ensures i == i' && j == j'
  {
    assert PlanFits(c, x[i], i, facts, plans[i]) && PlanFits(c, x[i'], i', facts, plans[i']);
    if plans[i].change.Unchanged? {
      ReusedListed(c, x, facts, plans, i, j);
      if plans[i'].change.Unchanged? {
        ReusedListed(c, x, facts, plans, i', j');
        assert SegmentContentMatches(c, x[i].name);
      } else {
        assert ActiveAt(plans, i', j');
      }
    } else {
      assert ActiveAt(plans, i, j);
      if plans[i'].change.Unchanged? { ReusedListed(c, x, facts, plans, i', j'); }
      else { assert ActiveAt(plans, i', j') && Apart(plans, i, j, i', j'); }
    }
  }

  /** Checking only the reparsed records, against each other and against the stored ids of the
    * reused segments, rejects exactly the ambiguous snapshots. */
  lemma DuplicateCheckIsExact(c: Catalog, x: Inpx, facts: ArchiveFacts, plans: seq<Plan>)
    requires Inv(c) && PlansFit(c, x, facts, plans) && DistinctNames(x)
    ensures PassesDuplicateCheck(c, plans) <==> Unambiguous(x)
  {
    if PassesDuplicateCheck(c, plans) {
      forall i, j, i', j', l | Lists(x, i, j, l) && Lists(x, i', j', l) ensures i == i' && j == j' {
        ListingsCoincide(c, x, facts, plans, i, j, i', j', l);
      }
    }
    if Unambiguous(x) {
      forall i, j | ActiveAt(plans, i, j)
        ensures Lists(x, i, j, plans[i].parsed[j].libId)
        ensures plans[i].parsed[j].libId !in ReusedIds(c, plans)
      {
        PlanIndex(c, x, facts, plans, i);
        assert PlanFits(c, x[i], i, facts, plans[i]);
        var l := plans[i].parsed[j].libId;
        assert Lists(x, i, j, l);
        if l in ReusedIds(c, plans) {
          var i', j' := ReusedIsListed(c, x, facts, plans, l);
          assert false;
        }
      }
      forall i, j, i', j' | ActiveAt(plans, i, j) && ActiveAt(plans, i', j') ensures Apart(plans, i, j, i', j') {
        assert Lists(x, i, j, plans[i].parsed[j].libId) && Lists(x, i', j', plans[i'].parsed[j'].libId);
      }
    }
  }
}
