/** What plans made from observed archives carry, and the conditions under which a snapshot can be
  * scanned at all. */
module ScanConditions {
  import opened Wrappers
  import opened CatalogModel
  import opened IncrementalScan
  import opened IncrementalScanProof
  import opened ScanPlanning
  import opened ScanExecution
  import opened ArchiveDirectory
  import opened ArchiveGuards

  // ---------------------------------------------------------------- the archive facts of plans

  /** The archive facts the plans carry. */
  ghost function PlanFacts(x: Inpx, plans: seq<Plan>): ArchiveFacts
    requires |x| <= |plans|
  {
    map s | s in Names(x) && plans[IndexOf(x, s)].archive.Some? :: plans[IndexOf(x, s)].archive.value
  }

  lemma FactsAt(x: Inpx, plans: seq<Plan>, i: nat)
    requires DistinctNames(x) && i < |x| <= |plans|
    ensures FactsOf(PlanFacts(x, plans), x[i].name) == plans[i].archive
  {
    IndexIsUnique(x, i);
  }

  lemma PlanShape(c: Catalog, mode: Mode, seg: Segment, order: nat, src: Sources, p: Plan)
    requires Inv(c) && PlanSegment(c, mode, seg, order, src) == Some(p)
    ensures p.archive.Some? <==> RequiresArchive(seg.records)
    ensures Reparsed(p) && p.archive.Some? ==>
      var a := p.archive.value; a.path in src.files && src.files[a.path].manifest == Some(a.manifest)
  {
    if CanReuse(c, mode, seg) { assert SegmentContentMatches(c, seg.name); }
  }

  lemma PlanFitsItsFacts(c: Catalog, mode: Mode, seg: Segment, order: nat, src: Sources, p: Plan, facts: ArchiveFacts)
    requires PlanSegment(c, mode, seg, order, src) == Some(p) && FactsOf(facts, seg.name) == p.archive
    ensures PlanFits(c, seg, order, facts, p)
  {
  }

  lemma PlanFromSources(c: Catalog, mode: Mode, x: Inpx, src: Sources, plans: seq<Plan>, i: nat)
    requires Inv(c) && DistinctNames(x) && PlannedIn(c, mode, x, src, plans) && i < |x|
    ensures PlanFits(c, x[i], i, PlanFacts(x, plans), plans[i])
    ensures plans[i].archive.Some? <==> RequiresArchive(x[i].records)
    ensures Reparsed(plans[i]) && plans[i].archive.Some? ==>
      var a := plans[i].archive.value; a.path in src.files && src.files[a.path].manifest == Some(a.manifest)
  {
    FactsAt(x, plans, i);
    assert PlanSegment(c, mode, x[i], i, src) == Some(plans[i]);
    PlanShape(c, mode, x[i], i, src, plans[i]);
    PlanFitsItsFacts(c, mode, x[i], i, src, plans[i], PlanFacts(x, plans));
  }

  lemma PlansFromSources(c: Catalog, mode: Mode, x: Inpx, src: Sources, plans: seq<Plan>)
    requires Inv(c) && DistinctNames(x) && PlannedIn(c, mode, x, src, plans)
    ensures PlansFit(c, x, PlanFacts(x, plans), plans)
    ensures ArchivesAgree(plans)
  {
    forall i | 0 <= i < |x| ensures PlanFits(c, x[i], i, PlanFacts(x, plans), plans[i]) {
      PlanFromSources(c, mode, x, src, plans, i);
    }
    forall i | 0 <= i < |plans| && Reparsed(plans[i])
      ensures i < |x| && plans[i].parsed == x[i].records
      ensures plans[i].archive.Some? <==> RequiresArchive(plans[i].parsed)
      ensures plans[i].archive.Some? ==>
        var a := plans[i].archive.value; a.path in src.files && src.files[a.path].manifest == Some(a.manifest)
    {
      PlanIndex(c, x, PlanFacts(x, plans), plans, i);
      PlanFromSources(c, mode, x, src, plans, i);
    }
  }

  /** A finished execution has found every payload, so the archive facts are complete. */
  lemma FactsComplete(c: Catalog, mode: Mode, x: Inpx, src: Sources, plans: seq<Plan>, tasks: seq<Task>)
    requires Inv(c) && DistinctNames(x) && PlannedIn(c, mode, x, src, plans) && TasksFit(plans, tasks)
    ensures FactsFit(x, PlanFacts(x, plans))
  {
    var facts := PlanFacts(x, plans);
    forall i | 0 <= i < |x| ensures x[i].name in facts <==> RequiresArchive(x[i].records) {
      IndexIsUnique(x, i);
      PlanFromSources(c, mode, x, src, plans, i);
    }
    forall i, j | 0 <= i < |x| && 0 <= j < |x[i].records| && IsActive(x[i].records[j])
      ensures x[i].name in facts && x[i].records[j].entry in facts[x[i].name].manifest
    {
      IndexIsUnique(x, i);
      PlanFromSources(c, mode, x, src, plans, i);
      EntryFound(c, x, plans, tasks, i, j);
    }
  }

  lemma EntryFound(c: Catalog, x: Inpx, plans: seq<Plan>, tasks: seq<Task>, i: nat, j: nat)
    requires Inv(c) && |x| <= |plans| && TasksFit(plans, tasks) && i < |x| && j < |x[i].records|
      && IsActive(x[i].records[j])
    requires PlanFits(c, x[i], i, PlanFacts(x, plans), plans[i])
    ensures plans[i].archive.Some? && x[i].records[j].entry in plans[i].archive.value.manifest
  {
    if Reparsed(plans[i]) {
      var a :| 0 <= a < |tasks| && TaskOf(plans[i], j, tasks[a]);
    } else {
      assert SegmentContentMatches(c, x[i].name);
      assert ActiveRecordStored(c, x[i].name, x[i].records[j]);
    }
  }

  // ---------------------------------------------------------------- planning in a quiet world

  /** Plans made from true guards are the plans one would make from the files. */
  lemma QuietPlans(c: Catalog, mode: Mode, x: Inpx, resolve: map<SegmentName, ArchivePath>, guards: Guards,
                   files: ArchiveFiles, plans: seq<Plan>)
    requires GuardsTrue(guards, files) && PlannedIn(c, mode, x, View(resolve, guards), plans)
    ensures PlannedIn(c, mode, x, SourcesOf(resolve, files), plans)
  {
    TrueGuardsExtend(resolve, guards, files);
    forall i | 0 <= i < |x| ensures PlanSegment(c, mode, x[i], i, SourcesOf(resolve, files)) == Some(plans[i]) {
      PlanIsStable(c, mode, x[i], i, View(resolve, guards), SourcesOf(resolve, files));
    }
  }

  /** Planning finds the archives of a readable snapshot. */
  lemma ReadableIsFindable(c: Catalog, mode: Mode, x: Inpx, g: ScanGuards, files: ArchiveFiles, i: nat)
    requires Inv(c) && Readable(x, SourcesOf(g.resolve, files)) && i < |x|
    ensures g.Findable(c, mode, x[i], files)
  {
    assert ReadableSegment(x[i], SourcesOf(g.resolve, files));
    if CanReuse(c, mode, x[i]) { assert SegmentContentMatches(c, x[i].name); }
  }

  lemma PlannedIsReadable(c: Catalog, mode: Mode, seg: Segment, order: nat, resolve: map<SegmentName, ArchivePath>,
                          files: ArchiveFiles)
    requires Inv(c) && PlanSegment(c, mode, seg, order, SourcesOf(resolve, files)).Some?
    ensures ReadableSegment(seg, SourcesOf(resolve, files))
  {
    if CanReuse(c, mode, seg) { assert SegmentContentMatches(c, seg.name); }
  }

  // ---------------------------------------------------------------- what can be scanned

  /** Every payload the plan has to read is there, of its declared size, and fits the window. */
  ghost predicate PayloadsAllowed(p: Plan, maxBytes: nat) {
    Reparsed(p) ==> forall j: nat :: j < |p.parsed| && IsActive(p.parsed[j]) ==> PayloadAllowed(p, j, maxBytes)
  }

  /** The snapshot is not empty, names every segment and every active LibId once, its archives can
    * be found, and the payloads that have to be read are allowed. */
  ghost predicate Scannable(c: Catalog, mode: Mode, x: Inpx, src: Sources, maxBytes: nat) {
    && x != [] && Unambiguous(x) && Readable(x, src)
    && forall i: nat :: i < |x| ==> SegmentAllowed(c, mode, x[i], i, src, maxBytes)
  }

  ghost predicate SegmentAllowed(c: Catalog, mode: Mode, seg: Segment, order: nat, src: Sources, maxBytes: nat) {
    PlanSegment(c, mode, seg, order, src).Some? ==> PayloadsAllowed(PlanSegment(c, mode, seg, order, src).value, maxBytes)
  }

  /** Said of the snapshot and the archives alone: it is not empty, no name and no active LibId comes twice,
    * every archive that is needed can be read, and in segments that are not kept every active record has
    * its entry, of the declared size if one is declared, no larger than the limit. */
  lemma ScannableIff(c: Catalog, mode: Mode, x: Inpx, src: Sources, maxBytes: nat)
    requires Inv(c)
    ensures Scannable(c, mode, x, src, maxBytes) <==>
      && x != [] && Unambiguous(x) && Readable(x, src)
      && forall i: nat, j: nat :: i < |x| && j < |x[i].records| && !x[i].records[j].deleted && x[i].records[j].fb2 ==>
           (mode == Rescan && Unaltered(c, x[i], src)) || PayloadFits(x[i].records[j], x[i].name, src, maxBytes)
  {
    if Readable(x, src) {
      forall i: nat | i < |x|
        ensures SegmentAllowed(c, mode, x[i], i, src, maxBytes) <==>
          forall j: nat :: j < |x[i].records| && !x[i].records[j].deleted && x[i].records[j].fb2 ==>
            (mode == Rescan && Unaltered(c, x[i], src)) || PayloadFits(x[i].records[j], x[i].name, src, maxBytes)
      {
        SegmentAllowedIff(c, mode, x, i, src, maxBytes);
      }
    }
  }

  /** The entry is in the segment's archive, of the declared size if one is declared, and not too large. */
  ghost predicate PayloadFits(r: Record, name: SegmentName, src: Sources, maxBytes: nat) {
    && name in src.resolve && src.resolve[name] in src.files && src.files[src.resolve[name]].manifest.Some?
    && var manifest := src.files[src.resolve[name]].manifest.value;
       r.entry in manifest && manifest[r.entry].size <= maxBytes
       && (r.declaredSize != 0 ==> manifest[r.entry].size == r.declaredSize)
  }

  lemma SegmentAllowedIff(c: Catalog, mode: Mode, x: Inpx, i: nat, src: Sources, maxBytes: nat)
    requires Inv(c) && Readable(x, src) && i < |x|
    ensures SegmentAllowed(c, mode, x[i], i, src, maxBytes) <==>
      forall j: nat :: j < |x[i].records| && !x[i].records[j].deleted && x[i].records[j].fb2 ==>
        (mode == Rescan && Unaltered(c, x[i], src)) || PayloadFits(x[i].records[j], x[i].name, src, maxBytes)
  {
    var seg := x[i];
    assert ReadableSegment(seg, src);
    if CanReuse(c, mode, seg) { assert SegmentContentMatches(c, seg.name); }
    PlannedIff(c, mode, seg, i, src);
    assert PlanSegment(c, mode, seg, i, src).Some?;
    ReusedIff(c, mode, seg, i, src);
    var p := PlanSegment(c, mode, seg, i, src).value;
    forall j: nat | Reparsed(p) && j < |seg.records| && IsActive(seg.records[j])
      ensures PayloadAllowed(p, j, maxBytes) <==> PayloadFits(seg.records[j], seg.name, src, maxBytes)
    {
      assert RequiresArchive(seg.records);
    }
  }

  lemma ActiveIsParsed(c: Catalog, x: Inpx, facts: ArchiveFacts, plans: seq<Plan>, d: (nat, nat))
    requires PlansFit(c, x, facts, plans) && ActiveIn(plans, Positions(plans), d)
    ensures d.0 < |x| && Reparsed(plans[d.0]) && d.1 < |plans[d.0].parsed| && IsActive(plans[d.0].parsed[d.1])
  {
    PlanIndex(c, x, facts, plans, d.0);
  }

  /** A scannable snapshot's plans can be executed. */
  lemma ScannableIsRunnable(c: Catalog, mode: Mode, x: Inpx, resolve: map<SegmentName, ArchivePath>,
                            files: ArchiveFiles, plans: seq<Plan>, maxBytes: nat)
    requires var src := SourcesOf(resolve, files);
      Inv(c) && Scannable(c, mode, x, src, maxBytes) && PlannedIn(c, mode, x, src, plans)
    ensures Runnable(plans, ReusedIds(c, plans), files, maxBytes)
  {
    var src := SourcesOf(resolve, files);
    var facts := PlanFacts(x, plans);
    PlansFromSources(c, mode, x, src, plans);
    DuplicateCheckIsExact(c, x, facts, plans);
    forall d: (nat, nat) | ActiveIn(plans, Positions(plans), d)
      ensures RecordRunnable(plans[d.0], d.1, files, maxBytes)
      ensures IdAt(plans, d) !in ReusedIds(c, plans)
    {
      ActiveIsParsed(c, x, facts, plans, d);
      assert SegmentAllowed(c, mode, x[d.0], d.0, src, maxBytes);
      PlanFromSources(c, mode, x, src, plans, d.0);
      assert ActiveAt(plans, d.0, d.1);
    }
    forall d: (nat, nat), e: (nat, nat) | ActiveIn(plans, Positions(plans), d) && ActiveIn(plans, Positions(plans), e) && IdAt(plans, d) == IdAt(plans, e)
      ensures d == e
    {
      ActiveIsParsed(c, x, facts, plans, d);
      ActiveIsParsed(c, x, facts, plans, e);
      assert ActiveAt(plans, d.0, d.1) && ActiveAt(plans, e.0, e.1);
      assert Apart(plans, d.0, d.1, e.0, e.1);
    }
  }

  /** What a finished execution has read was allowed. */
  lemma FinishedIsScannable(c: Catalog, mode: Mode, x: Inpx, resolve: map<SegmentName, ArchivePath>,
                            files: ArchiveFiles, plans: seq<Plan>, tasks: seq<Task>, maxBytes: nat)
    requires var src := SourcesOf(resolve, files);
      Inv(c) && x != [] && Unambiguous(x) && PlannedIn(c, mode, x, src, plans)
    requires TasksFit(plans, tasks) && forall a :: 0 <= a < |tasks| ==> TaskAllowed(tasks[a], maxBytes)
    ensures Scannable(c, mode, x, SourcesOf(resolve, files), maxBytes)
  {
    var src := SourcesOf(resolve, files);
    forall i: nat | i < |x| ensures ReadableSegment(x[i], src) && SegmentAllowed(c, mode, x[i], i, src, maxBytes) {
      assert PlanSegment(c, mode, x[i], i, src) == Some(plans[i]);
      PlannedIsReadable(c, mode, x[i], i, resolve, files);
      forall j: nat | Reparsed(plans[i]) && j < |plans[i].parsed| && IsActive(plans[i].parsed[j])
        ensures PayloadAllowed(plans[i], j, maxBytes)
      {
        var a :| 0 <= a < |tasks| && TaskOf(plans[i], j, tasks[a]);
      }
    }
  }

  // ---------------------------------------------------------------- guards in a quiet world

  lemma PlannedFromGuard(c: Catalog, mode: Mode, seg: Segment, order: nat, resolve: map<SegmentName, ArchivePath>,
                         guards: Guards, p: Plan)
    requires PlanSegment(c, mode, seg, order, View(resolve, guards)) == Some(p) && p.archive.Some?
    ensures p.archive.value.path in guards && p.archive.value.state == guards[p.archive.value.path].state
  {
  }

  /** An accurate plan carries the manifest its archive has. */
  lemma PlannedFromFile(c: Catalog, mode: Mode, x: Inpx, resolve: map<SegmentName, ArchivePath>, files: ArchiveFiles,
                        i: nat, p: Plan)
    requires Inv(c) && DistinctNames(x) && Readable(x, SourcesOf(resolve, files))
      && Honest(c, SourcesOf(resolve, files)) && i < |x|
    requires PlanSegment(c, mode, x[i], i, SourcesOf(resolve, files)) == Some(p) && p.archive.Some?
    ensures ArchiveTrue(p.archive.value, files)
  {
    PlanIsAccurate(c, mode, x, i, SourcesOf(resolve, files));
    IndexIsUnique(x, i);
    assert ReadableSegment(x[i], SourcesOf(resolve, files));
  }

  lemma GuardedByTruth(guards: Guards, files: ArchiveFiles, p: Plan)
    requires GuardsTrue(guards, files) && GuardsValid(guards)
    requires Backed(p) ==> ArchiveTrue(p.archive.value, files) && p.archive.value.path in guards
    requires Backed(p) ==> p.archive.value.state == guards[p.archive.value.path].state
    ensures Guarded(guards, p)
  {
  }

  lemma PlanIsGuarded(c: Catalog, mode: Mode, x: Inpx, resolve: map<SegmentName, ArchivePath>, guards: Guards,
                      files: ArchiveFiles, plans: seq<Plan>, i: nat)
    requires Inv(c) && DistinctNames(x) && Readable(x, SourcesOf(resolve, files))
      && Honest(c, SourcesOf(resolve, files))
    requires GuardsTrue(guards, files) && GuardsValid(guards) && i < |x| <= |plans|
      && PlanSegment(c, mode, x[i], i, View(resolve, guards)) == Some(plans[i])
    ensures Guarded(guards, plans[i]) && (Backed(plans[i]) ==> ArchiveTrue(plans[i].archive.value, files))
  {
    TrueGuardsExtend(resolve, guards, files);
    PlanIsStable(c, mode, x[i], i, View(resolve, guards), SourcesOf(resolve, files));
    if Backed(plans[i]) {
      PlannedFromGuard(c, mode, x[i], i, resolve, guards, plans[i]);
      PlannedFromFile(c, mode, x, resolve, files, i, plans[i]);
    }
    GuardedByTruth(guards, files, plans[i]);
  }

  /** If nothing interfered, honest plans pass the final check of the guards. */
  lemma QuietIsGuarded(c: Catalog, mode: Mode, x: Inpx, resolve: map<SegmentName, ArchivePath>, guards: Guards,
                       files: ArchiveFiles, plans: seq<Plan>)
    requires Inv(c) && DistinctNames(x) && Readable(x, SourcesOf(resolve, files))
      && Honest(c, SourcesOf(resolve, files))
    requires GuardsTrue(guards, files) && GuardsValid(guards) && PlannedIn(c, mode, x, View(resolve, guards), plans)
    ensures AllGuarded(guards, plans)
  {
    forall i | 0 <= i < |plans|
      ensures Guarded(guards, plans[i]) && (Backed(plans[i]) ==> ArchiveTrue(plans[i].archive.value, files))
    {
      if i < |x| {
        PlanIsGuarded(c, mode, x, resolve, guards, files, plans, i);
      } else {
        assert RemovalFits(c, plans[i]);
      }
    }
  }
}
