/** Archive guards: what a scan observes of each archive while other processes may change it,
  * and the re-check that stands between those observations and the commit. */
module ArchiveGuards {
  import opened Wrappers
  import opened CatalogModel
  import opened IncrementalScan
  import opened ScanPlanning
  import opened ArchiveDirectory

  datatype Phase = FileStateRead | ManifestRead | PayloadsValidated

  /** The state comes first, the validation of the payloads last. */
  predicate Forward(p: Phase, q: Phase) { p == q || p == FileStateRead || q == PayloadsValidated }

  datatype Guard = Guard(state: FileState, manifest: Option<Manifest>, phase: Phase)

  type Guards = map<ArchivePath, Guard>

  ghost predicate GuardsValid(guards: Guards) {
    forall p :: p in guards ==> (guards[p].manifest.Some? <==> !guards[p].phase.FileStateRead?)
  }

  /** Guards are only added and only move forward; what they recorded stays recorded. */
  ghost predicate Advances(before: Guards, after: Guards) {
    forall p :: p in before ==>
      && p in after
      && after[p].state == before[p].state
      && Forward(before[p].phase, after[p].phase)
      && (before[p].manifest.Some? ==> after[p].manifest == before[p].manifest)
  }

  lemma AdvancesTransitive(a: Guards, b: Guards, c: Guards)
    requires Advances(a, b) && Advances(b, c)
    ensures Advances(a, c)
  {
    forall p | p in a
      ensures p in c && c[p].state == a[p].state && Forward(a[p].phase, c[p].phase)
      ensures a[p].manifest.Some? ==> c[p].manifest == a[p].manifest
    {
      assert p in b && p in c;
    }
  }

  /** A segment is kept only if its archive still has the path and the state it had, or if its payloads
    * were read again. */
  ghost predicate Confirmed(guards: Guards, c: Catalog, p: Plan) {
    p.change.Unchanged? && p.archive.Some? ==>
      && p.archive.value.path in guards && p.name in c.segments && c.segments[p.name].archive.Some?
      && var known, guard := c.segments[p.name].archive.value, guards[p.archive.value.path];
         guard.phase == PayloadsValidated || (known.path == p.archive.value.path && known.state == guard.state)
  }

  /** The archive was seen in the guarded state, with the guarded manifest if one was read. */
  ghost predicate StillHolds(history: History, from: nat, guards: Guards, p: ArchivePath)
    requires p in guards
  {
    && SeenSince(history, from, p, guards[p].state)
    && (!guards[p].phase.FileStateRead?
        ==> guards[p].manifest.Some? && ManifestSeenSince(history, from, p, guards[p].manifest.value))
  }

  /** Every guard records what was seen since `from`. */
  ghost predicate Watched(guards: Guards, history: History, from: nat) {
    && GuardsValid(guards) && from <= |history|
    && forall p :: p in guards ==> StillHolds(history, from, guards, p)
  }

  /** The guards record what the files are. */
  ghost predicate GuardsTrue(guards: Guards, files: ArchiveFiles) {
    forall p :: p in guards ==>
      && p in files && files[p].state == guards[p].state
      && (guards[p].manifest.Some? ==> guards[p].manifest.value == files[p].manifest)
  }

  function Observations(guards: Guards): map<ArchivePath, Observed> {
    map p | p in guards :: Observed(guards[p].state, guards[p].manifest)
  }

  /** What planning may rely on: archive-name resolution and the guards taken so far. */
  function View(resolve: map<SegmentName, ArchivePath>, guards: Guards): Sources {
    Sources(resolve, Observations(guards))
  }

  lemma AdvancesExtends(resolve: map<SegmentName, ArchivePath>, before: Guards, after: Guards)
    requires Advances(before, after)
    ensures Extends(View(resolve, before), View(resolve, after))
  {
  }

  /** Guards that record what the files are only leave out what was not looked at. */
  lemma TrueGuardsExtend(resolve: map<SegmentName, ArchivePath>, guards: Guards, files: ArchiveFiles)
    requires GuardsTrue(guards, files)
    ensures Extends(View(resolve, guards), SourcesOf(resolve, files))
  {
  }

  // ---------------------------------------------------------------- one observation after another

  /** The guards taken, and the directory they were taken from. */
  datatype Watch = Watch(guards: Guards, history: History, files: ArchiveFiles, faults: nat)

  /** Looking for planning facts only: guards move forward, and while nothing interferes the files
    * stay and true guards stay true. */
  ghost predicate Proceeds(a: Watch, b: Watch) {
    && Advances(a.guards, b.guards) && Grew(a.history, b.history, {Planning}) && a.faults <= b.faults
    && (a.faults == b.faults ==>
          a.files == b.files && (GuardsTrue(a.guards, a.files) ==> GuardsTrue(b.guards, b.files)))
  }

  lemma ProceedsTwice(a: Watch, b: Watch, c: Watch)
    requires Proceeds(a, b) && Proceeds(b, c)
    ensures Proceeds(a, c)
  {
    AdvancesTransitive(a.guards, b.guards, c.guards);
    GrewTwice(a.history, b.history, c.history, {Planning});
  }

  /** While nothing interferes on the way, everything true stays so. */
  lemma SteadyBetween(a: Watch, b: Watch, c: Watch)
    requires Proceeds(a, b) && Proceeds(b, c) && a.faults == c.faults
    ensures a.faults == b.faults && b.files == a.files == c.files
    ensures GuardsTrue(a.guards, a.files) ==> GuardsTrue(b.guards, b.files) && GuardsTrue(c.guards, c.files)
  {
  }

  /** One look, and what it was noted as. */
  predicate Noted(a: Watch, b: Watch, path: ArchivePath) {
    && b.history == a.history + [Moment(b.files, Planning)] && a.faults <= b.faults
    && (a.faults == b.faults ==> a.files == b.files)
    && (b.guards == a.guards || (path in b.files && b.guards == a.guards[path := GuardFrom(a.guards, path, b.files[path])])
        || (path in a.guards && a.guards[path].manifest.Some? && b.guards == a.guards[path := a.guards[path].(phase := PayloadsValidated)]))
  }

  /** The next guard of an archive: its state first, then its manifest. */
  function GuardFrom(guards: Guards, path: ArchivePath, file: ArchiveFile): Guard {
    if path in guards then guards[path].(manifest := Some(file.manifest), phase := ManifestRead) else Guard(file.state, None, FileStateRead)
  }

  lemma NotedProceeds(a: Watch, b: Watch, path: ArchivePath)
    requires GuardsValid(a.guards) && Noted(a, b, path)
    requires b.guards != a.guards && path in a.guards && !b.guards[path].phase.PayloadsValidated? ==>
      a.guards[path].phase.FileStateRead?
    ensures Proceeds(a, b)
  {
  }

  lemma WatchedStill(guards: Guards, history: History, more: History, from: nat)
    requires Watched(guards, history, from) && history <= more
    ensures Watched(guards, more, from)
  {
    forall p | p in guards ensures StillHolds(more, from, guards, p) {
      assert StillHolds(history, from, guards, p);
      SeenStill(history, more, from, p);
    }
  }

  lemma StateTaken(guards: Guards, history: History, from: nat, m: Moment, path: ArchivePath)
    requires Watched(guards, history, from) && path in m.files && path !in guards
    ensures Watched(guards[path := Guard(m.files[path].state, None, FileStateRead)], history + [m], from)
  {
    WatchedStill(guards, history, history + [m], from);
    SeenNow(history, from, m, path);
  }

  lemma ManifestTaken(guards: Guards, history: History, from: nat, m: Moment, path: ArchivePath, phase: Phase)
    requires Watched(guards, history, from) && path in m.files && path in guards && !phase.FileStateRead?
    ensures Watched(guards[path := guards[path].(manifest := Some(m.files[path].manifest), phase := phase)],
                    history + [m], from)
  {
    WatchedStill(guards, history, history + [m], from);
    SeenNow(history, from, m, path);
    assert StillHolds(history + [m], from, guards, path);
  }

  // ---------------------------------------------------------------- the guards of a scan

  class ScanGuards {
    const world: ArchiveWorld
    const resolve: map<SegmentName, ArchivePath>
    var guards: Guards
    /** The length of the history when the scan began. */
    ghost const start: nat

    ghost function Now(): Watch
      reads this`guards, world
    {
      Watch(guards, world.history, world.files, world.faults)
    }

    ghost predicate Watching()
      reads this`guards, world`history
    {
      Watched(guards, world.history, start)
    }

    constructor (world: ArchiveWorld, resolve: map<SegmentName, ArchivePath>)
      ensures this.world == world && this.resolve == resolve && guards == map[] && Watching()
      ensures start == |world.history| && fresh(this)
    {
      this.world, this.resolve, guards := world, resolve, map[];
      start := |world.history|;
    }

    method ReadArchiveState(name: SegmentName) returns (ok: bool)
      requires Watching()
      modifies this`guards, world
      ensures ok ==> world.refusals == old(world.refusals)
      ensures Watching() && Proceeds(old(Now()), Now())
      ensures ok ==> name in resolve && resolve[name] in guards
      ensures ok && resolve[name] !in old(guards) ==>
        SeenSince(world.history, |old(world.history)|, resolve[name], guards[resolve[name]].state)
      ensures world.faults == old(world.faults) && name in resolve && resolve[name] in world.files ==> ok
    {
      if name !in resolve { return false; }
      var path := resolve[name];
      if path in guards { return true; }
      ghost var before := Now();
      var file := world.Read(path, Planning);
      WatchedStill(guards, old(world.history), world.history, start);
      NotedProceeds(before, Now(), path);
      if file.None? { return false; }
      StateTaken(guards, old(world.history), start, Moment(world.files, Planning), path);
      guards := guards[path := Guard(file.value.state, None, FileStateRead)];
      NotedProceeds(before, Now(), path);
      SeenNow(old(world.history), |old(world.history)|, Moment(world.files, Planning), path);
      return true;
    }

    method ReadArchiveManifest(path: ArchivePath) returns (ok: bool)
      requires Watching() && path in guards
      modifies this`guards, world
      ensures ok ==> world.refusals == old(world.refusals)
      ensures Watching() && Proceeds(old(Now()), Now())
      ensures ok ==> guards[path].manifest.Some?
      ensures ok && old(guards)[path].phase.FileStateRead? ==>
        ManifestSeenSince(world.history, |old(world.history)|, path, guards[path].manifest.value)
      ensures world.faults == old(world.faults) && path in world.files ==> ok
    {
      var guard := guards[path];
      if !guard.phase.FileStateRead? { return true; }
      ghost var before := Now();
      var file := world.Read(path, Planning);
      WatchedStill(guards, old(world.history), world.history, start);
      NotedProceeds(before, Now(), path);
      if file.None? { return false; }
      ManifestTaken(guards, old(world.history), start, Moment(world.files, Planning), path, ManifestRead);
      guards := guards[path := guard.(manifest := Some(file.value.manifest), phase := ManifestRead)];
      NotedProceeds(before, Now(), path);
      SeenNow(old(world.history), |old(world.history)|, Moment(world.files, Planning), path);
      return true;
    }

    method ValidatePayloads(path: ArchivePath) returns (ok: bool)
      requires Watching() && path in guards
      modifies this`guards, world
      ensures ok ==> world.refusals == old(world.refusals)
      ensures Watching() && Proceeds(old(Now()), Now())
      ensures ok ==> guards[path].phase.PayloadsValidated?
      ensures ok && !old(guards)[path].phase.PayloadsValidated? ==>
        && old(guards)[path].phase.ManifestRead?
        && ManifestSeenSince(world.history, |old(world.history)|, path, guards[path].manifest.value)
      ensures world.faults == old(world.faults) && GuardsTrue(old(guards), old(world.files)) && old(guards)[path].manifest.Some? ==> ok
    {
      var guard := guards[path];
      if guard.phase.PayloadsValidated? { return true; }
      if !guard.phase.ManifestRead? { return false; }
      ghost var before := Now();
      var file := world.Read(path, Planning);
      WatchedStill(guards, old(world.history), world.history, start);
      NotedProceeds(before, Now(), path);
      if file.None? || file.value.manifest != guard.manifest.value { return false; }
      ManifestTaken(guards, old(world.history), start, Moment(world.files, Planning), path, PayloadsValidated);
      guards := guards[path := guard.(phase := PayloadsValidated)];
      NotedProceeds(before, Now(), path);
      SeenNow(old(world.history), |old(world.history)|, Moment(world.files, Planning), path);
      return true;
    }

    /** The state of a segment's archive and, if it is not `known`, its manifest. */
    method ReadArchiveFacts(name: SegmentName, known: Option<ArchiveInfo>) returns (ok: bool)
      requires Watching()
      modifies this`guards, world
      ensures ok ==> world.refusals == old(world.refusals)
      ensures Watching() && Proceeds(old(Now()), Now())
      ensures ok ==> Looked(name, known)
      ensures world.faults == old(world.faults) && Resolved(name, old(world.files)) ==> ok
    {
      ok := ReadArchiveState(name);
      if !ok { return; }
      var path := resolve[name];
      if known.Some? && known.value.path == path && known.value.state == guards[path].state { return true; }
      ghost var first := Now();
      ok := ReadArchiveManifest(path);
      ProceedsTwice(old(Now()), first, Now());
    }

    /** The guard of a segment's archive is there, with a manifest unless its state is the known one. */
    ghost predicate Looked(name: SegmentName, known: Option<ArchiveInfo>)
      reads this`guards
    {
      && name in resolve && resolve[name] in guards
      && (guards[resolve[name]].manifest.Some?
          || (known.Some? && known.value.path == resolve[name] && known.value.state == guards[resolve[name]].state))
    }

    /** A segment that can be reused if its archive has not changed. */
    method PlanReusable(c: Catalog, mode: Mode, seg: Segment, order: nat) returns (p: Option<Plan>)
      requires Watching() && CanReuse(c, mode, seg) && c.segments[seg.name].archive.Some?
      modifies this`guards, world
      ensures p.Some? ==> world.refusals == old(world.refusals)
      ensures Watching() && Proceeds(old(Now()), Now())
      ensures p.Some? ==> p == ScanPlanning.PlanSegment(c, mode, seg, order, View(resolve, guards))
      ensures p.Some? ==> Confirmed(guards, c, p.value)
      ensures world.faults == old(world.faults) && GuardsTrue(old(guards), old(world.files)) && Resolved(seg.name, old(world.files)) ==> p.Some?
    {
      var row := c.segments[seg.name];
      var known := row.archive.value;
      var ok := ReadArchiveFacts(seg.name, row.archive);
      if !ok { return None; }
      var path := resolve[seg.name];
      var state := guards[path].state;
      if known.path == path && known.state == state {
        return Some(Reuse(seg, order, row, Some(ArchiveInfo(path, state, known.manifest))));
      }
      var info := ArchiveInfo(path, state, guards[path].manifest.value);
      if known.manifest != info.manifest { return Some(Parse(Changed, seg, order, Some(info))); }
      ghost var first := Now();
      ok := ValidatePayloads(path);
      ProceedsTwice(old(Now()), first, Now());
      if !ok {
        if world.faults == old(world.faults) { SteadyBetween(old(Now()), first, Now()); }
        return None;
      }
      return Some(Reuse(seg, order, row, Some(info)));
    }

    /** A segment that has to be parsed. */
    method PlanParsed(c: Catalog, mode: Mode, seg: Segment, order: nat) returns (p: Option<Plan>)
      requires Watching() && !CanReuse(c, mode, seg)
      modifies this`guards, world
      ensures p.Some? ==> world.refusals == old(world.refusals)
      ensures Watching() && Proceeds(old(Now()), Now())
      ensures p.Some? ==> p == ScanPlanning.PlanSegment(c, mode, seg, order, View(resolve, guards))
      ensures p.Some? ==> Confirmed(guards, c, p.value)
      ensures world.faults == old(world.faults) && (NeedsArchive(seg.records) ==> Resolved(seg.name, old(world.files))) ==> p.Some?
    {
      var change := if seg.name in c.segments then Changed else Added;
      if !NeedsArchive(seg.records) { return Some(Parse(change, seg, order, None)); }
      var ok := ReadArchiveFacts(seg.name, None);
      if !ok { return None; }
      var path := resolve[seg.name];
      return Some(Parse(change, seg, order, Some(ArchiveInfo(path, guards[path].state, guards[path].manifest.value))));
    }

    /** The segment's archive can be found. */
    predicate Resolved(name: SegmentName, files: ArchiveFiles) { name in resolve && resolve[name] in files }

    predicate Findable(c: Catalog, mode: Mode, seg: Segment, files: ArchiveFiles) {
      ArchiveWanted(c, mode, seg) ==> Resolved(seg.name, files)
    }

    method PlanSegment(c: Catalog, mode: Mode, seg: Segment, order: nat) returns (p: Option<Plan>)
      requires Watching()
      modifies this`guards, world
      ensures p.Some? ==> world.refusals == old(world.refusals)
      ensures Watching() && Proceeds(old(Now()), Now())
      ensures p.Some? ==> p == ScanPlanning.PlanSegment(c, mode, seg, order, View(resolve, guards))
      ensures p.Some? ==> Confirmed(guards, c, p.value)
      ensures world.faults == old(world.faults) && GuardsTrue(old(guards), old(world.files)) && Findable(c, mode, seg, old(world.files)) ==> p.Some?
    {
      if CanReuse(c, mode, seg) {
        if c.segments[seg.name].archive.None? { return Some(Reuse(seg, order, c.segments[seg.name], None)); }
        p := PlanReusable(c, mode, seg, order);
      } else {
        p := PlanParsed(c, mode, seg, order);
      }
    }

    /** The cached facts of every archive-backed segment match the guards. */
    method CheckPlans(plans: seq<Plan>) returns (ok: bool)
      modifies world`faults, world`refusals
      ensures ok ==> world.refusals == old(world.refusals)
      ensures world.faults >= old(world.faults)
      ensures ok ==> AllGuarded(guards, plans)
      ensures world.faults == old(world.faults) && AllGuarded(guards, plans) ==> ok
    {
      var expected: map<ArchivePath, Manifest> := map[];
      for i := 0 to |plans|
        invariant world.faults >= old(world.faults) && world.refusals == old(world.refusals)
        invariant forall k :: 0 <= k < i ==> Guarded(guards, plans[k]) && Recorded(guards, expected, plans[k])
        invariant forall q :: q in expected ==> ExpectedFrom(plans, i, q, expected[q])
      {
        var cancelled := world.Strike();
        if cancelled { return false; }
        var p := plans[i];
        if p.change.Removed? || p.archive.None? { continue; }
        var info := p.archive.value;
        if info.path !in guards { return false; }
        var guard := guards[info.path];
        if info.state != guard.state { return false; }
        if !guard.phase.FileStateRead? {
          if guard.manifest != Some(info.manifest) { return false; }
        } else if info.path !in expected {
          expected := expected[info.path := info.manifest];
        } else if expected[info.path] != info.manifest {
          return false;
        }
      }
      return true;
    }

    /** Reads one guarded archive again. */
    method CheckArchive(p: ArchivePath) returns (ok: bool)
      requires GuardsValid(guards) && p in guards
      modifies world
      ensures ok ==> world.refusals == old(world.refusals)
      ensures Grew(old(world.history), world.history, {Validating}) && world.faults >= old(world.faults)
      ensures ok ==> StillHolds(world.history, |old(world.history)|, guards, p)
      ensures world.faults == old(world.faults) ==>
        world.files == old(world.files) && (GuardsTrue(guards, world.files) ==> ok)
    {
      var file := world.Read(p, Validating);
      if file.None? || file.value.state != guards[p].state { return false; }
      SeenNow(old(world.history), |old(world.history)|, Moment(world.files, Validating), p);
      if guards[p].phase.FileStateRead? { return true; }
      ghost var h := world.history;
      var again := world.Read(p, Validating);
      if again.None? || Some(again.value.manifest) != guards[p].manifest { return false; }
      SeenStill(h, world.history, |old(world.history)|, p);
      SeenNow(h, |old(world.history)|, Moment(world.files, Validating), p);
      return true;
    }

    /** Reads every guarded archive again; each must still be as the guard recorded it. */
    method CheckArchives() returns (ok: bool)
      requires GuardsValid(guards)
      modifies world
      ensures ok ==> world.refusals == old(world.refusals)
      ensures Grew(old(world.history), world.history, {Validating}) && world.faults >= old(world.faults)
      ensures ok ==> Watched(guards, world.history, |old(world.history)|)
      ensures world.faults == old(world.faults) && GuardsTrue(guards, old(world.files)) ==> ok
    {
      var todo := guards.Keys;
      ghost var from := |world.history|;
      while todo != {}
        invariant todo <= guards.Keys
        invariant Grew(old(world.history), world.history, {Validating}) && world.faults >= old(world.faults)
        invariant world.faults == old(world.faults) ==> world.files == old(world.files)
        invariant world.refusals == old(world.refusals)
        invariant forall p :: p in guards && p !in todo ==> StillHolds(world.history, from, guards, p)
        decreases todo
      {
        var cancelled := world.Strike();
        if cancelled { return false; }
        var p :| p in todo;
        ghost var h := world.history;
        ok := CheckArchive(p);
        GrewTwice(old(world.history), h, world.history, {Validating});
        if !ok { return; }
        CheckedAlso(guards, h, world.history, from, p, todo);
        todo := todo - {p};
      }
      return true;
    }

    /** The final validation before the commit. */
    method Validate(plans: seq<Plan>) returns (ok: bool)
      requires GuardsValid(guards)
      modifies world
      ensures ok ==> world.refusals == old(world.refusals)
      ensures Grew(old(world.history), world.history, {Validating}) && world.faults >= old(world.faults)
      ensures ok ==> AllGuarded(guards, plans)
      ensures ok ==> Watched(guards, world.history, |old(world.history)|)
      ensures world.faults == old(world.faults) && GuardsTrue(guards, old(world.files)) && AllGuarded(guards, plans) ==>
        ok
    {
      ok := CheckPlans(plans);
      if ok { ok := CheckArchives(); }
    }
  }

  /** Planning the segment looks at its archive. */
  predicate ArchiveWanted(c: Catalog, mode: Mode, seg: Segment) {
    if CanReuse(c, mode, seg) then c.segments[seg.name].archive.Some? else NeedsArchive(seg.records)
  }

  predicate Backed(p: Plan) { !p.change.Removed? && p.archive.Some? }

  /** An archive-backed segment has a guard that agrees with the facts stored for it. */
  ghost predicate Guarded(guards: Guards, p: Plan) {
    Backed(p) ==>
      && p.archive.value.path in guards
      && guards[p.archive.value.path].state == p.archive.value.state
      && (!guards[p.archive.value.path].phase.FileStateRead? ==> guards[p.archive.value.path].manifest == Some(p.archive.value.manifest))
  }

  ghost predicate Recorded(guards: Guards, expected: map<ArchivePath, Manifest>, p: Plan) {
    Backed(p) && p.archive.value.path in guards && guards[p.archive.value.path].phase.FileStateRead? ==>
      p.archive.value.path in expected && expected[p.archive.value.path] == p.archive.value.manifest
  }

  ghost predicate ExpectedFrom(plans: seq<Plan>, n: nat, path: ArchivePath, manifest: Manifest)
    requires n <= |plans|
  {
    exists k :: 0 <= k < n && Backed(plans[k]) && plans[k].archive.value.path == path && plans[k].archive.value.manifest == manifest
  }

  /** Segments sharing an archive agree on one manifest. */
  ghost predicate ShareManifests(plans: seq<Plan>) {
    forall i, k :: 0 <= i < |plans| && 0 <= k < |plans| && Backed(plans[i]) && Backed(plans[k])
      ==> (plans[i].archive.value.path == plans[k].archive.value.path ==> plans[i].archive.value.manifest == plans[k].archive.value.manifest)
  }

  /** Every archive-backed segment agrees with its guard, and segments of one archive agree. */
  ghost predicate AllGuarded(guards: Guards, plans: seq<Plan>) {
    (forall i :: 0 <= i < |plans| ==> Guarded(guards, plans[i])) && ShareManifests(plans)
  }

  lemma CheckedAlso(guards: Guards, h: History, more: History, from: nat, p: ArchivePath, todo: set<ArchivePath>)
    requires p in guards && from <= |h| && h <= more && StillHolds(more, |h|, guards, p)
    requires forall q :: q in guards && q !in todo ==> StillHolds(h, from, guards, q)
    ensures forall q :: q in guards && q !in todo - {p} ==> StillHolds(more, from, guards, q)
  {
    forall q | q in guards && q !in todo - {p} ensures StillHolds(more, from, guards, q) {
      if q != p {
        assert StillHolds(h, from, guards, q);
        SeenStill(h, more, from, q);
      }
    }
  }
}
