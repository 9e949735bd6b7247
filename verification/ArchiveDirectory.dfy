/** The archive directory as the scan sees it: files that other processes may change, and the
  * history of what was there whenever the scan looked. */
module ArchiveDirectory {
  import opened Wrappers
  import opened CatalogModel
  import opened ScanPlanning

  datatype ArchiveFile = ArchiveFile(state: FileState, manifest: Manifest)

  type ArchiveFiles = map<ArchivePath, ArchiveFile>

  /** What the scan looked for: facts to plan with, an archive to read payloads from, one payload,
    * or the confirmation of an earlier observation. */
  datatype Purpose = Planning | Opening | Extracting | Validating

  datatype Moment = Moment(files: ArchiveFiles, purpose: Purpose)

  type History = seq<Moment>

  /** Only moments of the given purposes were added. */
  ghost predicate Grew(before: History, after: History, purposes: set<Purpose>) {
    before <= after && forall k :: |before| <= k < |after| ==> after[k].purpose in purposes
  }

  lemma GrewTwice(a: History, b: History, c: History, purposes: set<Purpose>)
    requires Grew(a, b, purposes) && Grew(b, c, purposes)
    ensures Grew(a, c, purposes)
  {
  }

  /** How many payloads were read. */
  ghost function Extractions(history: History): nat {
    if history == [] then 0
    else Extractions(history[..|history| - 1]) + if history[|history| - 1].purpose == Extracting then 1 else 0
  }

  lemma ExtractedNext(history: History, m: Moment)
    ensures Extractions(history + [m]) == Extractions(history) + if m.purpose == Extracting then 1 else 0
  {
    assert (history + [m])[..|history|] == history;
  }

  /** Looking for other purposes reads no payload. */
  lemma {:induction false} NothingExtracted(before: History, after: History, purposes: set<Purpose>)
    requires Grew(before, after, purposes) && Extracting !in purposes
    ensures Extractions(after) == Extractions(before)
    decreases |after|
  {
    if |before| < |after| {
      NothingExtracted(before, after[..|after| - 1], purposes);
    } else {
      assert after == before;
    }
  }

  /** The directory.  Anything may happen to it between two looks, and any look may fail; `faults`
    * counts how often something did. */
  class ArchiveWorld {
    var files: ArchiveFiles
    ghost var history: History
    ghost var faults: nat
    /** How often a look failed or a cancellation was noticed. */
    ghost var refusals: nat

    /** The environment's choice to refuse. */
    method Strike() returns (struck: bool)
      modifies this`faults, this`refusals
      ensures faults == old(faults) + (if struck then 1 else 0) && refusals == old(refusals) + if struck then 1 else 0
    {
      struck := *;
      if struck { faults, refusals := faults + 1, refusals + 1; }
    }

    /** The environment's move, and the moment that follows. */
    method Look(purpose: Purpose)
      modifies this`files, this`history, this`faults
      ensures history == old(history) + [Moment(files, purpose)] && faults >= old(faults)
      ensures faults == old(faults) ==> files == old(files)
    {
      var changed: bool := *;
      if changed {
        files := *;
        faults := faults + 1;
      }
      history := history + [Moment(files, purpose)];
    }

    /** A look at one file. */
    method Read(path: ArchivePath, purpose: Purpose) returns (file: Option<ArchiveFile>)
      modifies this
      ensures history == old(history) + [Moment(files, purpose)] && faults >= old(faults)
      ensures file.Some? ==> refusals == old(refusals)
      ensures file.Some? ==> path in files && files[path] == file.value
      ensures faults == old(faults) ==> files == old(files) && (path in files ==> file.Some?)
    {
      Look(purpose);
      var failed := Strike();
      return if failed || path !in files then None else Some(files[path]);
    }
  }

  // ---------------------------------------------------------------- observations

  /** `path` held a file of that state at some moment from `from` on. */
  ghost predicate SeenSince(history: History, from: nat, path: ArchivePath, state: FileState) {
    exists k :: from <= k < |history| && path in history[k].files && history[k].files[path].state == state
  }

  ghost predicate ManifestSeenSince(history: History, from: nat, path: ArchivePath, manifest: Manifest) {
    exists k :: from <= k < |history| && path in history[k].files && history[k].files[path].manifest == manifest
  }

  lemma SeenNow(history: History, from: nat, m: Moment, path: ArchivePath)
    requires from <= |history| && path in m.files
    ensures SeenSince(history + [m], from, path, m.files[path].state)
    ensures ManifestSeenSince(history + [m], from, path, m.files[path].manifest)
  {
    assert (history + [m])[|history|] == m;
  }

  lemma SeenStill(h: History, more: History, from: nat, path: ArchivePath)
    requires h <= more
    ensures forall state :: SeenSince(h, from, path, state) ==> SeenSince(more, from, path, state)
    ensures forall manifest ::
      ManifestSeenSince(h, from, path, manifest) ==> ManifestSeenSince(more, from, path, manifest)
  {
    assert forall k :: 0 <= k < |h| ==> more[k] == h[k];
  }

  /** What planning could learn if it looked at everything at once. */
  function SourcesOf(resolve: map<SegmentName, ArchivePath>, files: ArchiveFiles): Sources {
    Sources(resolve, map p | p in files :: Observed(files[p].state, Some(files[p].manifest)))
  }
}
