/** Replacing a file so that its previous content survives whatever step fails. */
module FileReplacement {
  import opened Wrappers
  import opened Bytes

  type Path = Bytes
  type Content = Bytes
  type Files = map<Path, Content>

  /** Paths other than the given ones hold what they held. */
  ghost predicate SameExcept(before: Files, after: Files, paths: set<Path>) {
    forall p :: p !in paths ==> (p in before <==> p in after) && (p in before && p in after ==> before[p] == after[p])
  }

  /** A file system each of whose operations may fail, in which case it has no effect. */
  class FileSystem {
    var files: Files
    /** What the file system held after each change, in order. */
    ghost var trace: seq<Files>
    /** What it held whenever a validation callback returned normally. */
    ghost var accepted: seq<Files>
    /** How many steps failed for a reason of the environment's own. */
    ghost var faults: nat

    method Strike() returns (struck: bool)
      modifies this`faults
      ensures faults == old(faults) + if struck then 1 else 0
    {
      struck := *;
      if struck { faults := faults + 1; }
    }

    /** None when the query itself throws. */
    method Exists(p: Path) returns (r: Option<bool>)
      modifies this`faults
      ensures r.Some? ==> r.value == (p in files)
      ensures faults >= old(faults) && (faults == old(faults) <==> r.Some?)
    {
      var fails := Strike();
      return if fails then None else Some(p in files);
    }

    method Rename(from: Path, to: Path) returns (ok: bool)
      modifies this`files, this`trace, this`faults
      ensures faults >= old(faults) && (faults == old(faults) && from in old(files) <==> ok)
      ensures ok ==>
        from in old(files) && files == (old(files) - {from})[to := old(files)[from]] && trace == old(trace) + [files]
      ensures !ok ==> files == old(files) && trace == old(trace)
    {
      var fails := Strike();
      if fails || from !in files { return false; }
      files := (files - {from})[to := files[from]];
      trace := trace + [files];
      return true;
    }

    /** Removing a path that does not exist is not an error. */
    method Remove(p: Path) returns (ok: bool)
      modifies this`files, this`trace, this`faults
      ensures faults == old(faults) + if ok then 0 else 1
      ensures files == if ok then old(files) - {p} else old(files)
      ensures trace == if ok then old(trace) + [files] else old(trace)
    {
      var fails := Strike();
      ok := !fails;
      if ok {
        files := files - {p};
        trace := trace + [files];
      }
    }

    /** Creates or overwrites a file; a failing write may leave part of the content. */
    method Write(p: Path, content: Content) returns (ok: bool)
      modifies this`files, this`trace, this`faults
      ensures faults >= old(faults) && (faults == old(faults) <==> ok)
      ensures ok ==> files == old(files)[p := content]
      ensures SameExcept(old(files), files, {p}) && trace == old(trace) + [files]
    {
      var fails := Strike();
      ok := !fails;
      var partial: Content := *;
      files := files[p := if ok then content else partial];
      trace := trace + [files];
    }

    method Validate() returns (ok: bool)
      modifies this`accepted, this`faults
      ensures faults >= old(faults) && (faults == old(faults) <==> ok)
      ensures accepted == if ok then old(accepted) + [files] else old(accepted)
    {
      var fails := Strike();
      ok := !fails;
      if ok { accepted := accepted + [files]; }
    }
  }

  // ---------------------------------------------------------------- replacement

  /** How a replacement ends: published; refused and rolled back; or refused with a roll-back that
    * could not be finished. */
  datatype Outcome = Replaced | RolledBack | Unfinished

  /** Whatever was at the destination is still there or at the backup path. */
  ghost predicate OriginalSurvives(before: Files, after: Files, destination: Path, backup: Path) {
    destination in before ==>
      || (destination in after && after[destination] == before[destination])
      || (backup in after && after[backup] == before[destination])
  }

  /** At every moment since `from`. */
  ghost predicate AlwaysSurvives(trace: seq<Files>, from: nat, before: Files, destination: Path, backup: Path) {
    forall k :: from <= k < |trace| ==> OriginalSurvives(before, trace[k], destination, backup)
  }

  /** At every moment since `from` but the last. */
  ghost predicate AlmostAlwaysSurvives(trace: seq<Files>, from: nat, before: Files, destination: Path, backup: Path) {
    forall k :: from <= k < |trace| - 1 ==> OriginalSurvives(before, trace[k], destination, backup)
  }

  /** The file accepted by the last validation is the one at the destination. */
  ghost predicate AcceptedAt(accepted: seq<Files>, destination: Path, content: Content) {
    accepted != [] && var last := accepted[|accepted| - 1]; destination in last && last[destination] == content
  }

  /** There is a backup, and nothing has appeared at the destination since. */
  predicate Restorable(files: Files, backup: Path, destination: Path) { backup in files && destination !in files }

  /** RestoreBackupOrThrow: puts the backup back if there is one to put back and a place for it. */
  method RestoreBackup(fs: FileSystem, backup: Path, destination: Path) returns (ok: bool)
    requires backup != destination
    modifies fs`files, fs`trace, fs`faults
    ensures fs.faults >= old(fs.faults)
    ensures ok && Restorable(old(fs.files), backup, destination)
      ==> fs.files == (old(fs.files) - {backup})[destination := old(fs.files)[backup]] && fs.trace == old(fs.trace) + [fs.files]
    ensures !(ok && Restorable(old(fs.files), backup, destination)) ==>
      fs.files == old(fs.files) && fs.trace == old(fs.trace)
    ensures fs.faults == old(fs.faults) <==> ok
  {
    var backupExists := fs.Exists(backup);
    if backupExists.None? { return false; }
    if !backupExists.value { return true; }
    var destinationExists := fs.Exists(destination);
    if destinationExists.None? { return false; }
    if destinationExists.value { return true; }
    ok := fs.Rename(backup, destination);
  }

  /** RollbackPublishedFileOrThrow: undoes what was done, or leaves the original at the backup. */
  method Rollback(fs: FileSystem, backup: Path, destination: Path, backedUp: bool, published: bool, ghost before: Files)
    returns (ok: bool)
    requires backup != destination
    requires destination in before ==> if backedUp then backup in fs.files && fs.files[backup] == before[destination] else !published && fs.files == before
    requires backedUp ==> destination in before && (!published ==> destination !in fs.files)
    modifies fs`files, fs`trace, fs`faults
    ensures fs.faults >= old(fs.faults)
    ensures fs.faults == old(fs.faults) <==> ok
    ensures ok && backedUp ==> fs.files == (old(fs.files) - {backup, destination})[destination := before[destination]]
    ensures ok && !backedUp ==> fs.files == if published then old(fs.files) - {destination} else old(fs.files)
    ensures SameExcept(old(fs.files), fs.files, {backup, destination})
    ensures OriginalSurvives(before, fs.files, destination, backup)
    ensures old(fs.trace) <= fs.trace && AlwaysSurvives(fs.trace, |old(fs.trace)|, before, destination, backup)
  {
    if published {
      var removed := fs.Remove(destination);
      if !removed { return false; }
    }
    ok := true;
    if backedUp {
      ok := RestoreBackup(fs, backup, destination);
      assert published ==> old(fs.files) - {destination} - {backup} == old(fs.files) - {backup, destination};
      assert !published ==> old(fs.files) - {backup, destination} == old(fs.files) - {backup};
    }
  }

  /** The files once the original is at the backup path and the prepared file at the destination. */
  ghost function Moved(before: Files, prepared: Path, destination: Path, backup: Path): Files
    requires prepared in before
  {
    var saved := if destination in before then (before - {destination})[backup := before[destination]] else before;
    (saved - {prepared})[destination := before[prepared]]
  }

  /** The part of the replacement that the catch clauses guard, and what it did before it threw. */
  method Publish(fs: FileSystem, prepared: Path, destination: Path, backup: Path, destinationExists: bool,
                 validates: bool)
    returns (ok: bool, backedUp: bool, published: bool)
    requires prepared != destination && backup != destination && backup != prepared && backup !in fs.files
    requires destinationExists == (destination in fs.files)
    modifies fs
    ensures fs.faults >= old(fs.faults)
    ensures fs.faults == old(fs.faults) && prepared in old(fs.files) <==> ok && backup !in fs.files
    ensures ok ==> published && (fs.faults == old(fs.faults) || (fs.faults == old(fs.faults) + 1 && backup in fs.files))
    ensures published ==> backedUp == destinationExists && prepared in old(fs.files)
    ensures ok && validates ==> AcceptedAt(fs.accepted, destination, old(fs.files)[prepared])
    ensures backedUp ==> destinationExists
    ensures published && !ok ==> fs.files == Moved(old(fs.files), prepared, destination, backup)
    ensures !published ==> fs.files == if backedUp then (old(fs.files) - {destination})[backup := old(fs.files)[destination]] else old(fs.files)
    ensures ok ==> fs.files == Moved(old(fs.files), prepared, destination, backup)
                   || fs.files == Moved(old(fs.files), prepared, destination, backup) - {backup}
    ensures old(fs.trace) <= fs.trace
      && (!ok ==> AlwaysSurvives(fs.trace, |old(fs.trace)|, old(fs.files), destination, backup))
    ensures ok ==> AlmostAlwaysSurvives(fs.trace, |old(fs.trace)|, old(fs.files), destination, backup)
  {
    backedUp, published, ok := false, false, false;
    if destinationExists {
      backedUp := fs.Rename(destination, backup);
      if !backedUp { return; }
    }
    published := fs.Rename(prepared, destination);
    if !published { return; }
    assert fs.files == Moved(old(fs.files), prepared, destination, backup);
    if validates {
      var valid := fs.Validate();
      if !valid { return; }
    }
    if backedUp { var removed := fs.Remove(backup); }
    ok := true;
  }

  lemma UndoingRestores(before: Files, after: Files, prepared: Path, destination: Path, backup: Path, backedUp: bool,
                        published: bool)
    requires prepared != destination && backup != destination && backup != prepared && backup !in before
    requires published ==> prepared in before && backedUp == (destination in before)
    requires backedUp ==> destination in before
    requires var stopped := if published then Moved(before, prepared, destination, backup)
                            else if backedUp then (before - {destination})[backup := before[destination]] else before;
      after == if backedUp then (stopped - {backup, destination})[destination := before[destination]]
               else if published then stopped - {destination} else stopped
    ensures after == if published then before - {prepared} else before
  {
  }

  lemma SurvivesThroughout(first: seq<Files>, more: seq<Files>, n: nat, before: Files, destination: Path, backup: Path)
    requires first <= more && AlwaysSurvives(first, n, before, destination, backup)
      && AlwaysSurvives(more, |first|, before, destination, backup)
    ensures AlwaysSurvives(more, n, before, destination, backup)
  {
  }

  /** The try block and its catch clauses. */
  method PublishOrRollBack(fs: FileSystem, prepared: Path, destination: Path, backup: Path, destinationExists: bool,
                           validates: bool)
    returns (r: Outcome)
    requires prepared != destination && backup != destination && backup != prepared && backup !in fs.files
    requires destinationExists == (destination in fs.files)
    modifies fs
    ensures fs.faults >= old(fs.faults)
    ensures fs.faults == old(fs.faults) && prepared in old(fs.files) <==> r.Replaced? && backup !in fs.files
    ensures r.Replaced? ==> fs.faults == old(fs.faults) || (fs.faults == old(fs.faults) + 1 && backup in fs.files)
    ensures r.Replaced? ==>
      prepared in old(fs.files) && (validates ==> AcceptedAt(fs.accepted, destination, old(fs.files)[prepared]))
    ensures r.Replaced? ==> fs.files == Moved(old(fs.files), prepared, destination, backup)
                            || fs.files == Moved(old(fs.files), prepared, destination, backup) - {backup}
    ensures r.RolledBack? ==> fs.files == old(fs.files) || fs.files == old(fs.files) - {prepared}
    ensures !r.Replaced? ==> OriginalSurvives(old(fs.files), fs.files, destination, backup)
    ensures !r.Replaced? ==> SameExcept(old(fs.files), fs.files, {prepared, destination, backup})
    ensures old(fs.trace) <= fs.trace
    ensures !r.Replaced? ==> AlwaysSurvives(fs.trace, |old(fs.trace)|, old(fs.files), destination, backup)
    ensures AlmostAlwaysSurvives(fs.trace, |old(fs.trace)|, old(fs.files), destination, backup)
  {
    ghost var before := fs.files;
    ghost var n := |fs.trace|;
    var ok, backedUp, published := Publish(fs, prepared, destination, backup, destinationExists, validates);
    if ok { return Replaced; }
    ghost var first := fs.trace;
    ghost var stopped := fs.files;
    assert SameExcept(before, stopped, {prepared, destination, backup});
    var undone := Rollback(fs, backup, destination, backedUp, published, before);
    SurvivesThroughout(first, fs.trace, n, before, destination, backup);
    if undone { UndoingRestores(before, fs.files, prepared, destination, backup, backedUp, published); }
    return if undone then RolledBack else Unfinished;
  }

  /** ReplaceDestinationWithPreparedFile, for every pattern of failing steps: the call ends with the
    * validated new content at the destination, or with everything as before (the prepared file
    * may be gone), or with the original at the destination or the backup path.  The original
    * is there at every moment, except that removing the backup may be the last change of a call
    * that succeeds, after the validation.  If nothing fails the call succeeds and
    * leaves no backup behind. */
  method ReplaceDestination(fs: FileSystem, prepared: Path, destination: Path, backup: Path, validates: bool)
    returns (r: Outcome)
    requires backup !in fs.files && backup != destination && backup != prepared
    modifies fs
    ensures fs.faults >= old(fs.faults)
    ensures fs.faults == old(fs.faults) && prepared in old(fs.files) ==> r.Replaced? && backup !in fs.files
    ensures r.Replaced? ==> fs.faults == old(fs.faults) || (fs.faults == old(fs.faults) + 1 && backup in fs.files)
    ensures r.Replaced? && prepared in old(fs.files) ==>
      destination in fs.files && fs.files[destination] == old(fs.files)[prepared]
    ensures r.Replaced? && prepared != destination ==> prepared in old(fs.files) && prepared !in fs.files
    ensures r.Replaced? && validates && prepared in old(fs.files) ==>
      AcceptedAt(fs.accepted, destination, old(fs.files)[prepared])
    ensures r.RolledBack? ==>
      fs.files == old(fs.files) || (prepared != destination && fs.files == old(fs.files) - {prepared})
    ensures !r.Replaced? ==> OriginalSurvives(old(fs.files), fs.files, destination, backup)
    ensures old(fs.trace) <= fs.trace
    ensures !r.Replaced? ==> AlwaysSurvives(fs.trace, |old(fs.trace)|, old(fs.files), destination, backup)
    ensures AlmostAlwaysSurvives(fs.trace, |old(fs.trace)|, old(fs.files), destination, backup)
    ensures SameExcept(old(fs.files), fs.files, {prepared, destination, backup})
  {
    if prepared == destination {
      if validates {
        var valid := fs.Validate();
        if !valid { return RolledBack; }
      }
      return Replaced;
    }
    var destinationExists := fs.Exists(destination);
    if destinationExists.None? { return RolledBack; }
    r := PublishOrRollBack(fs, prepared, destination, backup, destinationExists.value, validates);
  }
}
