/** Preparing a book download: a row of checkpoints around one replacement of the destination. */
module BookDownload {
  import opened Wrappers
  import opened FileReplacement

  datatype Error =
    | InvalidArgument | NotConfigured | Unavailable | Cancelled | SourceChanged | StorageFailed
    | ConverterUnavailable | ConverterFailed | Replacement(outcome: Outcome)

  /** The request after its path was inspected; `convert` asks for another format than the source's. */
  datatype Request = Request(validId: bool, absolute: bool, directory: bool, insideCache: bool, convert: bool)

  /** The catalog's row for the book. */
  datatype Source = Source(available: bool, entrySize: nat, fb2: bool)

  /** The paths a download uses besides its destination: both workspaces are freshly created. */
  datatype Workspace = Workspace(staged: Path, prepared: Path, backup: Path)

  ghost predicate Fresh(w: Workspace, destination: Path, files: Files) {
    && w.staged != w.prepared && w.prepared != w.backup && w.staged != w.backup
    && destination !in {w.staged, w.prepared, w.backup}
    && w.staged !in files && w.prepared !in files && w.backup !in files
  }

  /** Only workspace files have changed, at every moment since `from`. */
  ghost predicate OnlyWorkspace(fs: FileSystem, from: nat, before: Files, w: Workspace)
    reads fs
  {
    && from <= |fs.trace| && SameExcept(before, fs.files, {w.staged, w.prepared})
    && forall k :: from <= k < |fs.trace| ==> SameExcept(before, fs.trace[k], {w.staged, w.prepared})
  }

  /** The source was found valid with the files as they are. */
  ghost predicate JustAccepted(fs: FileSystem)
    reads fs
  {
    fs.accepted != [] && fs.accepted[|fs.accepted| - 1] == fs.files
  }

  /** A cancellation check followed by ValidateDownloadSnapshot. */
  method Checkpoint(fs: FileSystem) returns (error: Option<Error>)
    modifies fs`faults, fs`accepted
    ensures error.None? ==> JustAccepted(fs)
    ensures error.None? <==> fs.faults == old(fs.faults)
    ensures fs.faults >= old(fs.faults) && (error.Some? ==> error == Some(Cancelled) || error == Some(SourceChanged))
  {
    var cancelled := fs.Strike();
    if cancelled { return Some(Cancelled); }
    var valid := fs.Validate();
    return if valid then None else Some(SourceChanged);
  }

  /** Opens the archive and extracts the entry; the size must be the one in the catalog. */
  method Stage(fs: FileSystem, w: Workspace, source: Source, ghost before: Files, ghost from: nat)
    returns (error: Option<Error>)
    requires OnlyWorkspace(fs, from, before, w) && JustAccepted(fs)
    modifies fs
    ensures fs.faults >= old(fs.faults)
    ensures OnlyWorkspace(fs, from, before, w)
    ensures fs.faults == old(fs.faults) <==> error.None?
    ensures error.None? ==> JustAccepted(fs)
    ensures error.None? ==> w.staged in fs.files && |fs.files[w.staged]| == source.entrySize
  {
    var missing := fs.Strike();
    if missing { return Some(SourceChanged); }
    var payload: Content := *;
    if |payload| != source.entrySize { fs.faults := fs.faults + 1; }
    var written := fs.Write(w.staged, payload);
    if !written { return Some(StorageFailed); }
    if |fs.files[w.staged]| != source.entrySize { return Some(SourceChanged); }
    error := Checkpoint(fs);
  }

  /** The converter, which may fail in many ways, writes its output or leaves nothing. */
  method Convert(fs: FileSystem, w: Workspace, source: Source, converter: bool, ghost before: Files, ghost from: nat)
    returns (error: Option<Error>)
    requires OnlyWorkspace(fs, from, before, w) && JustAccepted(fs)
    modifies fs`files, fs`trace, fs`faults
    ensures fs.faults >= old(fs.faults)
    ensures OnlyWorkspace(fs, from, before, w)
    ensures fs.faults == old(fs.faults) && source.fb2 && converter <==> error.None?
    ensures error.None? ==> w.prepared in fs.files && source.fb2 && converter
    ensures !source.fb2 || !converter ==> error == Some(ConverterUnavailable)
  {
    if !source.fb2 || !converter { return Some(ConverterUnavailable); }
    var output: Content := *;
    var written := fs.Write(w.prepared, output);
    if !written { return Some(ConverterFailed); }
    var elsewhere := fs.Strike();
    if elsewhere { return Some(ConverterFailed); }
    return None;
  }

  /** Brings the file to publish to its prepared path. */
  method Prepare(fs: FileSystem, w: Workspace, source: Source, convert: bool, converter: bool, ghost before: Files,
                 ghost from: nat)
    returns (error: Option<Error>)
    requires OnlyWorkspace(fs, from, before, w) && w.staged != w.prepared && JustAccepted(fs)
    modifies fs
    ensures fs.faults >= old(fs.faults)
    ensures OnlyWorkspace(fs, from, before, w)
    ensures fs.faults == old(fs.faults) && (convert ==> source.fb2 && converter) <==> error.None?
    ensures error.None? ==> JustAccepted(fs)
    ensures error.None? ==> w.prepared in fs.files && (!convert ==> |fs.files[w.prepared]| == source.entrySize)
    ensures error.None? && convert ==> source.fb2 && converter
  {
    error := Stage(fs, w, source, before, from);
    if error.Some? { return; }
    if convert {
      error := Convert(fs, w, source, converter, before, from);
      if error.Some? { return; }
    } else {
      var moved := fs.Rename(w.staged, w.prepared);
      if !moved { return Some(StorageFailed); }
    }
    error := Checkpoint(fs);
  }

  lemma WorkspaceKeepsOriginal(before: Files, after: Files, w: Workspace, destination: Path)
    requires Fresh(w, destination, before) && SameExcept(before, after, {w.staged, w.prepared})
    ensures OriginalSurvives(before, after, destination, w.backup) && w.backup !in after
    ensures (destination in after <==> destination in before)
      && (destination in before ==> after[destination] == before[destination])
  {
  }

  /** What a download promises about the destination. */
  ghost predicate DestinationAsBefore(before: Files, after: Files, destination: Path) {
    (destination in after <==> destination in before) && (destination in before && destination in after ==> after[destination] == before[destination])
  }

  method PublishPrepared(fs: FileSystem, destination: Path, w: Workspace, ghost before: Files, ghost from: nat)
    returns (r: Outcome)
    requires Fresh(w, destination, before) && OnlyWorkspace(fs, from, before, w) && JustAccepted(fs)
    modifies fs
    ensures fs.faults >= old(fs.faults)
    ensures fs.faults == old(fs.faults) && w.prepared in old(fs.files) ==> r.Replaced? && w.backup !in fs.files
    ensures r.Replaced? ==> fs.faults == old(fs.faults) || (fs.faults == old(fs.faults) + 1 && w.backup in fs.files)
    ensures r.Replaced? ==>
      w.prepared in old(fs.files) && destination in fs.files && fs.files[destination] == old(fs.files)[w.prepared]
    ensures r.Replaced? ==> AcceptedAt(fs.accepted, destination, fs.files[destination])
    ensures r.RolledBack? ==> DestinationAsBefore(before, fs.files, destination)
    ensures !r.Replaced? ==> OriginalSurvives(before, fs.files, destination, w.backup)
    ensures !r.Replaced? ==> from <= |fs.trace| && AlwaysSurvives(fs.trace, from, before, destination, w.backup)
    ensures SameExcept(before, fs.files, {w.staged, w.prepared, destination, w.backup})
  {
    ghost var first := fs.trace;
    ghost var now := fs.files;
    WorkspaceKeepsOriginal(before, now, w, destination);
    forall k | from <= k < |first| ensures OriginalSurvives(before, first[k], destination, w.backup) {
      WorkspaceKeepsOriginal(before, first[k], w, destination);
    }
    r := ReplaceDestination(fs, w.prepared, destination, w.backup, true);
    if !r.Replaced? {
      forall k | |first| <= k < |fs.trace| ensures OriginalSurvives(before, fs.trace[k], destination, w.backup) {
        assert OriginalSurvives(now, fs.trace[k], destination, w.backup);
      }
      SurvivesThroughout(first, fs.trace, from, before, destination, w.backup);
    }
  }

  /** The end of both workspaces, whose failures are ignored. */
  method CleanUp(fs: FileSystem, w: Workspace)
    modifies fs`files, fs`trace, fs`faults
    ensures old(fs.faults) <= fs.faults <= old(fs.faults) + 2
    ensures SameExcept(old(fs.files), fs.files, {w.staged, w.prepared})
    ensures old(fs.trace) <= fs.trace && forall k :: |old(fs.trace)| <= k < |fs.trace| ==> SameExcept(old(fs.files), fs.trace[k], {w.staged, w.prepared})
    ensures fs.faults == old(fs.faults) ==> fs.files == old(fs.files) - {w.prepared} - {w.staged}
  {
    var removed := fs.Remove(w.prepared);
    removed := fs.Remove(w.staged);
  }

  lemma CleanUpKeeps(before: Files, mid: Files, after: Files, w: Workspace, destination: Path)
    requires OriginalSurvives(before, mid, destination, w.backup) && SameExcept(mid, after, {w.staged, w.prepared})
    requires destination !in {w.staged, w.prepared} && w.backup !in {w.staged, w.prepared}
    ensures OriginalSurvives(before, after, destination, w.backup)
  {
  }

  /** A valid id, and an absolute path of a file outside the cache. */
  predicate Proper(request: Request) {
    request.validId && request.absolute && !request.directory && !request.insideCache
  }

  /** Nothing about the request, the configuration or the catalog stands in the way. */
  predicate Servable(request: Request, configured: bool, converter: bool, book: Option<Source>) {
    && Proper(request) && configured && book.Some? && book.value.available
       && (request.convert ==> book.value.fb2 && converter)
  }

  /** The download inside its workspaces. */
  method Run(fs: FileSystem, destination: Path, w: Workspace, source: Source, convert: bool, converter: bool)
    returns (error: Option<Error>)
    requires Fresh(w, destination, fs.files) && JustAccepted(fs)
    modifies fs
    ensures fs.faults >= old(fs.faults)
    ensures fs.faults == old(fs.faults) && (convert ==> source.fb2 && converter) <==>
      error.None? && w.backup !in fs.files
    ensures error.None? ==> fs.faults <= old(fs.faults) + if w.backup in fs.files then 1 else 0
    ensures error.None? ==> destination in fs.files && AcceptedAt(fs.accepted, destination, fs.files[destination])
    ensures error.None? && !convert ==> |fs.files[destination]| == source.entrySize
    ensures error.None? && convert ==> source.fb2 && converter
    ensures error.Some? ==> OriginalSurvives(old(fs.files), fs.files, destination, w.backup)
    ensures error.Some? ==>
      |old(fs.trace)| <= |fs.trace| && AlwaysSurvives(fs.trace, |old(fs.trace)|, old(fs.files), destination, w.backup)
    ensures error.Some? && error != Some(Replacement(Unfinished)) ==>
      DestinationAsBefore(old(fs.files), fs.files, destination)
    ensures SameExcept(old(fs.files), fs.files, {w.staged, w.prepared, destination, w.backup})
  {
    ghost var before := fs.files;
    ghost var from := |fs.trace|;
    error := Prepare(fs, w, source, convert, converter, before, from);
    if error.Some? {
      WorkspaceKeepsOriginal(before, fs.files, w, destination);
      forall k | from <= k < |fs.trace| ensures OriginalSurvives(before, fs.trace[k], destination, w.backup) {
        WorkspaceKeepsOriginal(before, fs.trace[k], w, destination);
      }
      return;
    }
    var outcome := PublishPrepared(fs, destination, w, before, from);
    error := if outcome.Replaced? then None else Some(Replacement(outcome));
  }

  /** PrepareDownload.  Success means validated content at the destination, of the catalogued size
    * when it was not converted.  Every failure leaves the original at the destination or at the
    * backup path, at every moment on the way; and unless a roll-back itself failed, the
    * destination is exactly as before.  A request that can be served succeeds and leaves nothing
    * else behind if nothing fails; one that succeeds did so although at most the removals of the backup
    * and of the two workspaces failed. */
  method PrepareDownload(fs: FileSystem, request: Request, configured: bool, converter: bool, book: Option<Source>,
                         destination: Path, w: Workspace)
    returns (r: Result<Option<Path>, Error>)
    requires Fresh(w, destination, fs.files)
    modifies fs
    ensures !request.validId || !request.absolute || request.directory || request.insideCache ==>
      r == Err(InvalidArgument) && fs.files == old(fs.files) && fs.trace == old(fs.trace)
    ensures Proper(request) && !configured ==>
      r == Err(NotConfigured) && fs.files == old(fs.files) && fs.trace == old(fs.trace)
    ensures Proper(request) && configured && book.None? ==>
      r == Ok(None) && fs.files == old(fs.files) && fs.trace == old(fs.trace)
    ensures Proper(request) && configured && book.Some? && !book.value.available ==>
      r == Err(Unavailable) && fs.files == old(fs.files) && fs.trace == old(fs.trace)
    ensures r.Ok? && r.value.Some? ==>
      request.validId && request.absolute && !request.directory && !request.insideCache && configured && book.Some?
    ensures r.Ok? && r.value.Some? && request.convert ==> book.value.fb2 && converter
    ensures fs.faults == old(fs.faults) && Servable(request, configured, converter, book)
      ==> r == Ok(Some(destination)) && w.backup !in fs.files && w.prepared !in fs.files && w.staged !in fs.files
    ensures r.Ok? && r.value.Some? ==>
      r.value.value == destination && destination in fs.files
        && AcceptedAt(fs.accepted, destination, fs.files[destination])
    ensures r.Ok? && r.value.Some? ==>
      book.Some? && book.value.available && (!request.convert ==> |fs.files[destination]| == book.value.entrySize)
    ensures r.Ok? && r.value.None? ==> book.None? && fs.files == old(fs.files)
    ensures r.Ok? ==> fs.faults <= old(fs.faults) + if w.backup in fs.files then 3 else 2
    ensures r.Err? ==> OriginalSurvives(old(fs.files), fs.files, destination, w.backup)
    ensures r.Err? ==> AlwaysSurvives(fs.trace, |old(fs.trace)|, old(fs.files), destination, w.backup)
    ensures r.Err? && r.error != Replacement(Unfinished) ==> DestinationAsBefore(old(fs.files), fs.files, destination)
    ensures SameExcept(old(fs.files), fs.files, {w.staged, w.prepared, destination, w.backup})
  {
    if !request.validId || !request.absolute || request.directory || request.insideCache {
      return Err(InvalidArgument);
    }
    if !configured { return Err(NotConfigured); }
    if book.None? { return Ok(None); }
    if !book.value.available { return Err(Unavailable); }
    var error := Checkpoint(fs);
    if error.Some? { return Err(error.value); }
    var uncreated := fs.Strike();
    if uncreated { return Err(StorageFailed); }
    error := Run(fs, destination, w, book.value, request.convert, converter);
    ghost var mid := fs.files;
    ghost var first := fs.trace;
    CleanUp(fs, w);
    assert DestinationAsBefore(mid, fs.files, destination);
    if error.Some? {
      CleanUpKeeps(old(fs.files), mid, fs.files, w, destination);
      forall k | |first| <= k < |fs.trace| ensures OriginalSurvives(old(fs.files), fs.trace[k], destination, w.backup) {
        CleanUpKeeps(old(fs.files), mid, fs.trace[k], w, destination);
      }
      SurvivesThroughout(first, fs.trace, |old(fs.trace)|, old(fs.files), destination, w.backup);
      return Err(error.value);
    }
    return Ok(Some(destination));
  }
}
