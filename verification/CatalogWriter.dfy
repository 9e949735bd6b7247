/** The stream writer: one transaction over the catalog tables, the statistics and the cover
  * directory, ended by a commit or a rollback. */
module CatalogWriter {
  import opened Wrappers
  import opened CatalogModel
  import opened IncrementalScan
  import opened CatalogStatistics

  /** The committed database and the content-addressed cover files beside it. */
  class CatalogStore {
    var tables: Work
    var stats: Stats
    var coverFiles: set<Cover>
    /** How often a cancellation, an I/O error or a damaged payload got in the way. */
    ghost var faults: nat

    /** The environment's choice to interfere. */
    method Strike() returns (struck: bool)
      modifies this`faults
      ensures faults == old(faults) + if struck then 1 else 0
    {
      struck := *;
      if struck { faults := faults + 1; }
    }

    ghost predicate Valid()
      reads this`tables, this`stats, this`coverFiles
    {
      && Inv(tables.cat)
      && Agrees(stats, tables.cat.books)
      && CoversNamed(tables.cat.books) <= coverFiles
    }

    constructor ()
      ensures Valid() && tables == Work(EMPTY_CATALOG, map[]) && stats == NO_STATS && coverFiles == {}
    {
      tables, stats, coverFiles := Work(EMPTY_CATALOG, map[]), NO_STATS, {};
      new;
      forall p ensures CoverRowAgrees(NO_STATS.covers, EMPTY_CATALOG.books, p) {}
    }
  }

  // ---------------------------------------------------------------- the statistics of a run of writes

  /** SELECT COUNT(*) FROM inpx_books WHERE cover_path = ?. */
  function CountNaming(books: map<LibId, BookRow>, cover: Option<Cover>): nat {
    |set k | k in books && books[k].book.cover == cover :: k|
  }

  /** What WriteParsedRecord records for one task, given the rows it finds; CacheInpxCover has just
    * put the cover file in place. */
  function Recorded(st: Stats, books: map<LibId, BookRow>, t: Task): Stats {
    var l, cover := t.record.libId, t.book.cover;
    if l !in books then BookInserted(st, cover, FileSize(cover, true))
    else BookReplaced(st, books[l], WrittenRow(t), true, CountNaming(books[l := WrittenRow(t)], cover))
  }

  function RecordedAll(st: Stats, w: Work, tasks: seq<Task>, id: ScanId): Stats {
    if tasks == [] then st
    else
      var front := tasks[..|tasks| - 1];
      Recorded(RecordedAll(st, w, front, id), WriteAll(w, front, id).cat.books, tasks[|tasks| - 1])
  }

  /** Across any run of record writes the statistics keep agreeing with the rows. */
  lemma {:induction false} RecordedAllAgrees(st: Stats, w: Work, tasks: seq<Task>, id: ScanId)
    requires Agrees(st, w.cat.books)
    ensures Agrees(RecordedAll(st, w, tasks, id), WriteAll(w, tasks, id).cat.books)
  {
    if tasks != [] {
      var front, t := tasks[..|tasks| - 1], tasks[|tasks| - 1];
      RecordedAllAgrees(st, w, front, id);
      var books := WriteAll(w, front, id).cat.books;
      var before := RecordedAll(st, w, front, id);
      if t.record.libId !in books {
        InsertKeepsAgreement(before, books, t.record.libId, WrittenRow(t), true);
      } else {
        var stored := CountNaming(books[t.record.libId := WrittenRow(t)], t.book.cover);
        ReplaceKeepsAgreement(before, books, t.record.libId, WrittenRow(t), true, stored);
      }
    }
  }

  /** Writing a book again with the cover it has brings back a cover row that was lost. */
  lemma RewritingRepairs(st: Stats, books: map<LibId, BookRow>, t: Task, p: Cover)
    requires Agrees(st, books) && t.record.libId in books && t.book.cover == Some(p)
    requires books[t.record.libId].book.cover == Some(p) && books[t.record.libId].available
    ensures var lost := st.(covers := st.covers - {p}, coverBytes := st.coverBytes - |p|);
      Recorded(lost, books, t) == st
  {
    assert CoverRowAgrees(st.covers, books, p) && t.record.libId in Naming(books, p);
    var after := books[t.record.libId := WrittenRow(t)];
    NamingPut(books, t.record.libId, WrittenRow(t), p);
    assert Naming(after, p) == Naming(books, p);
    NamingIsCounted(after, p);
    RefreshRepairs(st, books, p);
  }

  lemma NamingIsCounted(books: map<LibId, BookRow>, p: Cover)
    ensures CountNaming(books, Some(p)) == |Naming(books, p)|
  {
    assert (set k | k in books && books[k].book.cover == Some(p) :: k) == Naming(books, p);
  }

  /** After every one of these writes the referenced covers were within the budget. */
  ghost predicate WithinBudget(st: Stats, w: Work, tasks: seq<Task>, id: ScanId, budget: nat) {
    tasks == [] || (WithinBudget(st, w, tasks[..|tasks| - 1], id, budget) && RecordedAll(st, w, tasks, id).coverBytes <= budget)
  }

  /** The last of these writes is the first to exceed the budget. */
  ghost predicate OverBudget(st: Stats, w: Work, tasks: seq<Task>, id: ScanId, budget: nat) {
    tasks != [] && WithinBudget(st, w, tasks[..|tasks| - 1], id, budget) && RecordedAll(st, w, tasks, id).coverBytes > budget
  }

  lemma PutKeepsCovers(books: map<LibId, BookRow>, l: LibId, row: BookRow, files: set<Cover>)
    requires CoversNamed(books) <= files
    requires row.book.cover.Some? ==> row.book.cover.value in files
    ensures CoversNamed(books[l := row]) <= files
  {
    forall p | p in CoversNamed(books[l := row]) ensures p in files {
      var k :| k in books[l := row] && books[l := row][k].book.cover == Some(p);
      if k != l { assert k in books; }
    }
  }

  // ---------------------------------------------------------------- the writer

  datatype Footing = Firm | Loose

  class StreamWriter {
    const store: CatalogStore
    const id: ScanId
    const coverBudget: nat
    const stats: StatisticsTables

    var work: Work
    var written: set<Cover>

    ghost const baseTables: Work
    ghost const baseStats: Stats
    ghost const baseFiles: set<Cover>
    /** The rows when the first record was written, and the tasks written since. */
    ghost var prepared: Work
    ghost var log: seq<Task>

    /** Nothing is published, and every cover file that was not there at the start is
      * registered for rollback. */
    ghost predicate RollbackReady()
      reads this`written, store`tables, store`stats, store`coverFiles
    {
      && store.tables == baseTables && store.stats == baseStats
      && written !! baseFiles
      && baseFiles <= store.coverFiles <= baseFiles + written
    }

    /** The open rows and statistics are those of the tasks written so far. */
    ghost predicate Valid()
      reads this, store`tables, store`stats, store`coverFiles, stats
    {
      && RollbackReady()
      && work == WriteAll(prepared, log, id)
      && stats.Value() == RecordedAll(baseStats, prepared, log, id)
      && CoversNamed(work.cat.books) <= store.coverFiles
      && InBudget()
    }

    ghost predicate InBudget()
      reads this`prepared, this`log
    {
      WithinBudget(baseStats, prepared, log, id, coverBudget)
    }

    /** The last write exceeded the cover budget. */
    ghost predicate Over()
      reads this`prepared, this`log
    {
      OverBudget(baseStats, prepared, log, id, coverBudget)
    }

    constructor (store: CatalogStore, id: ScanId, coverBudget: nat)
      requires store.Valid()
      ensures Valid() && log == [] && fresh(stats) && fresh(this)
      ensures this.store == store && this.id == id && this.coverBudget == coverBudget
      ensures work == store.tables == baseTables && baseStats == store.stats && baseFiles == store.coverFiles
    {
      this.store, this.id, this.coverBudget := store, id, coverBudget;
      work, written := store.tables, {};
      baseTables, baseStats, baseFiles := store.tables, store.stats, store.coverFiles;
      prepared, log := store.tables, [];
      stats := new StatisticsTables.Load(store.stats);
    }

    /** Inserts or updates one segment row and replaces its deletion rows. */
    method UpsertSegment(p: Plan) returns (ok: bool)
      requires Valid() && log == []
      modifies this`work, this`prepared, store`faults
      ensures Valid() && store.faults >= old(store.faults)
      ensures store.faults == old(store.faults) <==> ok
      ensures work.lastSeen == old(work.lastSeen) && work.cat.books == old(work.cat.books)
      ensures ok ==> work.cat == IncrementalScan.UpsertSegment(old(work.cat), p)
    {
      var segments := work.cat.segments[p.name := PlanRow(p)];
      SetTables(segments, work.cat.deletions);
      if p.change.Unchanged? { return true; }
      var kept := WithoutSegment(work.cat.deletions, p.name);
      SetTables(segments, kept);
      if p.change.Removed? { return true; }
      var remaining := DeletedIds(p.parsed);
      while remaining != {}
        invariant Valid() && store.faults == old(store.faults)
        invariant work.cat.segments == segments && work.cat.books == old(work.cat.books)
          && work.lastSeen == old(work.lastSeen)
        invariant remaining <= DeletedIds(p.parsed)
        invariant work.cat.deletions == kept + set l | l in DeletedIds(p.parsed) - remaining :: (p.name, l)
        decreases remaining
      {
        var cancelled := store.Strike();
        if cancelled { return false; }
        var l :| l in remaining;
        SetTables(segments, work.cat.deletions + {(p.name, l)});
        remaining := remaining - {l};
      }
      assert DeletionRows(p) == set l | l in DeletedIds(p.parsed) - remaining :: (p.name, l);
      return true;
    }

    /** The segment and deletion tables, before any record is written. */
    method SetTables(segments: map<SegmentName, SegmentRow>, deletions: set<(SegmentName, LibId)>)
      requires Valid() && log == []
      modifies this`work, this`prepared
      ensures Valid()
      ensures work == old(work).(cat := old(work).cat.(segments := segments, deletions := deletions))
    {
      work := work.(cat := work.cat.(segments := segments, deletions := deletions));
      prepared := work;
    }

    /** Makes the cover file available, registering it for rollback before it is created. */
    method CacheCover(cover: Option<Cover>) returns (ok: bool)
      requires RollbackReady()
      modifies this`written, store`coverFiles, store`faults
      ensures RollbackReady() && store.faults >= old(store.faults)
      ensures store.faults == old(store.faults) <==> ok
      ensures old(store.coverFiles) <= store.coverFiles
      ensures ok && cover.Some? ==> cover.value in store.coverFiles
    {
      if cover.None? { return true; }
      var failed := store.Strike();
      if cover.value in store.coverFiles {
        // An existing file that does not match its content-addressed name is refused.
        return !failed;
      }
      written := written + {cover.value};
      if failed { return false; }
      store.coverFiles := store.coverFiles + {cover.value};
      return true;
    }

    /** The statistics side of one record write. */
    method RecordTask(t: Task)
      modifies stats
      ensures stats.Value() == Recorded(old(stats.Value()), work.cat.books, t)
    {
      var l, cover := t.record.libId, t.book.cover;
      if l !in work.cat.books {
        stats.RecordBookInserted(cover, FileSize(cover, true));
      } else {
        var oldRow := work.cat.books[l];
        var stored := CountNaming(work.cat.books[l := WrittenRow(t)], cover);
        stats.RecordCoverPathChanged(oldRow.book.cover, cover, FileSize(cover, true), stored);
        stats.RecordAvailabilityChanged(oldRow.available, true);
      }
    }

    /** Stores one parsed payload: book, location, statistics and cover reference. */
    method WriteParsedRecord(t: Task) returns (ok: bool, added: bool)
      requires Valid()
      modifies this`work, this`written, this`log, stats, store`coverFiles, store`faults
      ensures ok ==> store.faults == old(store.faults)
      ensures RollbackReady() && store.faults >= old(store.faults)
      ensures ok ==> Valid() && log == old(log) + [t]
      ensures !ok && store.faults == old(store.faults) ==> Over() && log == old(log) + [t]
      ensures ok ==> (added <==> t.record.libId !in old(work.cat.books))
    {
      added := t.record.libId !in work.cat.books;
      ok := CacheCover(t.book.cover);
      if !ok { return; }
      PutKeepsCovers(work.cat.books, t.record.libId, WrittenRow(t), store.coverFiles);
      RecordTask(t);
      work := WriteRecord(work, t, id);
      assert (log + [t])[..|log|] == log;
      log := log + [t];
      if stats.coverBytes > coverBudget { return false, added; }
    }

    ghost function Footing(): Footing
      reads this, store`tables, store`stats, store`coverFiles, stats
    {
      if RollbackReady() && Agrees(stats.Value(), work.cat.books) && CoversNamed(work.cat.books) <= store.coverFiles
         && InBudget() && (log != [] ==> stats.coverBytes <= coverBudget) then Firm else Loose
    }

    /** The rows may be settled and published: the statistics agree with them. */
    ghost predicate Settling()
      reads this, store`tables, store`stats, store`coverFiles, stats
    {
      Footing().Firm?
    }

    /** One UPDATE per reparsed segment: rows this scan did not write are no longer present. */
    method ClearAbsentRows(names: seq<SegmentName>) returns (ok: bool)
      requires Settling()
      modifies this`work, store`faults
      ensures RollbackReady() && store.faults >= old(store.faults)
      ensures store.faults == old(store.faults) <==> ok
      ensures ok ==> Settling() && work == ClearAll(old(work), names, id)
    {
      for i := 0 to |names|
        invariant work == ClearAll(old(work), names[..i], id) && store.faults == old(store.faults)
      {
        var cancelled := store.Strike();
        if cancelled { return false; }
        assert names[..i + 1][..i] == names[..i];
        work := ClearAbsent(work, names[i], id);
      }
      assert names[..|names|] == names;
      ClearAllKeepsAgreement(stats.Value(), old(work), names, id);
      return true;
    }

    /** The mark-unavailable and restore-available UPDATEs and their counter deltas. */
    method RecomputeAvailability() returns (marked: nat)
      requires Settling()
      modifies this`work, stats
      ensures Settling()
      ensures work == Recomputed(old(work), id)
      ensures stats.coverBytes == old(stats.coverBytes)
      ensures marked == |Marked(old(work.cat.books), work.cat.books)|
    {
      var before := work.cat.books;
      var after := RecomputedBooks(work.cat);
      RecomputedKeepsAgreement(stats.Value(), work, id);
      marked := |Marked(before, after)|;
      var restored := |Marked(after, before)|;
      work := Recomputed(work, id);
      stats.RecordAvailabilityUpdates(marked, restored);
      assert Agrees(stats.Value(), work.cat.books) && CoversNamed(work.cat.books) <= store.coverFiles;
    }

    /** Publishes the transaction, then deletes the cover files no book names. */
    method Commit() returns (cleaned: bool)
      requires Settling() && Inv(work.cat)
      modifies store
      ensures store.Valid() && store.faults >= old(store.faults)
      ensures store.faults == old(store.faults) <==> cleaned
      ensures store.tables == work && store.stats == stats.Value()
      ensures CoversNamed(work.cat.books) <= store.coverFiles <= old(store.coverFiles)
      ensures cleaned ==> store.coverFiles == CoversNamed(work.cat.books)
      ensures log != [] ==> store.stats.coverBytes <= coverBudget
    {
      store.tables := work;
      store.stats := Stats(stats.bookCount, stats.unavailable, stats.coverBytes, stats.covers);
      var named := CoversNamed(work.cat.books);
      var todo := store.coverFiles;
      ghost var all := store.coverFiles;
      cleaned := true;
      while todo != {}
        invariant todo <= store.coverFiles <= all
        invariant named <= store.coverFiles
        invariant cleaned ==> store.coverFiles <= todo + named
        invariant store.tables == work && store.stats == stats.Value()
        invariant store.faults >= old(store.faults) && (store.faults == old(store.faults) <==> cleaned)
        decreases todo
      {
        var aborted := store.Strike();
        if aborted { return false; }
        var p :| p in todo;
        todo := todo - {p};
        if p !in named {
          var stuck := store.Strike();
          if stuck { cleaned := false; } else { store.coverFiles := store.coverFiles - {p}; }
        }
      }
    }

    /** The destructor without a commit: removes every cover file this scan registered. */
    method Rollback() returns (cleaned: bool)
      requires RollbackReady()
      modifies store`coverFiles, store`faults
      ensures store.faults >= old(store.faults) && (store.faults == old(store.faults) <==> cleaned)
      ensures store.tables == baseTables && store.stats == baseStats
      ensures baseFiles <= store.coverFiles
      ensures cleaned ==> store.coverFiles == baseFiles
    {
      var todo := written;
      cleaned := true;
      while todo != {}
        invariant todo <= written
        invariant baseFiles <= store.coverFiles
        invariant cleaned ==> store.coverFiles <= baseFiles + todo
        invariant store.faults >= old(store.faults) && (store.faults == old(store.faults) <==> cleaned)
        decreases todo
      {
        var p :| p in todo;
        todo := todo - {p};
        var stuck := store.Strike();
        if stuck { cleaned := false; } else { store.coverFiles := store.coverFiles - {p}; }
      }
    }
  }

  lemma RecomputedKeepsAgreement(st: Stats, w: Work, id: ScanId)
    requires Agrees(st, w.cat.books)
    ensures var before, after := w.cat.books, RecomputedBooks(w.cat);
      && Recomputed(w, id).cat.books == after && CoversNamed(after) == CoversNamed(before)
      && Agrees(st.(unavailable := st.unavailable + |Marked(before, after)| - |Marked(after, before)|), after)
  {
    AvailabilityUpdatesKeepAgreement(st, w.cat.books, RecomputedBooks(w.cat));
  }

  /** Clearing present_in_segment touches neither counters nor covers. */
  lemma ClearKeepsAgreement(st: Stats, w: Work, s: SegmentName, id: ScanId)
    requires Agrees(st, w.cat.books)
    ensures Agrees(st, ClearAbsent(w, s, id).cat.books)
    ensures CoversNamed(ClearAbsent(w, s, id).cat.books) == CoversNamed(w.cat.books)
  {
    var before, after := w.cat.books, ClearAbsent(w, s, id).cat.books;
    assert SameBooks(before, after) && Unavailable(after) == Unavailable(before) by {
      forall l | l in before ensures l in after && after[l].book == before[l].book && after[l].available == before[l].available {}
    }
    SameBooksKeepCovers(st.covers, before, after);
  }

  lemma {:induction false} ClearAllKeepsAgreement(st: Stats, w: Work, names: seq<SegmentName>, id: ScanId)
    requires Agrees(st, w.cat.books)
    ensures Agrees(st, ClearAll(w, names, id).cat.books)
    ensures CoversNamed(ClearAll(w, names, id).cat.books) == CoversNamed(w.cat.books)
  {
    if names != [] {
      ClearAllKeepsAgreement(st, w, names[..|names| - 1], id);
      ClearKeepsAgreement(st, ClearAll(w, names[..|names| - 1], id), names[|names| - 1], id);
    }
  }
}
