/** Catalog counters and cover reference counts, and their agreement with the book rows. */
module CatalogStatistics {
  import opened Wrappers
  import opened CatalogModel
  import opened MapSums

  /** A row of catalog_stat_cover_files. */
  datatype CoverStat = CoverStat(refs: int, size: nat)

  datatype Stats = Stats(bookCount: int, unavailable: int, coverBytes: int, covers: map<Cover, CoverStat>)

  const NO_STATS := Stats(0, 0, 0, map[])

  // ---------------------------------------------------------------- what each statement does

  /** `fileSize` is the size of the cover file, or None when no regular file is there. */
  function Incremented(st: Stats, cover: Option<Cover>, fileSize: Option<nat>): Stats {
    if cover.None? then st
    else if cover.value in st.covers then
      st.(covers := st.covers[cover.value := st.covers[cover.value].(refs := st.covers[cover.value].refs + 1)])
    else if fileSize.None? then st
    else st.(covers := st.covers[cover.value := CoverStat(1, fileSize.value)],
             coverBytes := st.coverBytes + fileSize.value)
  }

  function Decremented(st: Stats, cover: Option<Cover>): Stats {
    if cover.None? || cover.value !in st.covers then st
    else
      var row := st.covers[cover.value];
      if row.refs > 1 then st.(covers := st.covers[cover.value := row.(refs := row.refs - 1)])
      else st.(covers := st.covers - {cover.value}, coverBytes := st.coverBytes - row.size)
  }

  /** `stored` is the number of book rows naming the cover. */
  function Refreshed(st: Stats, cover: Option<Cover>, fileSize: Option<nat>, stored: nat): Stats {
    if cover.None? || fileSize.None? then st
    else if cover.value in st.covers then
      var row := st.covers[cover.value];
      st.(covers := st.covers[cover.value := row.(size := fileSize.value)],
          coverBytes := st.coverBytes + fileSize.value - row.size)
    else if stored == 0 then st
    else st.(covers := st.covers[cover.value := CoverStat(stored, fileSize.value)],
             coverBytes := st.coverBytes + fileSize.value)
  }

  function BookInserted(st: Stats, cover: Option<Cover>, fileSize: Option<nat>): Stats {
    Incremented(st.(bookCount := st.bookCount + 1), cover, fileSize)
  }

  function CoverChanged(st: Stats, before: Option<Cover>, after: Option<Cover>, fileSize: Option<nat>,
                        stored: nat): Stats {
    if before == after then Refreshed(st, after, fileSize, stored)
    else Incremented(Decremented(st, before), after, fileSize)
  }

  function AvailabilityChanged(st: Stats, before: bool, after: bool): Stats {
    if before == after then st
    else st.(unavailable := st.unavailable + if after then -1 else 1)
  }

  // ---------------------------------------------------------------- the tables, updated in place

  class StatisticsTables {
    var bookCount: int
    var unavailable: int
    var coverBytes: int
    var covers: map<Cover, CoverStat>

    ghost function Value(): Stats
      reads this
    {
      Stats(bookCount, unavailable, coverBytes, covers)
    }

    constructor ()
      ensures Value() == NO_STATS
    {
      bookCount, unavailable, coverBytes, covers := 0, 0, 0, map[];
    }

    constructor Load(st: Stats)
      ensures Value() == st
    {
      bookCount, unavailable, coverBytes, covers := st.bookCount, st.unavailable, st.coverBytes, st.covers;
    }

    method AddDelta(bookDelta: int, unavailableDelta: int, coverDelta: int)
      modifies this`bookCount, this`unavailable, this`coverBytes
      ensures bookCount == old(bookCount) + bookDelta
      ensures unavailable == old(unavailable) + unavailableDelta
      ensures coverBytes == old(coverBytes) + coverDelta
    {
      bookCount := bookCount + bookDelta;
      unavailable := unavailable + unavailableDelta;
      coverBytes := coverBytes + coverDelta;
    }

    method IncrementCoverReference(cover: Option<Cover>, fileSize: Option<nat>)
      modifies this
      ensures Value() == Incremented(old(Value()), cover, fileSize)
    {
      if cover.None? { return; }
      if cover.value in covers {
        var row := covers[cover.value];
        covers := covers[cover.value := row.(refs := row.refs + 1)];
        return;
      }
      if fileSize.None? { return; }
      covers := covers[cover.value := CoverStat(1, fileSize.value)];
      AddDelta(0, 0, fileSize.value);
    }

    method DecrementCoverReference(cover: Option<Cover>)
      modifies this
      ensures Value() == Decremented(old(Value()), cover)
    {
      if cover.None? || cover.value !in covers { return; }
      var row := covers[cover.value];
      if row.refs > 1 {
        covers := covers[cover.value := row.(refs := row.refs - 1)];
        return;
      }
      covers := covers - {cover.value};
      AddDelta(0, 0, 0 - row.size);
    }

    method RefreshCoverReferenceSize(cover: Option<Cover>, fileSize: Option<nat>, stored: nat)
      modifies this
      ensures Value() == Refreshed(old(Value()), cover, fileSize, stored)
    {
      if cover.None? || fileSize.None? { return; }
      if cover.value in covers {
        var row := covers[cover.value];
        if row.size == fileSize.value {
          assert covers[cover.value := row] == covers;
          return;
        }
        covers := covers[cover.value := row.(size := fileSize.value)];
        AddDelta(0, 0, fileSize.value - row.size);
        return;
      }
      if stored == 0 { return; }
      covers := covers[cover.value := CoverStat(stored, fileSize.value)];
      AddDelta(0, 0, fileSize.value);
    }

    method RecordBookInserted(cover: Option<Cover>, fileSize: Option<nat>)
      modifies this
      ensures Value() == BookInserted(old(Value()), cover, fileSize)
    {
      AddDelta(1, 0, 0);
      IncrementCoverReference(cover, fileSize);
    }

    method RecordCoverPathChanged(before: Option<Cover>, after: Option<Cover>, fileSize: Option<nat>, stored: nat)
      modifies this
      ensures Value() == CoverChanged(old(Value()), before, after, fileSize, stored)
    {
      if before == after {
        RefreshCoverReferenceSize(after, fileSize, stored);
        return;
      }
      DecrementCoverReference(before);
      IncrementCoverReference(after, fileSize);
    }

    method RecordAvailabilityChanged(before: bool, after: bool)
      modifies this
      ensures Value() == AvailabilityChanged(old(Value()), before, after)
    {
      if before == after { return; }
      AddDelta(0, if after then -1 else 1, 0);
    }

    /** AddUnavailableBooks followed by RemoveUnavailableBooks at the end of a scan. */
    method RecordAvailabilityUpdates(marked: nat, restored: nat)
      modifies this
      ensures Value() == old(Value()).(unavailable := old(unavailable) + marked - restored)
    {
      if marked != 0 { AddDelta(0, marked, 0); }
      if restored != 0 { AddDelta(0, 0 - restored, 0); }
    }
  }

  // ---------------------------------------------------------------- agreement with the rows

  ghost function Unavailable(books: map<LibId, BookRow>): set<LibId> {
    set l | l in books && !books[l].available
  }

  ghost function Naming(books: map<LibId, BookRow>, cover: Cover): set<LibId> {
    set l | l in books && books[l].book.cover == Some(cover)
  }

  function SizeOf(row: CoverStat): nat { row.size }

  ghost function CoverSizes(covers: map<Cover, CoverStat>): nat {
    Sum(covers, SizeOf)
  }

  ghost predicate CoverRowAgrees(covers: map<Cover, CoverStat>, books: map<LibId, BookRow>, p: Cover) {
    && (p in covers <==> Naming(books, p) != {})
    && (p in covers ==> covers[p] == CoverStat(|Naming(books, p)|, |p|))
  }

  ghost predicate CoversAgree(covers: map<Cover, CoverStat>, books: map<LibId, BookRow>) {
    forall p :: CoverRowAgrees(covers, books, p)
  }

  /** The counters are the row counts, each cover's reference count is the number of books
    * naming it, and the byte total is the sum over the distinct covers named. */
  ghost predicate Agrees(st: Stats, books: map<LibId, BookRow>) {
    && st.bookCount == |books|
    && st.unavailable == |Unavailable(books)|
    && CoversAgree(st.covers, books)
    && st.coverBytes == CoverSizes(st.covers)
  }

  lemma AgreementIsNonNegative(st: Stats, books: map<LibId, BookRow>)
    requires Agrees(st, books)
    ensures st.bookCount >= 0 && st.unavailable >= 0 && st.coverBytes >= 0
    ensures forall p :: p in st.covers ==> st.covers[p].refs > 0
  {
    forall p | p in st.covers ensures st.covers[p].refs > 0 { assert CoverRowAgrees(st.covers, books, p); }
  }

  lemma NamingPut(books: map<LibId, BookRow>, l: LibId, row: BookRow, p: Cover)
    ensures Naming(books[l := row], p) ==
            if row.book.cover == Some(p) then Naming(books, p) + {l} else Naming(books, p) - {l}
  {
  }

  lemma UnavailablePut(books: map<LibId, BookRow>, l: LibId, row: BookRow)
    ensures Unavailable(books[l := row]) == if row.available then Unavailable(books) - {l} else Unavailable(books) + {l}
  {
  }

  /** Incrementing for a book `l` that did not name a cover yet. */
  lemma IncrementKeepsCovers(st: Stats, books: map<LibId, BookRow>, l: LibId, row: BookRow, fileSize: Option<nat>)
    requires CoversAgree(st.covers, books) && st.coverBytes == CoverSizes(st.covers)
    requires l in books ==> books[l].book.cover.None?
    requires row.book.cover.Some? ==> row.book.cover.value in st.covers || fileSize == Some(|row.book.cover.value|)
    ensures var after := Incremented(st, row.book.cover, fileSize);
      CoversAgree(after.covers, books[l := row]) && after.coverBytes == CoverSizes(after.covers)
  {
    var after := Incremented(st, row.book.cover, fileSize);
    var updated := books[l := row];
    forall p ensures CoverRowAgrees(after.covers, updated, p) {
      assert CoverRowAgrees(st.covers, books, p);
      NamingPut(books, l, row, p);
      assert l !in Naming(books, p);
    }
    if row.book.cover.Some? {
      var p := row.book.cover.value;
      assert CoverRowAgrees(st.covers, books, p);
      SumPut(st.covers, p, after.covers[p], SizeOf);
      if p in st.covers { SumRemove(st.covers, p, SizeOf); }
    }
  }

  lemma DecrementKeepsSum(st: Stats, cover: Option<Cover>)
    requires st.coverBytes == CoverSizes(st.covers)
    ensures Decremented(st, cover).coverBytes == CoverSizes(Decremented(st, cover).covers)
  {
    if cover.Some? && cover.value in st.covers {
      var row := st.covers[cover.value];
      SumRemove(st.covers, cover.value, SizeOf);
      SumPut(st.covers, cover.value, row.(refs := row.refs - 1), SizeOf);
    }
  }

  ghost function Bare(row: BookRow): BookRow {
    row.(book := row.book.(cover := None))
  }

  /** Decrementing for a book `l` that stops naming its cover. */
  lemma DecrementKeepsCovers(st: Stats, books: map<LibId, BookRow>, l: LibId)
    requires CoversAgree(st.covers, books) && l in books
    ensures CoversAgree(Decremented(st, books[l].book.cover).covers, books[l := Bare(books[l])])
  {
    var after := Decremented(st, books[l].book.cover).covers;
    var updated := books[l := Bare(books[l])];
    forall p ensures CoverRowAgrees(after, updated, p) {
      assert CoverRowAgrees(st.covers, books, p);
      NamingPut(books, l, Bare(books[l]), p);
      if books[l].book.cover == Some(p) {
        ReleasedCover(st, books, l, p);
      } else {
        assert l !in Naming(books, p);
        assert Naming(books, p) - {l} == Naming(books, p);
      }
    }
  }

  lemma ReleasedCover(st: Stats, books: map<LibId, BookRow>, l: LibId, p: Cover)
    requires CoverRowAgrees(st.covers, books, p) && l in books && books[l].book.cover == Some(p)
    ensures var after := Decremented(st, Some(p)).covers;
      && (p in after <==> Naming(books, p) - {l} != {})
      && (p in after ==> after[p] == CoverStat(|Naming(books, p) - {l}|, |p|))
  {
    var named := Naming(books, p);
    assert l in named;
    assert |named - {l}| == |named| - 1;
    assert named - {l} == {} <==> |named| == 1;
  }

  /** The size GetCoverSize finds: covers are named by their content, so a file that is there has
    * the size of its name. */
  function FileSize(cover: Option<Cover>, fileExists: bool): Option<nat> {
    if cover.Some? && fileExists then Some(|cover.value|) else None
  }

  /** The reference to a cover is not lost: its file is there or the cover has a row already. */
  predicate Countable(st: Stats, cover: Option<Cover>, fileExists: bool) {
    cover.Some? ==> fileExists || cover.value in st.covers
  }

  /** One book becomes available or unavailable, or stays what it was. */
  lemma AvailabilityChangeKeepsAgreement(st: Stats, books: map<LibId, BookRow>, l: LibId, available: bool)
    requires Agrees(st, books) && l in books
    ensures Agrees(AvailabilityChanged(st, books[l].available, available),
                   books[l := books[l].(available := available)])
  {
    var after := books[l := books[l].(available := available)];
    UnavailablePut(books, l, after[l]);
    assert |after| == |books| by { assert after.Keys == books.Keys; assert |after.Keys| == |books.Keys|; }
    assert l in Unavailable(books) <==> !books[l].available;
    SameBooksKeepCovers(st.covers, books, after);
    assert |Unavailable(books) - {l}| == |Unavailable(books)| - (if books[l].available then 0 else 1);
    assert |Unavailable(books) + {l}| == |Unavailable(books)| + (if books[l].available then 1 else 0);
  }

  /** Refreshing a cover whose row was lost brings the row back with the number of books that name it,
    * and none if no book does. */
  lemma RefreshRepairs(st: Stats, books: map<LibId, BookRow>, p: Cover)
    requires Agrees(st, books)
    ensures var lost := if p in st.covers then st.(covers := st.covers - {p},
                                                   coverBytes := st.coverBytes - |p|) else st;
      Refreshed(lost, Some(p), Some(|p|), |Naming(books, p)|) == st
  {
    assert CoverRowAgrees(st.covers, books, p);
    if p in st.covers { assert (st.covers - {p})[p := st.covers[p]] == st.covers; }
  }

  lemma SameCoverKeepsCovers(st: Stats, books: map<LibId, BookRow>, l: LibId, row: BookRow, fileExists: bool,
                             stored: nat)
    requires CoversAgree(st.covers, books) && l in books && books[l].book.cover == row.book.cover
    ensures Refreshed(st, row.book.cover, FileSize(row.book.cover, fileExists), stored) == st
    ensures CoversAgree(st.covers, books[l := row])
  {
    if row.book.cover.Some? {
      var p := row.book.cover.value;
      assert l in Naming(books, p) && CoverRowAgrees(st.covers, books, p);
      assert st.covers[p := st.covers[p]] == st.covers;
    }
    var updated := books[l := row];
    forall p ensures CoverRowAgrees(st.covers, updated, p) {
      assert CoverRowAgrees(st.covers, books, p);
      NamingPut(books, l, row, p);
      assert Naming(books[l := row], p) == Naming(books, p);
    }
  }

  lemma DecrementKeepsOthers(st: Stats, before: Option<Cover>, p: Cover)
    requires before != Some(p)
    ensures p in Decremented(st, before).covers <==> p in st.covers
  {
  }

  /** Whatever the covers were, the cover table follows the rewritten row. */
  lemma CoverChangeKeepsCovers(st: Stats, books: map<LibId, BookRow>, l: LibId, row: BookRow, fileExists: bool,
                               stored: nat)
    requires CoversAgree(st.covers, books) && st.coverBytes == CoverSizes(st.covers) && l in books
    requires Countable(st, row.book.cover, fileExists)
    ensures var after := CoverChanged(st, books[l].book.cover, row.book.cover, FileSize(row.book.cover, fileExists),
                                      stored);
      && CoversAgree(after.covers, books[l := row]) && after.coverBytes == CoverSizes(after.covers)
      && after.bookCount == st.bookCount && after.unavailable == st.unavailable
  {
    if books[l].book.cover == row.book.cover {
      SameCoverKeepsCovers(st, books, l, row, fileExists, stored);
    } else {
      DecrementKeepsSum(st, books[l].book.cover);
      DecrementKeepsCovers(st, books, l);
      if row.book.cover.Some? { DecrementKeepsOthers(st, books[l].book.cover, row.book.cover.value); }
      IncrementKeepsCovers(Decremented(st, books[l].book.cover), books[l := Bare(books[l])], l, row,
                           FileSize(row.book.cover, fileExists));
      assert books[l := Bare(books[l])][l := row] == books[l := row];
    }
  }

  /** Recording a new book with its row, the cover file being in place or the cover counted. */
  lemma InsertKeepsAgreement(st: Stats, books: map<LibId, BookRow>, l: LibId, row: BookRow, fileExists: bool)
    requires Agrees(st, books) && l !in books && row.available && Countable(st, row.book.cover, fileExists)
    ensures Agrees(BookInserted(st, row.book.cover, FileSize(row.book.cover, fileExists)), books[l := row])
  {
    var counted := st.(bookCount := st.bookCount + 1);
    IncrementKeepsCovers(counted, books, l, row, FileSize(row.book.cover, fileExists));
    InsertedCounts(books, l, row);
  }

  lemma InsertedCounts(books: map<LibId, BookRow>, l: LibId, row: BookRow)
    requires l !in books && row.available
    ensures |books[l := row]| == |books| + 1
    ensures Unavailable(books[l := row]) == Unavailable(books)
  {
    UnavailablePut(books, l, row);
    assert l !in Unavailable(books);
    assert books[l := row].Keys == books.Keys + {l};
  }

  /** What the statistics become when book `l` is rewritten. */
  function BookReplaced(st: Stats, before: BookRow, row: BookRow, fileExists: bool, stored: nat): Stats {
    AvailabilityChanged(CoverChanged(st, before.book.cover, row.book.cover, FileSize(row.book.cover, fileExists), stored), before.available, true)
  }

  /** Recording a rewritten book: the old cover is released and the new one counted. */
  lemma ReplaceKeepsAgreement(st: Stats, books: map<LibId, BookRow>, l: LibId, row: BookRow, fileExists: bool,
                              stored: nat)
    requires Agrees(st, books) && l in books && row.available && Countable(st, row.book.cover, fileExists)
    ensures Agrees(BookReplaced(st, books[l], row, fileExists, stored), books[l := row])
  {
    CoverChangeKeepsCovers(st, books, l, row, fileExists, stored);
    UnavailablePut(books, l, row);
    assert books[l := row].Keys == books.Keys;
  }

  /** A row that names a cover the table does not have. */
  lemma UncountedDisagrees(covers: map<Cover, CoverStat>, books: map<LibId, BookRow>, l: LibId, row: BookRow)
    requires row.book.cover.Some? && row.book.cover.value !in covers
    ensures !CoversAgree(covers, books[l := row])
  {
    var p := row.book.cover.value;
    assert l in Naming(books[l := row], p);
    assert !CoverRowAgrees(covers, books[l := row], p);
  }

  /** Without the cover file a new reference is lost, so agreement after an insert needs the file
    * or a row already there: the condition is exact. */
  lemma InsertAgreesIff(st: Stats, books: map<LibId, BookRow>, l: LibId, row: BookRow, fileExists: bool)
    requires Agrees(st, books) && l !in books && row.available
    ensures Agrees(BookInserted(st, row.book.cover, FileSize(row.book.cover, fileExists)), books[l := row])
            <==> Countable(st, row.book.cover, fileExists)
  {
    if Countable(st, row.book.cover, fileExists) {
      InsertKeepsAgreement(st, books, l, row, fileExists);
    } else {
      UncountedDisagrees(st.covers, books, l, row);
    }
  }

  /** The same condition is exact for an update, whatever cover the book had before. */
  lemma ReplaceAgreesIff(st: Stats, books: map<LibId, BookRow>, l: LibId, row: BookRow, fileExists: bool, stored: nat)
    requires Agrees(st, books) && l in books && row.available
    ensures Agrees(BookReplaced(st, books[l], row, fileExists, stored), books[l := row])
            <==> Countable(st, row.book.cover, fileExists)
  {
    if Countable(st, row.book.cover, fileExists) {
      ReplaceKeepsAgreement(st, books, l, row, fileExists, stored);
    } else {
      var p := row.book.cover.value;
      assert CoverRowAgrees(st.covers, books, p);
      assert l !in Naming(books, p);
      DecrementKeepsOthers(st, books[l].book.cover, p);
      UncountedDisagrees(Decremented(st, books[l].book.cover).covers, books, l, row);
    }
  }

  /** A book with the given cover, available in the catalog. */
  function SampleRow(cover: Option<Cover>): BookRow {
    BookRow([], Record([], false, true, [], 0, []), Book(0, [], cover), true, true)
  }

  /** An insert and an update whose one-byte cover has no file: each leaves the statistics wrong. */
  lemma MissingCoverIsNotCounted()
    ensures var bare, covered := SampleRow(None), SampleRow(Some([1]));
      && Agrees(NO_STATS, map[])
      && !Agrees(BookInserted(NO_STATS, Some([1]), FileSize(Some([1]), false)), map[[] := covered])
      && Agrees(Stats(1, 0, 0, map[]), map[[] := bare])
      && !Agrees(BookReplaced(Stats(1, 0, 0, map[]), bare, covered, false, 0), map[[] := covered])
  {
    var bare, covered := SampleRow(None), SampleRow(Some([1]));
    var none: map<LibId, BookRow> := map[];
    var one := none[[] := bare];
    assert one == map[[] := bare] && one[[] := covered] == none[[] := covered] == map[[] := covered];
    assert Agrees(NO_STATS, none);
    InsertAgreesIff(NO_STATS, none, [], covered, false);
    InsertKeepsAgreement(NO_STATS, none, [], bare, true);
    assert BookInserted(NO_STATS, None, None) == Stats(1, 0, 0, map[]);
    ReplaceAgreesIff(Stats(1, 0, 0, map[]), one, [], covered, false, 0);
  }

  // ---------------------------------------------------------------- updates that keep the books

  function CoversNamed(books: map<LibId, BookRow>): set<Cover> {
    set l | l in books && books[l].book.cover.Some? :: books[l].book.cover.value
  }

  ghost predicate SameBooks(before: map<LibId, BookRow>, after: map<LibId, BookRow>) {
    after.Keys == before.Keys && forall l :: l in before ==> after[l].book == before[l].book
  }

  lemma SameBooksKeepCovers(covers: map<Cover, CoverStat>, before: map<LibId, BookRow>, after: map<LibId, BookRow>)
    requires SameBooks(before, after) && CoversAgree(covers, before)
    ensures CoversAgree(covers, after) && CoversNamed(after) == CoversNamed(before)
  {
    forall p ensures CoverRowAgrees(covers, after, p) {
      assert CoverRowAgrees(covers, before, p);
      assert Naming(after, p) == Naming(before, p);
    }
    forall p ensures p in CoversNamed(after) <==> p in CoversNamed(before) {
      if l :| l in after && after[l].book.cover == Some(p) { assert before[l].book.cover == Some(p); }
      if l :| l in before && before[l].book.cover == Some(p) { assert after[l].book.cover == Some(p); }
    }
  }

  function Marked(before: map<LibId, BookRow>, after: map<LibId, BookRow>): set<LibId> {
    set l | l in before && l in after && before[l].available && !after[l].available
  }

  /** The counts of the two availability UPDATEs keep the unavailable counter exact. */
  lemma AvailabilityUpdatesKeepAgreement(st: Stats, before: map<LibId, BookRow>, after: map<LibId, BookRow>)
    requires Agrees(st, before) && SameBooks(before, after)
    ensures Agrees(st.(unavailable := st.unavailable + |Marked(before, after)| - |Marked(after, before)|), after)
    ensures CoversNamed(after) == CoversNamed(before)
  {
    var marked, restored := Marked(before, after), Marked(after, before);
    assert Unavailable(after) == (Unavailable(before) - restored) + marked;
    assert restored <= Unavailable(before) && marked !! (Unavailable(before) - restored);
    SameBooksKeepCovers(st.covers, before, after);
  }
}
