/** The catalog tables a scan maintains, what an INPX snapshot says they should hold,
  * and the invariant that links the two.
  *
  * A SHA-256 fingerprint is represented by the content it identifies, so comparing
  * fingerprints is comparing contents.  A segment row is keyed by its INP entry name and a
  * book by its LibId: both are unique keys of the schema.
  */
module CatalogModel {
  import opened Wrappers
  import opened Bytes

  type LibId = Bytes
  type SegmentName = Bytes
  type ArchivePath = Bytes

  datatype FileState = FileState(size: nat, mtime: int)

  /** A parsed FB2 payload; the cover is named by its own bytes (content addressing). */
  type Cover = Bytes
  datatype Book = Book(size: nat, metadata: Bytes, cover: Option<Cover>)

  /** An archive manifest: the payload behind every entry name. */
  type Manifest = map<Bytes, Book>

  datatype Record = Record(libId: LibId, deleted: bool, fb2: bool, entry: Bytes, declaredSize: nat, row: Bytes)

  datatype Segment = Segment(name: SegmentName, records: seq<Record>)

  /** An INPX snapshot: its INP segments in order. */
  type Inpx = seq<Segment>

  datatype ArchiveInfo = ArchiveInfo(path: ArchivePath, state: FileState, manifest: Manifest)

  datatype SegmentRow = SegmentRow(records: seq<Record>, order: nat, total: nat, deletedCount: nat,
                                   available: bool, archive: Option<ArchiveInfo>)

  /** A row of inpx_books joined with its only row of inpx_book_locations. */
  datatype BookRow = BookRow(segment: SegmentName, record: Record, book: Book, present: bool, available: bool)

  datatype Catalog = Catalog(segments: map<SegmentName, SegmentRow>,
                             deletions: set<(SegmentName, LibId)>,
                             books: map<LibId, BookRow>)

  const EMPTY_CATALOG := Catalog(map[], {}, map[])

  /** The archive facts a scan attaches to each segment that needs an archive. */
  type ArchiveFacts = map<SegmentName, ArchiveInfo>

  // ---------------------------------------------------------------- what a segment says

  predicate IsActive(r: Record) { !r.deleted && r.fb2 }

  ghost predicate RequiresArchive(records: seq<Record>) {
    exists j :: 0 <= j < |records| && IsActive(records[j])
  }

  function DeletedIds(records: seq<Record>): set<LibId> {
    set j | 0 <= j < |records| && records[j].deleted :: records[j].libId
  }

  function ActiveIds(records: seq<Record>): set<LibId> {
    set j | 0 <= j < |records| && IsActive(records[j]) :: records[j].libId
  }

  ghost predicate DistinctActive(records: seq<Record>) {
    forall j, j' :: 0 <= j < j' < |records| && IsActive(records[j]) && IsActive(records[j'])
                    ==> records[j].libId != records[j'].libId
  }

  function CountDeleted(records: seq<Record>): nat {
    if records == [] then 0
    else CountDeleted(records[..|records| - 1]) + (if records[|records| - 1].deleted then 1 else 0)
  }

  // ---------------------------------------------------------------- what a snapshot says

  function Names(x: Inpx): set<SegmentName> {
    set i | 0 <= i < |x| :: x[i].name
  }

  predicate DistinctNames(x: Inpx) {
    forall i, j :: 0 <= i < j < |x| ==> x[i].name != x[j].name
  }

  /** Segment `i` of `x` lists `l` as an active FB2 record at position `j`. */
  ghost predicate Lists(x: Inpx, i: int, j: int, l: LibId) {
    0 <= i < |x| && 0 <= j < |x[i].records| && IsActive(x[i].records[j]) && x[i].records[j].libId == l
  }

  ghost predicate Listed(x: Inpx, l: LibId) {
    exists i, j :: Lists(x, i, j, l)
  }

  /** No LibId is active twice, within a segment or across segments. */
  ghost predicate Unambiguous(x: Inpx) {
    && DistinctNames(x)
    && forall i, j, i', j', l :: Lists(x, i, j, l) && Lists(x, i', j', l) ==> i == i' && j == j'
  }

  /** Some segment after `i` deletes `l`. */
  ghost predicate DeletedAfter(x: Inpx, i: int, l: LibId) {
    exists k :: i < k < |x| && 0 <= k && l in DeletedIds(x[k].records)
  }

  /** The archive facts cover exactly the segments that need an archive, and every active
    * record's payload is in its archive. */
  ghost predicate FactsFit(x: Inpx, facts: ArchiveFacts) {
    && (forall i :: 0 <= i < |x| ==> (x[i].name in facts <==> RequiresArchive(x[i].records)))
    && (forall i, j :: 0 <= i < |x| && 0 <= j < |x[i].records| && IsActive(x[i].records[j])
                       ==> x[i].name in facts && x[i].records[j].entry in facts[x[i].name].manifest)
  }

  // ---------------------------------------------------------------- the declared outcome

  ghost function IndexOf(x: Inpx, s: SegmentName): (i: nat)
    requires s in Names(x)
    ensures i < |x| && x[i].name == s
  {
    var i :| 0 <= i < |x| && x[i].name == s;
    i
  }

  function FactsOf(facts: ArchiveFacts, s: SegmentName): Option<ArchiveInfo> {
    if s in facts then Some(facts[s]) else None
  }

  function FreshSegmentRow(seg: Segment, order: nat, archive: Option<ArchiveInfo>): SegmentRow {
    SegmentRow(seg.records, order, |seg.records|, CountDeleted(seg.records), true, archive)
  }

  ghost function RebuiltSegments(c: Catalog, x: Inpx, facts: ArchiveFacts): map<SegmentName, SegmentRow> {
    map s | s in Names(x) + c.segments.Keys ::
      if s in Names(x) then FreshSegmentRow(x[IndexOf(x, s)], IndexOf(x, s), FactsOf(facts, s))
      else c.segments[s].(available := false)
  }

  ghost function RebuiltDeletions(x: Inpx): set<(SegmentName, LibId)> {
    set i, l | 0 <= i < |x| && l in DeletedIds(x[i].records) :: (x[i].name, l)
  }

  ghost function AllActive(x: Inpx): set<LibId> {
    set i, l | 0 <= i < |x| && l in ActiveIds(x[i].records) :: l
  }

  ghost function Owner(x: Inpx, l: LibId): (p: (nat, nat))
    requires Listed(x, l)
    ensures Lists(x, p.0, p.1, l)
  {
    var i, j :| Lists(x, i, j, l);
    (i, j)
  }

  ghost function ListedRow(x: Inpx, facts: ArchiveFacts, l: LibId): BookRow
    requires Listed(x, l) && FactsFit(x, facts)
  {
    var (i, j) := Owner(x, l);
    var r := x[i].records[j];
    BookRow(x[i].name, r, facts[x[i].name].manifest[r.entry], true, !DeletedAfter(x, i, l))
  }

  ghost function UnlistedRow(x: Inpx, row: BookRow): BookRow {
    row.(present := row.present && row.segment !in Names(x), available := false)
  }

  lemma AllActiveListed(x: Inpx, l: LibId)
    ensures l in AllActive(x) <==> Listed(x, l)
  {
    if l in AllActive(x) {
      var i :| 0 <= i < |x| && l in ActiveIds(x[i].records);
      var j :| 0 <= j < |x[i].records| && IsActive(x[i].records[j]) && x[i].records[j].libId == l;
      assert Lists(x, i, j, l);
    }
    if Listed(x, l) {
      var (i, j) := Owner(x, l);
      assert l in ActiveIds(x[i].records);
    }
  }

  ghost function RebuiltBooks(c: Catalog, x: Inpx, facts: ArchiveFacts): map<LibId, BookRow>
    requires FactsFit(x, facts)
  {
    map l | l in AllActive(x) + c.books.Keys ::
      AllActiveListed(x, l);
      if Listed(x, l) then ListedRow(x, facts, l) else UnlistedRow(x, c.books[l])
  }

  /** The catalog a full rebuild declares: each table written straight from the snapshot,
    * with unlisted rows kept and marked missing. */
  ghost function Rebuilt(c: Catalog, x: Inpx, facts: ArchiveFacts): Catalog
    requires FactsFit(x, facts)
  {
    Catalog(RebuiltSegments(c, x, facts), RebuiltDeletions(x), RebuiltBooks(c, x, facts))
  }

  // ---------------------------------------------------------------- the invariant

  /** The stored deletion rows and present books of an available segment are exactly what its
    * records say, and the books hold the payloads of the archive the row names. */
  ghost predicate SegmentContentMatches(c: Catalog, s: SegmentName)
    requires s in c.segments
  {
    var row := c.segments[s];
    && row.total == |row.records|
    && row.deletedCount == CountDeleted(row.records)
    && (row.archive.Some? <==> RequiresArchive(row.records))
    && DistinctActive(row.records)
    && (forall l :: (s, l) in c.deletions <==> l in DeletedIds(row.records))
    && (forall j :: 0 <= j < |row.records| && IsActive(row.records[j]) ==> ActiveRecordStored(c, s, row.records[j]))
    && (forall l :: l in c.books && c.books[l].segment == s && c.books[l].present ==> l in ActiveIds(row.records))
  }

  ghost predicate ActiveRecordStored(c: Catalog, s: SegmentName, r: Record)
    requires s in c.segments
  {
    && c.segments[s].archive.Some?
    && r.entry in c.segments[s].archive.value.manifest
    && r.libId in c.books
    && var b := c.books[r.libId];
       b.segment == s && b.present && b.record == r && b.book == c.segments[s].archive.value.manifest[r.entry]
  }

  /** What the two availability UPDATE statements compute for one location. */
  predicate Eligible(segments: map<SegmentName, SegmentRow>, deletions: set<(SegmentName, LibId)>, l: LibId,
                     row: BookRow) {
    && row.present
    && row.segment in segments && segments[row.segment].available
    && !exists d :: d in deletions && DeletesLater(segments, d, l, segments[row.segment].order)
  }

  predicate DeletesLater(segments: map<SegmentName, SegmentRow>, d: (SegmentName, LibId), l: LibId, order: nat) {
    d.1 == l && d.0 in segments && segments[d.0].available && segments[d.0].order > order
  }

  ghost predicate Inv(c: Catalog) {
    && (forall s :: s in c.segments && c.segments[s].available ==> SegmentContentMatches(c, s))
    && (forall s, l :: (s, l) in c.deletions ==> s in c.segments && c.segments[s].available)
    && (forall l :: l in c.books ==> c.books[l].segment in c.segments)
    && (forall l :: l in c.books ==> c.books[l].record.libId == l)
    && (forall l :: l in c.books ==> (c.books[l].available <==> Eligible(c.segments, c.deletions, l, c.books[l])))
  }

  lemma EmptyInv()
    ensures Inv(EMPTY_CATALOG)
  {
  }
}
