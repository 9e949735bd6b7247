/** The search index over whole runs of inserts and updates. */
module SearchHistory {
  import opened Runs
  import opened Bytes
  import opened MetadataNormalization
  import opened SearchIndex

  ghost predicate IsRun(states: seq<State>, events: seq<Event>) {
    IsRunOf(Step, states, events) && states[0] == State(Tables(map[], map[], map[], map[]), map[], map[])
  }

  ghost predicate Indexed(s: State) { IndexRight(Filed, s.index, s.current) }

  /** The step rebuilds the document it has to delete: nothing was indexed before, or what is being
    * replaced has no two entries with one key. */
  ghost predicate Rebuilds(s: State, e: Event) {
    e.Updates? ==> e.b in s.current && NoTwinLists(TextKey, s.current[e.b])
  }

  lemma StepIsConsistent(s: State, e: Event, s': State)
    requires Consistent(s) && Step(s, e, s')
    ensures Consistent(s')
  {
    RowsAfterWriting(s.tables, s'.tables, s.current, e.b, e.m);
  }

  lemma StepIndexes(s: State, e: Event, s': State)
    requires Consistent(s) && Indexed(s) && Step(s, e, s') && Rebuilds(s, e)
    ensures Indexed(s')
  {
    match e
    case Inserts(b, m) => IndexAfterInserting(Filed, s.index, s.current, b, m);
    case Updates(b, m, o) => Refiling(s.tables, s.index, s.current, b, m, o);
  }

  // ---------------------------------------------------------------- a stale document never goes away

  /** A row has more than one document. */
  ghost predicate Stale(index: Index, b: BookId) { b in index && |index[b]| > 1 }

  ghost predicate SomeStale(s: State) { exists b :: Stale(s.index, b) }

  lemma BagNeverShrinks(bag: multiset<Document>, removed: Document, added: Document)
    ensures |bag - multiset{removed} + multiset{added}| >= |bag|
  {
    if removed in bag {
      assert |bag - multiset{removed}| == |bag| - 1;
    } else {
      assert bag - multiset{removed} == bag;
    }
  }

  lemma RefiledStaysStale(index: Index, b: BookId, c: BookId, removed: Document, added: Document)
    requires c in index && Stale(index, b)
    ensures Stale(Refiled(index, c, removed, added), b)
  {
    if b == c { BagNeverShrinks(index[b], removed, added); }
  }

  lemma StaleStays(s: State, e: Event, s': State)
    requires Consistent(s) && Step(s, e, s') && SomeStale(s)
    ensures SomeStale(s')
  {
    var b :| Stale(s.index, b);
    match e
    case Inserts(c, m) => assert Stale(s'.index, b);
    case Updates(c, m, o) => RefiledStaysStale(s.index, b, c, Filed(Stored(s.tables, s.tables.rows[c], o)), Filed(m));
  }

  lemma MissedBag(index: Index, b: BookId, was: Document, removed: Document, added: Document)
    requires b in index && index[b] == multiset{was} && was != removed
    ensures Stale(Refiled(index, b, removed, added), b)
  {
    assert multiset{was} - multiset{removed} == multiset{was};
  }

  lemma MissLeavesStale(s: State, e: Event, s': State)
    requires Consistent(s) && Indexed(s) && Step(s, e, s') && !Rebuilds(s, e)
    ensures SomeStale(s')
  {
    assert FiledRight(Filed, s.index, s.current, e.b);
    NotRebuilt(s.tables, s.current, e.b, e.o);
    MissedBag(s.index, e.b, Filed(s.current[e.b]), Filed(Stored(s.tables, s.tables.rows[e.b], e.o)), Filed(e.m));
    assert Stale(s'.index, e.b);
  }

  lemma NotRebuilt(t: Tables, current: map<BookId, Metadata>, b: BookId, o: Arrangement)
    requires RowsRight(t, current) && b in current && b in t.rows && Arranges(o, t.rows[b])
      && !NoTwinLists(TextKey, current[b])
    ensures Filed(current[b]) != Filed(Stored(t, t.rows[b], o))
  {
    RebuiltDocumentIff(TextKey, t, current[b], o);
  }

  lemma StaleIsNotIndexed(s: State)
    requires SomeStale(s)
    ensures !Indexed(s)
  {
    var b :| Stale(s.index, b);
    assert Indexed(s) ==> b in s.current && FiledRight(Filed, s.index, s.current, b);
  }

  // ---------------------------------------------------------------- the theorem

  /** After any run of inserts and updates every row is filed under exactly the document of its
    * current metadata, if and only if no update replaced metadata with two entries of one key: one
    * such update leaves a document that nothing later removes. */
  lemma IndexedIff(states: seq<State>, events: seq<Event>, n: nat)
    requires IsRun(states, events) && n < |states|
    ensures Indexed(states[n]) <==> AllOk(Rebuilds, states, events, n)
    ensures Consistent(states[n])
  {
    forall s, e, s' | Consistent(s) && Step(s, e, s') ensures Consistent(s') { StepIsConsistent(s, e, s'); }
    forall s, e, s' | Consistent(s) && Indexed(s) && Step(s, e, s')
      ensures if Rebuilds(s, e) then Indexed(s') else SomeStale(s')
    {
      if Rebuilds(s, e) { StepIndexes(s, e, s'); } else { MissLeavesStale(s, e, s'); }
    }
    forall s, e, s' | Consistent(s) && SomeStale(s) && Step(s, e, s') ensures SomeStale(s') { StaleStays(s, e, s'); }
    forall s | SomeStale(s) ensures !Indexed(s) { StaleIsNotIndexed(s); }
    GoodIff(Step, Consistent, Indexed, SomeStale, Rebuilds, states, events, n);
  }

  /** Every list of the metadata a step writes is free of twins. */
  ghost predicate WritesTwinless(e: Event) { NoTwinLists(TextKey, e.m) }

  ghost predicate TwinlessStep(s: State, e: Event, s': State) { Step(s, e, s') && WritesTwinless(e) }

  ghost predicate Twinfree(s: State) { AllTwinless(s.current) }

  lemma TwinfreeStays(s: State, e: Event, s': State)
    requires Twinfree(s) && TwinlessStep(s, e, s')
    ensures Twinfree(s')
  {
    NoTwinsAfter(s.current, e.b, e.m);
  }

  lemma TwinfreeRebuilds(s: State, e: Event, s': State)
    requires Twinfree(s) && Step(s, e, s')
    ensures Rebuilds(s, e)
  {
  }

  /** In particular, while only metadata without twins is written, every state is indexed right. */
  lemma TwinlessRunsAreIndexed(states: seq<State>, events: seq<Event>, n: nat)
    requires IsRun(states, events) && n < |states|
    requires forall k :: 0 <= k < |events| ==> WritesTwinless(events[k])
    ensures Indexed(states[n])
  {
    assert IsRunOf(TwinlessStep, states, events);
    forall s, e, s' | Twinfree(s) && TwinlessStep(s, e, s') ensures Twinfree(s') { TwinfreeStays(s, e, s'); }
    forall k | 0 <= k < n ensures Rebuilds(states[k], events[k]) {
      Invariant(TwinlessStep, Twinfree, states, events, k);
      TwinfreeRebuilds(states[k], events[k], states[k + 1]);
    }
    IndexedIff(states, events, n);
  }
  // ---------------------------------------------------------------- posting by posting

  /** What each row can be found by: a token in a column. */
  type Postings = map<BookId, set<(nat, Bytes)>>

  /** The tokens of a column; `split` cuts a piece between blanks into tokens. */
  ghost function ColumnPostings(split: Bytes -> set<Bytes>, column: nat, text: Bytes): set<(nat, Bytes)> {
    set w, token | w in Terms(text) && token in split(w) :: (column, token)
  }

  ghost function PostingsOf(split: Bytes -> set<Bytes>, d: Document): set<(nat, Bytes)> {
    ColumnPostings(split, 0, d.title) + ColumnPostings(split, 1, d.authors) + ColumnPostings(split, 2, d.tags)
    + ColumnPostings(split, 3, d.genres) + ColumnPostings(split, 4, d.description)
  }

  lemma SameTermsSamePostings(split: Bytes -> set<Bytes>, d: Document, e: Document)
    requires SameTerms(d, e)
    ensures PostingsOf(split, d) == PostingsOf(split, e)
  {
  }

  /** The postings of the document an update rebuilds from the rows. */
  ghost function RebuiltPostings(split: Bytes -> set<Bytes>, t: Tables, b: BookId, o: Arrangement): set<(nat, Bytes)> {
    if b in t.rows then PostingsOf(split, Filed(Stored(t, t.rows[b], o))) else {}
  }

  ghost function Written(split: Bytes -> set<Bytes>, m: Metadata): set<(nat, Bytes)> { PostingsOf(split, Filed(m)) }

  ghost function Reposted(p: Postings, b: BookId, removed: set<(nat, Bytes)>, added: set<(nat, Bytes)>): Postings {
    p[b := (if b in p then p[b] else {}) - removed + added]
  }

  /** An insert adds the postings of the document; an update takes away those of the document it
    * rebuilds and adds those of the new one. */
  ghost function Posted(split: Bytes -> set<Bytes>, p: Postings, t: Tables, e: Event): Postings {
    match e
    case Inserts(b, m) => p[b := Written(split, m)]
    case Updates(b, m, o) => Reposted(p, b, RebuiltPostings(split, t, b, o), Written(split, m))
  }

  ghost function CurrentPostings(split: Bytes -> set<Bytes>, current: map<BookId, Metadata>): Postings {
    map b | b in current :: Written(split, current[b])
  }

  lemma CurrentAfter(split: Bytes -> set<Bytes>, current: map<BookId, Metadata>, b: BookId, m: Metadata)
    ensures CurrentPostings(split, current[b := m]) == CurrentPostings(split, current)[b := Written(split, m)]
  {
  }

  lemma RebuiltPostingsAre(split: Bytes -> set<Bytes>, s: State, b: BookId, o: Arrangement)
    requires Consistent(s) && b in s.current && Arranges(o, s.tables.rows[b])
    ensures RebuiltPostings(split, s.tables, b, o) == Written(split, s.current[b])
  {
    RebuiltTermsAgree(TextKey, s.tables, s.current[b], o);
    SameTermsSamePostings(split, Filed(Stored(s.tables, s.tables.rows[b], o)), Filed(s.current[b]));
  }

  lemma RepostedIs(p: Postings, b: BookId, removed: set<(nat, Bytes)>, added: set<(nat, Bytes)>)
    requires b in p && p[b] == removed
    ensures Reposted(p, b, removed, added) == p[b := added]
  {
    assert removed - removed + added == added;
  }

  /** One step keeps the postings right, twins or not. */
  lemma PostedIsCurrent(split: Bytes -> set<Bytes>, s: State, e: Event, s': State)
    requires Consistent(s) && Step(s, e, s')
    ensures Posted(split, CurrentPostings(split, s.current), s.tables, e) == CurrentPostings(split, s'.current)
  {
    CurrentAfter(split, s.current, e.b, e.m);
    match e
    case Inserts(b, m) =>
    case Updates(b, m, o) =>
      RebuiltPostingsAre(split, s, b, o);
      RepostedIs(CurrentPostings(split, s.current), b, Written(split, s.current[b]), Written(split, m));
  }

  /** The postings start empty and follow the steps of a run. */
  ghost predicate PostingsRun(split: Bytes -> set<Bytes>, states: seq<State>, events: seq<Event>,
                              postings: seq<Postings>) {
    && |postings| == |states| == |events| + 1 && postings[0] == map[]
    && forall k {:trigger events[k]} :: 0 <= k < |events| ==>
         postings[k + 1] == Posted(split, postings[k], states[k].tables, events[k])
  }

  lemma NothingPosted(split: Bytes -> set<Bytes>, states: seq<State>, events: seq<Event>, postings: seq<Postings>)
    requires IsRun(states, events) && PostingsRun(split, states, events, postings)
    ensures postings[0] == CurrentPostings(split, states[0].current)
  {
  }

  lemma PostedAt(split: Bytes -> set<Bytes>, states: seq<State>, events: seq<Event>, postings: seq<Postings>, k: nat)
    requires PostingsRun(split, states, events, postings) && k < |events|
    ensures postings[k + 1] == Posted(split, postings[k], states[k].tables, events[k])
  {
    var e := events[k];
  }

  lemma StepAt(states: seq<State>, events: seq<Event>, k: nat)
    requires IsRun(states, events) && k < |events|
    ensures Consistent(states[k]) && Step(states[k], events[k], states[k + 1])
  {
    IndexedIff(states, events, k);
  }

  lemma PostedNext(split: Bytes -> set<Bytes>, states: seq<State>, events: seq<Event>, postings: seq<Postings>, k: nat)
    requires IsRun(states, events) && PostingsRun(split, states, events, postings) && k < |events|
    requires postings[k] == CurrentPostings(split, states[k].current)
    ensures postings[k + 1] == CurrentPostings(split, states[k + 1].current)
  {
    StepAt(states, events, k);
    PostedAt(split, states, events, postings, k);
    PostedIsCurrent(split, states[k], events[k], states[k + 1]);
  }

  /** After any run of inserts and updates, with twins or without, a row is found by exactly the
    * tokens of its current metadata. */
  lemma {:induction false} PostingsAreRight(split: Bytes -> set<Bytes>, states: seq<State>, events: seq<Event>,
                                            postings: seq<Postings>, n: nat)
    requires IsRun(states, events) && PostingsRun(split, states, events, postings) && n < |states|
    ensures postings[n] == CurrentPostings(split, states[n].current)
  {
    if n == 0 {
      NothingPosted(split, states, events, postings);
    } else {
      var k: nat := n - 1;
      PostingsAreRight(split, states, events, postings, k);
      PostedNext(split, states, events, postings, k);
    }
  }

  // ---------------------------------------------------------------- what a row is found by

  /** A token of the normalised text. */
  ghost predicate InText(split: Bytes -> set<Bytes>, text: Bytes, token: Bytes) {
    exists w :: w in Terms(TextKey(text)) && token in split(w)
  }

  /** A token of the normalised text of some value. */
  ghost predicate InList(split: Bytes -> set<Bytes>, values: seq<Bytes>, token: Bytes) {
    exists i :: 0 <= i < |values| && InText(split, values[i], token)
  }

  lemma TextColumn(split: Bytes -> set<Bytes>, column: nat, text: Bytes, token: Bytes)
    ensures (column, token) in ColumnPostings(split, column, TextKey(text)) <==> InText(split, text, token)
  {
  }

  lemma ListColumn(split: Bytes -> set<Bytes>, column: nat, values: seq<Bytes>, sorted: bool, token: Bytes)
    ensures (column, token) in ColumnPostings(split, column, JoinedText(TextKey, values, sorted)) <==>
      InList(split, values, token)
  {
    var text := JoinedText(TextKey, values, sorted);
    if (column, token) in ColumnPostings(split, column, text) {
      var w :| w in Terms(text) && token in split(w);
      JoinedTextTerms(TextKey, values, sorted, w);
    }
    forall i | 0 <= i < |values| && InText(split, values[i], token)
      ensures (column, token) in ColumnPostings(split, column, text)
    {
      var w :| w in Terms(TextKey(values[i])) && token in split(w);
      JoinedTextTerms(TextKey, values, sorted, w);
    }
  }

  /** Where a book's metadata has the token: 0 title, 1 authors, 2 tags, 3 genres, 4 description. */
  ghost predicate InColumn(split: Bytes -> set<Bytes>, m: Metadata, column: nat, token: Bytes) {
    match column
    case 0 => InText(split, m.title, token)
    case 1 => InList(split, m.authors, token)
    case 2 => InList(split, m.tags, token)
    case 3 => InList(split, m.genres, token)
    case 4 => m.description.Some? && InText(split, m.description.value, token)
    case _ => false
  }

  lemma OnlyOwnColumn(split: Bytes -> set<Bytes>, d: Document, column: nat, token: Bytes)
    ensures (column, token) in PostingsOf(split, d) <==>
      match column
      case 0 => (0, token) in ColumnPostings(split, 0, d.title)
      case 1 => (1, token) in ColumnPostings(split, 1, d.authors)
      case 2 => (2, token) in ColumnPostings(split, 2, d.tags)
      case 3 => (3, token) in ColumnPostings(split, 3, d.genres)
      case 4 => (4, token) in ColumnPostings(split, 4, d.description)
      case _ => false
  {
  }

  lemma WrittenColumn(split: Bytes -> set<Bytes>, m: Metadata, column: nat, token: Bytes)
    ensures (column, token) in Written(split, m) <==> InColumn(split, m, column, token)
  {
    OnlyOwnColumn(split, Filed(m), column, token);
    match column
    case 0 => TextColumn(split, 0, m.title, token);
    case 1 => ListColumn(split, 1, m.authors, false, token);
    case 2 => ListColumn(split, 2, m.tags, true, token);
    case 3 => ListColumn(split, 3, m.genres, true, token);
    case 4 => if m.description.Some? { TextColumn(split, 4, m.description.value, token); }
    case _ =>
  }

  /** After any run a book is found by a token in a column exactly if the normalised title, one of the
    * authors, tags or genres, or the description last written for it has that token. */
  lemma FoundByItsMetadata(split: Bytes -> set<Bytes>, states: seq<State>, events: seq<Event>, postings: seq<Postings>,
                           n: nat, b: BookId, column: nat, token: Bytes)
    requires IsRun(states, events) && PostingsRun(split, states, events, postings) && n < |states|
    ensures b in postings[n] <==> b in states[n].current
    ensures b in postings[n] ==>
      ((column, token) in postings[n][b] <==> InColumn(split, states[n].current[b], column, token))
  {
    PostingsAreRight(split, states, events, postings, n);
    if b in states[n].current { WrittenColumn(split, states[n].current[b], column, token); }
  }
}
