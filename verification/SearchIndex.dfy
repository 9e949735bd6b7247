/** The contentless search index: a row can only be removed by building again, from the stored
  * rows, exactly the document that was inserted.
  *
  * An entity row (author, tag or genre) is identified by its normalised name; its display name is
  * the one of whichever book mentioned it first. */
module SearchIndex {
  import opened Wrappers
  import opened Bytes
  import opened MetadataNormalization

  type BookId = nat

  datatype Metadata = Metadata(title: Bytes, authors: seq<Bytes>, tags: seq<Bytes>, genres: seq<Bytes>,
                               description: Option<Bytes>)

  datatype Document = Document(title: Bytes, authors: Bytes, tags: Bytes, genres: Bytes, description: Bytes)

  // ---------------------------------------------------------------- the document of a book

  function Self(b: Bytes): Bytes { b }

  /** The keys of the values that have one, in order. */
  ghost function Keys(key: Bytes -> Bytes, values: seq<Bytes>): seq<Bytes> {
    if values == [] then []
    else
      var k := key(values[|values| - 1]);
      Keys(key, values[..|values| - 1]) + if k == [] then [] else [k]
  }

  function Joined(keys: seq<Bytes>): Bytes {
    if keys == [] then []
    else
      var front := Joined(keys[..|keys| - 1]);
      (if front == [] then [] else front + [SPACE]) + keys[|keys| - 1]
  }

  ghost function JoinedText(key: Bytes -> Bytes, values: seq<Bytes>, sorted: bool): Bytes {
    Joined(if sorted then Sort(Self, Keys(key, values)) else Keys(key, values))
  }

  ghost function DocumentOf(key: Bytes -> Bytes, m: Metadata): Document {
    Document(key(m.title), JoinedText(key, m.authors, false), JoinedText(key, m.tags, true), JoinedText(key, m.genres, true),
             if m.description.Some? then key(m.description.value) else [])
  }

  method CollectKeys(values: seq<Bytes>) returns (keys: seq<Bytes>)
    ensures keys == Keys(TextKey, values)
  {
    keys := [];
    for i := 0 to |values|
      invariant keys == Keys(TextKey, values[..i])
    {
      assert values[..i + 1][..i] == values[..i];
      var k := NormalizeText(values[i]);
      if k != [] { keys := keys + [k]; }
    }
    assert values[..|values|] == values;
  }

  method JoinKeys(keys: seq<Bytes>) returns (joined: Bytes)
    ensures joined == Joined(keys)
  {
    joined := [];
    for i := 0 to |keys|
      invariant joined == Joined(keys[..i])
    {
      assert keys[..i + 1][..i] == keys[..i];
      if joined != [] { joined := joined + [SPACE]; }
      joined := joined + keys[i];
    }
    assert keys[..|keys|] == keys;
  }

  /** JoinNormalizedText. */
  method JoinNormalizedText(values: seq<Bytes>, sorted: bool) returns (joined: Bytes)
    ensures joined == JoinedText(TextKey, values, sorted)
  {
    var keys := CollectKeys(values);
    if sorted { keys := Sort(Self, keys); }
    joined := JoinKeys(keys);
  }

  /** BuildNormalizedSearchDocument. */
  method BuildDocument(m: Metadata) returns (d: Document)
    ensures d == Filed(m)
  {
    var title := NormalizeText(m.title);
    var authors := JoinNormalizedText(m.authors, false);
    var tags := JoinNormalizedText(m.tags, true);
    var genres := JoinNormalizedText(m.genres, true);
    var description: Bytes := [];
    if m.description.Some? { description := NormalizeText(m.description.value); }
    return Document(title, authors, tags, genres, description);
  }

  // ---------------------------------------------------------------- what linking keeps

  /** The keys under which the values are linked: each at its first mention only. */
  ghost function FirstKeys(key: Bytes -> Bytes, values: seq<Bytes>): seq<Bytes> {
    if values == [] then []
    else
      var first, k := FirstKeys(key, values[..|values| - 1]), key(values[|values| - 1]);
      if k == [] || k in first then first else first + [k]
  }

  /** No two values share a key, apart from values without one. */
  ghost predicate NoTwins(key: Bytes -> Bytes, values: seq<Bytes>) {
    forall i, j :: 0 <= i < j < |values| && key(values[i]) != [] ==> key(values[i]) != key(values[j])
  }

  lemma {:induction false} SameKeys(key: Bytes -> Bytes, values: seq<Bytes>, k: Bytes)
    ensures k in Keys(key, values) <==> k in FirstKeys(key, values)
  {
    if values != [] {
      SameKeys(key, values[..|values| - 1], k);
      SameKeys(key, values[..|values| - 1], key(values[|values| - 1]));
    }
  }

  lemma {:induction false} KeysAre(key: Bytes -> Bytes, values: seq<Bytes>, k: Bytes)
    ensures k in Keys(key, values) <==> k != [] && exists i :: 0 <= i < |values| && key(values[i]) == k
  {
    if values != [] {
      var n := |values| - 1;
      KeysAre(key, values[..n], k);
      assert forall i :: 0 <= i < n ==> values[..n][i] == values[i];
      assert k in Keys(key, values) <==> k in Keys(key, values[..n]) || (k == key(values[n]) && k != []);
    }
  }

  lemma {:induction false} FirstKeysAreDistinct(key: Bytes -> Bytes, values: seq<Bytes>)
    ensures forall i, j ::
      0 <= i < j < |FirstKeys(key, values)| ==> FirstKeys(key, values)[i] != FirstKeys(key, values)[j]
    ensures forall i :: 0 <= i < |FirstKeys(key, values)| ==> FirstKeys(key, values)[i] != []
  {
    if values != [] { FirstKeysAreDistinct(key, values[..|values| - 1]); }
  }

  /** The length of the keys with a separator after each. */
  function Weight(keys: seq<Bytes>): nat {
    if keys == [] then 0 else Weight(keys[..|keys| - 1]) + |keys[|keys| - 1]| + 1
  }

  ghost predicate AllNonEmpty(keys: seq<Bytes>) { forall i :: 0 <= i < |keys| ==> keys[i] != [] }

  lemma {:induction false} JoinedWeight(keys: seq<Bytes>)
    requires AllNonEmpty(keys)
    ensures |Joined(keys)| + (if keys == [] then 0 else 1) == Weight(keys)
  {
    if keys != [] { JoinedWeight(keys[..|keys| - 1]); }
  }

  lemma {:induction false} KeysAreNonEmpty(key: Bytes -> Bytes, values: seq<Bytes>)
    ensures AllNonEmpty(Keys(key, values))
  {
    if values != [] { KeysAreNonEmpty(key, values[..|values| - 1]); }
  }

  lemma WeightConcat(a: seq<Bytes>, b: seq<Bytes>)
    ensures Weight(a + b) == Weight(a) + Weight(b)
    decreases |b|
  {
    if b == [] {
      assert a + b == a;
    } else {
      WeightConcat(a, b[..|b| - 1]);
      assert (a + b)[..|a + b| - 1] == a + b[..|b| - 1];
    }
  }

  lemma {:induction false} InsertWeight(x: Bytes, s: seq<Bytes>)
    ensures Weight(Insert(Self, x, s)) == Weight([x]) + Weight(s)
  {
    if s == [] {
    } else if AtMost(x, s[0]) {
      WeightConcat([x], s);
    } else {
      InsertWeight(x, s[1..]);
      WeightConcat([s[0]], Insert(Self, x, s[1..]));
      WeightConcat([s[0]], s[1..]);
      assert s == [s[0]] + s[1..];
    }
  }

  lemma {:induction false} SortWeight(s: seq<Bytes>)
    ensures Weight(Sort(Self, s)) == Weight(s)
  {
    if s != [] {
      SortWeight(s[1..]);
      InsertWeight(s[0], Sort(Self, s[1..]));
      WeightConcat([s[0]], s[1..]);
      assert s == [s[0]] + s[1..];
    }
  }

  lemma SortIsNonEmpty(s: seq<Bytes>)
    requires AllNonEmpty(s)
    ensures AllNonEmpty(Sort(Self, s))
  {
    SortSorts(Self, s);
    forall i | 0 <= i < |Sort(Self, s)| ensures Sort(Self, s)[i] != [] {
      assert Sort(Self, s)[i] in multiset(s);
    }
  }

  lemma NoTwinsStep(key: Bytes -> Bytes, values: seq<Bytes>)
    requires values != []
    ensures var front, k := values[..|values| - 1], key(values[|values| - 1]);
      NoTwins(key, values) <==> NoTwins(key, front) && (k == [] || k !in FirstKeys(key, front))
  {
    var n := |values| - 1;
    var front, k := values[..n], key(values[n]);
    assert forall i :: 0 <= i < n ==> front[i] == values[i];
    KeysAre(key, front, k);
    SameKeys(key, front, k);
  }

  /** The same, value by value: each was linked when its turn came. */
  ghost predicate Twinless(key: Bytes -> Bytes, values: seq<Bytes>) {
    values == []
    || (var front, k := values[..|values| - 1], key(values[|values| - 1]);
        Twinless(key, front) && (k == [] || k !in FirstKeys(key, front)))
  }

  lemma {:induction false} TwinlessIff(key: Bytes -> Bytes, values: seq<Bytes>)
    ensures Twinless(key, values) <==> NoTwins(key, values)
  {
    if values != [] {
      TwinlessIff(key, values[..|values| - 1]);
      NoTwinsStep(key, values);
    }
  }

  lemma {:induction false} TwinlessLosesNothing(key: Bytes -> Bytes, values: seq<Bytes>)
    requires Twinless(key, values)
    ensures FirstKeys(key, values) == Keys(key, values)
  {
    if values != [] { TwinlessLosesNothing(key, values[..|values| - 1]); }
  }

  lemma {:induction false} LinkingLosesWeight(key: Bytes -> Bytes, values: seq<Bytes>)
    ensures Weight(FirstKeys(key, values)) + (if Twinless(key, values) then 0 else 1) <= Weight(Keys(key, values))
  {
    if values != [] {
      var front, k := values[..|values| - 1], key(values[|values| - 1]);
      LinkingLosesWeight(key, front);
      KeysWeight(key, front, k);
      FirstKeysWeight(key, front, k);
    }
  }

  lemma WeightOne(s: seq<Bytes>, k: Bytes)
    ensures Weight(s + [k]) == Weight(s) + |k| + 1
  {
    assert (s + [k])[..|s|] == s;
  }

  lemma KeysWeight(key: Bytes -> Bytes, front: seq<Bytes>, k: Bytes)
    ensures Weight(Keys(key, front) + if k == [] then [] else [k]) == Weight(Keys(key, front)) + if k ==
      [] then 0 else |k| + 1
  {
    WeightOne(Keys(key, front), k);
    assert Keys(key, front) + [] == Keys(key, front);
  }

  lemma FirstKeysWeight(key: Bytes -> Bytes, front: seq<Bytes>, k: Bytes)
    ensures Weight(FirstKeys(key, front) + [k]) == Weight(FirstKeys(key, front)) + |k| + 1
  {
    WeightOne(FirstKeys(key, front), k);
  }

  /** Linking loses nothing exactly when there are no twins; otherwise it loses weight. */
  lemma TwinsLoseWeight(key: Bytes -> Bytes, values: seq<Bytes>)
    ensures NoTwins(key, values) ==> FirstKeys(key, values) == Keys(key, values)
    ensures !NoTwins(key, values) ==> Weight(FirstKeys(key, values)) < Weight(Keys(key, values))
  {
    TwinlessIff(key, values);
    if Twinless(key, values) { TwinlessLosesNothing(key, values); }
    LinkingLosesWeight(key, values);
  }

  // ---------------------------------------------------------------- reading names back

  /** The names of an entity table by key; every name has the key it is filed under. */
  type Names = map<Bytes, Bytes>

  ghost predicate NamesRight(key: Bytes -> Bytes, names: Names) {
    forall k :: k in names ==> k != [] && key(names[k]) == k
  }

  predicate LinksIn(names: Names, links: seq<Bytes>) { forall i :: 0 <= i < |links| ==> links[i] in names }

  /** ReadRelatedEntityNames: the display names of linked entities. */
  function NamesOf(names: Names, links: seq<Bytes>): (r: seq<Bytes>)
    requires LinksIn(names, links)
    ensures |r| == |links| && forall i :: 0 <= i < |r| ==> r[i] == names[links[i]]
  {
    seq(|links|, i requires 0 <= i < |links| => names[links[i]])
  }

  /** Whoever named an entity, its name leads back to the link. */
  lemma {:induction false} KeysOfNames(key: Bytes -> Bytes, names: Names, links: seq<Bytes>)
    requires NamesRight(key, names) && LinksIn(names, links)
    ensures Keys(key, NamesOf(names, links)) == links
  {
    if links != [] {
      var n := |links| - 1;
      KeysOfNames(key, names, links[..n]);
      assert NamesOf(names, links)[..n] == NamesOf(names, links[..n]);
      assert links == links[..n] + [links[n]];
    }
  }

  lemma LengthTellsApart(a: seq<Bytes>, b: seq<Bytes>)
    requires AllNonEmpty(a) && AllNonEmpty(b) && Weight(a) < Weight(b)
    ensures Joined(a) != Joined(b)
  {
    JoinedWeight(a);
    JoinedWeight(b);
  }

  /** Reading authors back in order gives the indexed text exactly when there are no twins. */
  lemma OrderedRoundTripIff(key: Bytes -> Bytes, names: Names, values: seq<Bytes>)
    requires NamesRight(key, names) && LinksIn(names, FirstKeys(key, values))
    ensures JoinedText(key, NamesOf(names, FirstKeys(key, values)), false) == JoinedText(key, values, false) <==> NoTwins(key, values)
  {
    KeysOfNames(key, names, FirstKeys(key, values));
    TwinsLoseWeight(key, values);
    FirstKeysAreDistinct(key, values);
    KeysAreNonEmpty(key, values);
    if !NoTwins(key, values) { LengthTellsApart(FirstKeys(key, values), Keys(key, values)); }
  }

  /** Reading tags or genres back, in whatever order the database returns them. */
  lemma SortedRoundTripIff(key: Bytes -> Bytes, names: Names, values: seq<Bytes>, order: seq<Bytes>)
    requires NamesRight(key, names) && LinksIn(names, order) && multiset(order) == multiset(FirstKeys(key, values))
    ensures JoinedText(key, NamesOf(names, order), true) == JoinedText(key, values, true) <==> NoTwins(key, values)
  {
    var first := FirstKeys(key, values);
    KeysOfNames(key, names, order);
    SortForgetsOrder(Self, order, first);
    TwinsLoseWeight(key, values);
    FirstKeysAreDistinct(key, values);
    KeysAreNonEmpty(key, values);
    if !NoTwins(key, values) {
      SortWeight(first);
      SortWeight(Keys(key, values));
      SortIsNonEmpty(first);
      SortIsNonEmpty(Keys(key, values));
      LengthTellsApart(Sort(Self, first), Sort(Self, Keys(key, values)));
    }
  }

  // ---------------------------------------------------------------- the stored rows

  /** The rows of one book; links are listed in insertion order. */
  datatype Row = Row(title: Bytes, description: Option<Bytes>, authors: seq<Bytes>, tags: seq<Bytes>,
                     genres: seq<Bytes>)

  datatype Tables = Tables(authors: Names, tags: Names, genres: Names, rows: map<BookId, Row>)

  ghost predicate TablesRight(key: Bytes -> Bytes, t: Tables) {
    NamesRight(key, t.authors) && NamesRight(key, t.tags) && NamesRight(key, t.genres)
  }

  ghost predicate RowLinked(t: Tables, r: Row) {
    LinksIn(t.authors, r.authors) && LinksIn(t.tags, r.tags) && LinksIn(t.genres, r.genres)
  }

  /** The row that was written for this metadata. */
  ghost function RowOf(key: Bytes -> Bytes, m: Metadata): Row {
    Row(m.title, m.description, FirstKeys(key, m.authors), FirstKeys(key, m.tags), FirstKeys(key, m.genres))
  }

  /** The orders in which the database returns tags and genres. */
  datatype Arrangement = Arrangement(tags: seq<Bytes>, genres: seq<Bytes>)

  ghost predicate Arranges(o: Arrangement, r: Row) {
    multiset(o.tags) == multiset(r.tags) && multiset(o.genres) == multiset(r.genres)
  }

  /** ReadStoredMetadata. */
  function Stored(t: Tables, r: Row, o: Arrangement): Metadata {
    if LinksIn(t.authors, r.authors) && LinksIn(t.tags, o.tags) && LinksIn(t.genres, o.genres)
    then Metadata(r.title, NamesOf(t.authors, r.authors), NamesOf(t.tags, o.tags), NamesOf(t.genres, o.genres), r.description)
    else Metadata(r.title, [], [], [], r.description)
  }

  ghost predicate NoTwinLists(key: Bytes -> Bytes, m: Metadata) {
    NoTwins(key, m.authors) && NoTwins(key, m.tags) && NoTwins(key, m.genres)
  }

  lemma ArrangedIsLinked(names: Names, order: seq<Bytes>, links: seq<Bytes>)
    requires multiset(order) == multiset(links) && LinksIn(names, links)
    ensures LinksIn(names, order)
  {
    forall i | 0 <= i < |order| ensures order[i] in names { assert order[i] in multiset(links); }
  }

  lemma StoredReadsBack(key: Bytes -> Bytes, t: Tables, m: Metadata, o: Arrangement)
    requires RowLinked(t, RowOf(key, m)) && Arranges(o, RowOf(key, m))
    ensures LinksIn(t.tags, o.tags) && LinksIn(t.genres, o.genres)
    ensures Stored(t, RowOf(key, m), o) ==
      Metadata(m.title, NamesOf(t.authors, FirstKeys(key, m.authors)), NamesOf(t.tags, o.tags), NamesOf(t.genres, o.genres), m.description)
  {
    ArrangedIsLinked(t.tags, o.tags, RowOf(key, m).tags);
    ArrangedIsLinked(t.genres, o.genres, RowOf(key, m).genres);
  }

  /** The document built from stored rows is the document that was indexed exactly when no list of
    * the metadata holds two entries with the same non-empty key. */
  lemma RebuiltDocumentIff(key: Bytes -> Bytes, t: Tables, m: Metadata, o: Arrangement)
    requires TablesRight(key, t) && RowLinked(t, RowOf(key, m)) && Arranges(o, RowOf(key, m))
    ensures DocumentOf(key, Stored(t, RowOf(key, m), o)) == DocumentOf(key, m) <==> NoTwinLists(key, m)
  {
    StoredReadsBack(key, t, m, o);
    OrderedRoundTripIff(key, t.authors, m.authors);
    SortedRoundTripIff(key, t.tags, m.tags, o.tags);
    SortedRoundTripIff(key, t.genres, m.genres, o.genres);
  }

  // ---------------------------------------------------------------- the words of a document

  /** The pieces between blanks. */
  function Terms(s: Bytes): (r: set<Bytes>) {
    if s == [] then {}
    else if s[|s| - 1] == SPACE then Terms(s[..|s| - 1])
    else
      var tail := LastTerm(s);
      Terms(s[..|s| - |tail|]) + {tail}
  }

  /** What follows the last blank. */
  function LastTerm(s: Bytes): (r: Bytes)
    ensures |r| <= |s| && (s != [] && s[|s| - 1] != SPACE ==> r != [])
  {
    if s == [] || s[|s| - 1] == SPACE then [] else LastTerm(s[..|s| - 1]) + [s[|s| - 1]]
  }

  lemma {:induction false} LastTermBehind(a: Bytes, b: Bytes)
    ensures LastTerm(a + [SPACE] + b) == LastTerm(b)
    decreases |b|
  {
    var s := a + [SPACE] + b;
    if b != [] {
      assert s[|s| - 1] == b[|b| - 1] && s[..|s| - 1] == a + [SPACE] + b[..|b| - 1];
      LastTermBehind(a, b[..|b| - 1]);
    }
  }

  lemma {:induction false} TermsBehind(a: Bytes, b: Bytes)
    ensures Terms(a + [SPACE] + b) == Terms(a) + Terms(b)
    decreases |b|
  {
    var s := a + [SPACE] + b;
    if b == [] {
      assert s == a + [SPACE] && s[..|s| - 1] == a;
    } else {
      assert s[|s| - 1] == b[|b| - 1];
      if b[|b| - 1] == SPACE {
        assert s[..|s| - 1] == a + [SPACE] + b[..|b| - 1];
        TermsBehind(a, b[..|b| - 1]);
      } else {
        LastTermBehind(a, b);
        var tail := LastTerm(b);
        assert s[..|s| - |tail|] == a + [SPACE] + b[..|b| - |tail|];
        TermsBehind(a, b[..|b| - |tail|]);
      }
    }
  }

  ghost function TermsOf(keys: seq<Bytes>): set<Bytes> {
    set k, w | k in keys && w in Terms(k) :: w
  }

  lemma TermsOfLast(keys: seq<Bytes>)
    requires keys != []
    ensures TermsOf(keys) == TermsOf(keys[..|keys| - 1]) + Terms(keys[|keys| - 1])
  {
    assert keys == keys[..|keys| - 1] + [keys[|keys| - 1]];
  }

  /** Joining keys keeps their words. */
  lemma {:induction false} JoinedTerms(keys: seq<Bytes>)
    ensures Terms(Joined(keys)) == TermsOf(keys)
  {
    if keys != [] {
      var front, k := keys[..|keys| - 1], keys[|keys| - 1];
      JoinedTerms(front);
      TermsOfLast(keys);
      if Joined(front) != [] {
        TermsBehind(Joined(front), k);
      } else {
        assert Terms(Joined(front)) == {} && [] + k == k;
      }
    }
  }

  /** A word stands in the text between blanks or ends. */
  ghost predicate StandsAt(s: Bytes, i: nat, j: nat, w: Bytes) {
    && i < j <= |s| && s[i..j] == w && (forall k :: i <= k < j ==> s[k] != SPACE)
    && (i == 0 || s[i - 1] == SPACE) && (j == |s| || s[j] == SPACE)
  }

  lemma {:induction false} LastTermStands(s: Bytes)
    requires s != [] && s[|s| - 1] != SPACE
    ensures StandsAt(s, |s| - |LastTerm(s)|, |s|, LastTerm(s))
  {
    var n := |s| - 1;
    assert LastTerm(s) == LastTerm(s[..n]) + [s[n]];
    if n > 0 && s[n - 1] != SPACE {
      LastTermStands(s[..n]);
      assert s[..n][n - |LastTerm(s[..n])|..] == LastTerm(s[..n]);
      StandsLonger(s, n - |LastTerm(s[..n])|);
    } else {
      assert LastTerm(s[..n]) == [] && s[n..] == [s[n]];
    }
  }

  lemma StandsLonger(s: Bytes, i: nat)
    requires i < |s| - 1 && s[|s| - 1] != SPACE && StandsAt(s[..|s| - 1], i, |s| - 1, s[..|s| - 1][i..])
    ensures StandsAt(s, i, |s|, s[..|s| - 1][i..] + [s[|s| - 1]])
  {
    assert s[i..|s|] == s[..|s| - 1][i..] + [s[|s| - 1]];
    forall k | i <= k < |s| - 1 ensures s[k] != SPACE { assert s[..|s| - 1][k] == s[k]; }
  }

  lemma StandsInFront(s: Bytes, n: nat, i: nat, j: nat, w: Bytes)
    requires n <= |s| && j <= n && (n == 0 || n == |s| || s[n] == SPACE || (n > 0 && s[n - 1] == SPACE))
    ensures StandsAt(s, i, j, w) <==> StandsAt(s[..n], i, j, w)
  {
    if i < j { assert s[..n][i..j] == s[i..j]; }
  }

  /** The words of a text are what stands in it between blanks. */
  lemma {:induction false} TermsStand(s: Bytes, w: Bytes)
    ensures w in Terms(s) <==> exists i: nat, j: nat :: StandsAt(s, i, j, w)
    decreases |s|
  {
    if s != [] {
      var n := |s| - if s[|s| - 1] == SPACE then 1 else |LastTerm(s)|;
      if s[|s| - 1] != SPACE { LastTermStands(s); }
      TermsStand(s[..n], w);
      forall i: nat, j: nat | j <= n ensures StandsAt(s, i, j, w) <==> StandsAt(s[..n], i, j, w) {
        StandsInFront(s, n, i, j, w);
      }
      forall i: nat, j: nat | j > n && StandsAt(s, i, j, w) ensures s[|s| - 1] != SPACE && w == LastTerm(s) {
        StandsLast(s, n, i, j, w);
      }
    }
  }

  /** Whatever stands beyond the front is the last word. */
  lemma StandsLast(s: Bytes, n: nat, i: nat, j: nat, w: Bytes)
    requires s != [] && n == |s| - (if s[|s| - 1] == SPACE then 1 else |LastTerm(s)|)
    requires s[|s| - 1] != SPACE ==> StandsAt(s, n, |s|, LastTerm(s))
    requires StandsAt(s, i, j, w) && j > n
    ensures s[|s| - 1] != SPACE && w == LastTerm(s)
  {
  }

  /** What is indexed of a list: a word of the key of one of its entries. */
  lemma JoinedTextTerms(key: Bytes -> Bytes, values: seq<Bytes>, sorted: bool, w: Bytes)
    ensures w in Terms(JoinedText(key, values, sorted)) <==> exists i :: 0 <= i < |values| && w in Terms(key(values[i]))
  {
    var keys := Keys(key, values);
    var order := if sorted then Sort(Self, keys) else keys;
    SortSorts(Self, keys);
    ArrangedMembers(order, keys);
    JoinedTerms(order);
    if w in TermsOf(order) {
      var k :| k in order && w in Terms(k);
      KeysAre(key, values, k);
    }
    forall i | 0 <= i < |values| && w in Terms(key(values[i])) ensures w in TermsOf(order) {
      KeysAre(key, values, key(values[i]));
    }
  }

  lemma SameMembersSameTerms(a: seq<Bytes>, b: seq<Bytes>)
    requires forall k :: k in a <==> k in b
    ensures TermsOf(a) == TermsOf(b)
  {
  }

  lemma ArrangedMembers(a: seq<Bytes>, b: seq<Bytes>)
    requires multiset(a) == multiset(b)
    ensures forall k :: k in a <==> k in b
  {
    forall k ensures k in a <==> k in b { assert k in a <==> k in multiset(a); assert k in b <==> k in multiset(b); }
  }

  /** Whether or not entries share keys, reading a list back keeps its set of words. */
  lemma RelinkedTerms(key: Bytes -> Bytes, names: Names, values: seq<Bytes>, order: seq<Bytes>, sorted: bool)
    requires NamesRight(key, names) && LinksIn(names, order) && multiset(order) == multiset(FirstKeys(key, values))
    ensures Terms(JoinedText(key, NamesOf(names, order), sorted)) == Terms(JoinedText(key, values, sorted))
  {
    KeysOfNames(key, names, order);
    var mine, theirs := if sorted then Sort(Self, order) else order, if sorted then Sort(Self, Keys(key, values)) else Keys(key, values);
    SortSorts(Self, order);
    SortSorts(Self, Keys(key, values));
    ArrangedMembers(mine, FirstKeys(key, values));
    ArrangedMembers(theirs, Keys(key, values));
    forall k ensures k in mine <==> k in theirs { SameKeys(key, values, k); }
    JoinedTerms(mine);
    JoinedTerms(theirs);
    SameMembersSameTerms(mine, theirs);
  }

  /** The same words in every column. */
  ghost predicate SameTerms(d: Document, e: Document) {
    && d.title == e.title && d.description == e.description
    && Terms(d.authors) == Terms(e.authors) && Terms(d.tags) == Terms(e.tags) && Terms(d.genres) == Terms(e.genres)
  }

  /** Whatever the lists hold, the rebuilt document has the same set of words in each column as the
    * one that was indexed; with twins it differs in how often and where they occur. */
  lemma RebuiltTermsAgree(key: Bytes -> Bytes, t: Tables, m: Metadata, o: Arrangement)
    requires TablesRight(key, t) && RowLinked(t, RowOf(key, m)) && Arranges(o, RowOf(key, m))
    ensures SameTerms(DocumentOf(key, Stored(t, RowOf(key, m), o)), DocumentOf(key, m))
  {
    StoredReadsBack(key, t, m, o);
    RelinkedTerms(key, t.authors, m.authors, FirstKeys(key, m.authors), false);
    RelinkedTerms(key, t.tags, m.tags, o.tags, true);
    RelinkedTerms(key, t.genres, m.genres, o.genres, true);
  }

  // ---------------------------------------------------------------- writing rows and index

  ghost predicate Grows(names: Names, more: Names) { forall k :: k in names ==> k in more && more[k] == names[k] }

  /** ResolveEntityId: inserts the entity unless its key is taken. */
  method ResolveEntity(names: Names, key: Bytes, display: Bytes) returns (r: Names)
    requires NamesRight(TextKey, names) && key == TextKey(display) && key != []
    ensures NamesRight(TextKey, r) && Grows(names, r) && key in r
  {
    r := if key in names then names else names[key := display];
  }

  lemma LinksGrow(names: Names, more: Names, links: seq<Bytes>)
    requires Grows(names, more) && LinksIn(names, links)
    ensures LinksIn(more, links)
  {
  }

  /** The loop shared by InsertAuthors, InsertTags and InsertGenres. */
  method LinkNames(names: Names, values: seq<Bytes>) returns (r: Names, links: seq<Bytes>)
    requires NamesRight(TextKey, names)
    ensures links == FirstKeys(TextKey, values)
    ensures NamesRight(TextKey, r) && Grows(names, r) && LinksIn(r, links)
  {
    r, links := names, [];
    var inserted: set<Bytes> := {};
    for i := 0 to |values|
      invariant links == FirstKeys(TextKey, values[..i]) && inserted == set k | k in links
      invariant NamesRight(TextKey, r) && Grows(names, r) && LinksIn(r, links)
    {
      assert values[..i + 1][..i] == values[..i];
      var k := NormalizeText(values[i]);
      if k != [] && k !in inserted {
        inserted := inserted + {k};
        ghost var before := r;
        r := ResolveEntity(r, k, values[i]);
        LinksGrow(before, r, links);
        links := links + [k];
      }
    }
    assert values[..|values|] == values;
  }

  ghost predicate TablesGrow(t: Tables, u: Tables) {
    Grows(t.authors, u.authors) && Grows(t.tags, u.tags) && Grows(t.genres, u.genres)
  }

  lemma RowStaysLinked(t: Tables, u: Tables, r: Row)
    requires TablesGrow(t, u) && RowLinked(t, r)
    ensures RowLinked(u, r)
  {
    LinksGrow(t.authors, u.authors, r.authors);
    LinksGrow(t.tags, u.tags, r.tags);
    LinksGrow(t.genres, u.genres, r.genres);
  }

  /** `u` holds the rows of `m` for book `b`; entities may have been added, none was renamed. */
  ghost predicate Writes(t: Tables, b: BookId, m: Metadata, u: Tables) {
    && TablesRight(TextKey, u) && TablesGrow(t, u) && u.rows == t.rows[b := RowOf(TextKey, m)]
    && RowLinked(u, RowOf(TextKey, m))
  }

  /** Writes the row of a book and replaces its relations. */
  method WriteRow(t: Tables, b: BookId, m: Metadata) returns (u: Tables)
    requires TablesRight(TextKey, t)
    ensures Writes(t, b, m, u)
  {
    var authors, authorLinks := LinkNames(t.authors, m.authors);
    var tags, tagLinks := LinkNames(t.tags, m.tags);
    var genres, genreLinks := LinkNames(t.genres, m.genres);
    u := Tables(authors, tags, genres, t.rows[b := Row(m.title, m.description, authorLinks, tagLinks, genreLinks)]);
  }

  /** Every book has the rows of its current metadata. */
  ghost predicate RowsRight(t: Tables, current: map<BookId, Metadata>) {
    && TablesRight(TextKey, t) && t.rows.Keys == current.Keys
    && forall b :: b in current ==> t.rows[b] == RowOf(TextKey, current[b]) && RowLinked(t, t.rows[b])
  }

  lemma RowsAfterWriting(t: Tables, u: Tables, current: map<BookId, Metadata>, b: BookId, m: Metadata)
    requires RowsRight(t, current) && Writes(t, b, m, u)
    ensures RowsRight(u, current[b := m])
  {
    forall c | c in current && c != b ensures RowLinked(u, u.rows[c]) { RowStaysLinked(t, u, t.rows[c]); }
  }

  type Index = map<BookId, multiset<Document>>

  /** Every row is filed under its current document and nothing else. */
  ghost predicate IndexRight(document: Metadata -> Document, index: Index, current: map<BookId, Metadata>) {
    index.Keys == current.Keys && forall b :: b in current ==> FiledRight(document, index, current, b)
  }

  ghost predicate FiledRight(document: Metadata -> Document, index: Index, current: map<BookId, Metadata>, b: BookId) {
    b in index && b in current ==> index[b] == multiset{document(current[b])}
  }

  lemma OthersStayFiled(document: Metadata -> Document, index: Index, current: map<BookId, Metadata>, b: BookId,
                        bag: multiset<Document>, m: Metadata)
    requires IndexRight(document, index, current) && b in current
    ensures IndexRight(document, index[b := bag], current[b := m]) <==> bag == multiset{document(m)}
  {
    var index', current' := index[b := bag], current[b := m];
    assert FiledRight(document, index', current', b) <==> bag == multiset{document(m)};
    forall c | c in current && c != b ensures FiledRight(document, index', current', c) {
      assert FiledRight(document, index, current, c);
    }
  }

  lemma IndexAfterReplacing(document: Metadata -> Document, index: Index, current: map<BookId, Metadata>, b: BookId,
                            removed: Document, m: Metadata)
    requires IndexRight(document, index, current) && b in current
    ensures IndexRight(document, Refiled(index, b, removed, document(m)), current[b := m])
      <==> removed == document(current[b])
  {
    assert FiledRight(document, index, current, b);
    OthersStayFiled(document, index, current, b, index[b] - multiset{removed} + multiset{document(m)}, m);
    ReplacedBag(document(current[b]), removed, document(m));
  }

  /** The indexed document of a book. */
  ghost function Filed(m: Metadata): Document { DocumentOf(TextKey, m) }

  // ---------------------------------------------------------------- one insert or update

  /** The tables, the index, and the metadata last written for each book. */
  datatype State = State(tables: Tables, index: Index, current: map<BookId, Metadata>)

  datatype Event = Inserts(b: BookId, m: Metadata) | Updates(b: BookId, m: Metadata, o: Arrangement)

  ghost predicate Consistent(s: State) { RowsRight(s.tables, s.current) && s.index.Keys == s.current.Keys }

  /** InsertInpxBook adds a row and its document; UpdateInpxBook reads the old metadata back, writes
    * the new, deletes the document built from the old and inserts the new one. */
  ghost predicate Step(s: State, e: Event, s': State) {
    && Writes(s.tables, e.b, e.m, s'.tables) && s'.current == s.current[e.b := e.m]
    && match e
       case Inserts(b, m) => b !in s.current && s'.index == s.index[b := multiset{Filed(m)}]
       case Updates(b, m, o) =>
         && b in s.current && b in s.tables.rows && b in s.index && Arranges(o, s.tables.rows[b])
         && s'.index == Refiled(s.index, b, Filed(Stored(s.tables, s.tables.rows[b], o)), Filed(m))
  }

  /** The books, their relations and the search index. */
  class SearchCatalog {
    var tables: Tables
    /** The documents inserted under each row and not deleted since. */
    var index: Index
    /** The metadata last written for each book. */
    ghost var current: map<BookId, Metadata>

    ghost function View(): State
      reads this
    {
      State(tables, index, current)
    }

    ghost predicate Valid()
      reads this
    {
      Consistent(View())
    }

    ghost predicate Indexed()
      reads this
    {
      IndexRight(Filed, index, current)
    }

    ghost predicate Twinfree()
      reads this
    {
      AllTwinless(current)
    }

    constructor ()
      ensures Valid() && Indexed() && Twinfree() && current == map[]
    {
      tables, index, current := Tables(map[], map[], map[], map[]), map[], map[];
    }

    method Write(t: Tables, i: Index, ghost books: map<BookId, Metadata>)
      modifies this
      ensures tables == t && index == i && current == books
    {
      tables, index, current := t, i, books;
    }

    /** InsertInpxBook. */
    method Insert(b: BookId, m: Metadata)
      requires Valid() && b !in current
      modifies this
      ensures Valid() && Step(old(View()), Inserts(b, m), View())
      ensures old(Indexed()) ==> Indexed()
      ensures old(Twinfree()) && NoTwinLists(TextKey, m) ==> Twinfree()
    {
      ghost var before := current;
      var written, filed := AddRow(tables, index, before, b, m);
      if Twinfree() && NoTwinLists(TextKey, m) { NoTwinsAfter(before, b, m); }
      Write(written, filed, before[b := m]);
    }

    /** UpdateInpxBook: reads the old metadata back, writes the new, deletes the document built from
      * the old and inserts the new one.  The index stays right exactly when the old metadata can
      * be read back. */
    method Update(b: BookId, m: Metadata, o: Arrangement) returns (found: bool)
      requires Valid() && (b in current ==> Arranges(o, tables.rows[b]))
      modifies this
      ensures found == (b in old(current)) && Valid()
      ensures if found then Step(old(View()), Updates(b, m, o), View()) else View() == old(View())
      ensures found && old(Indexed()) ==> (Indexed() <==> NoTwinLists(TextKey, old(current)[b]))
      ensures old(Twinfree()) && NoTwinLists(TextKey, m) ==> Twinfree()
    {
      if b !in tables.rows { return false; }
      ghost var before := current;
      var written, refiled := Rewrite(tables, index, before, b, m, o);
      if Twinfree() && NoTwinLists(TextKey, m) { NoTwinsAfter(before, b, m); }
      Write(written, refiled, before[b := m]);
      return true;
    }
  }

  /** The statements of InsertInpxBook, on the tables and the index. */
  method AddRow(t: Tables, index: Index, ghost current: map<BookId, Metadata>, b: BookId, m: Metadata)
    returns (written: Tables, filed: Index)
    requires Consistent(State(t, index, current)) && b !in current
    ensures Consistent(State(written, filed, current[b := m]))
    ensures Step(State(t, index, current), Inserts(b, m), State(written, filed, current[b := m]))
    ensures IndexRight(Filed, index, current) ==> IndexRight(Filed, filed, current[b := m])
  {
    written := WriteRow(t, b, m);
    RowsAfterWriting(t, written, current, b, m);
    if IndexRight(Filed, index, current) { IndexAfterInserting(Filed, index, current, b, m); }
    var document := BuildDocument(m);
    filed := index[b := multiset{document}];
  }

  /** The statements of UpdateInpxBook, on the tables and the index. */
  method Rewrite(t: Tables, index: Index, ghost current: map<BookId, Metadata>, b: BookId, m: Metadata, o: Arrangement)
    returns (written: Tables, refiled: Index)
    requires Consistent(State(t, index, current)) && b in t.rows && Arranges(o, t.rows[b])
    ensures Consistent(State(written, refiled, current[b := m]))
    ensures Step(State(t, index, current), Updates(b, m, o), State(written, refiled, current[b := m]))
    ensures IndexRight(Filed, index, current) ==>
      (IndexRight(Filed, refiled, current[b := m]) <==> NoTwinLists(TextKey, current[b]))
  {
    var stored := Stored(t, t.rows[b], o);
    written := WriteRow(t, b, m);
    RowsAfterWriting(t, written, current, b, m);
    Refiling(t, index, current, b, m, o);
    var removed := BuildDocument(stored);
    var added := BuildDocument(m);
    refiled := Refiled(index, b, removed, added);
  }

  /** One document of a row deleted and another added. */
  function Refiled(index: Index, b: BookId, removed: Document, added: Document): Index
    requires b in index
  {
    index[b := index[b] - multiset{removed} + multiset{added}]
  }

  lemma Refiling(t: Tables, index: Index, current: map<BookId, Metadata>, b: BookId, m: Metadata, o: Arrangement)
    requires RowsRight(t, current) && b in current && Arranges(o, t.rows[b]) && b in index
    ensures IndexRight(Filed, index, current) ==>
      (IndexRight(Filed, Refiled(index, b, Filed(Stored(t, t.rows[b], o)), Filed(m)), current[b := m]) <==> NoTwinLists(TextKey, current[b]))
  {
    RebuiltDocumentIff(TextKey, t, current[b], o);
    if IndexRight(Filed, index, current) {
      IndexAfterReplacing(Filed, index, current, b, Filed(Stored(t, t.rows[b], o)), m);
    }
  }

  lemma IndexAfterInserting(document: Metadata -> Document, index: Index, current: map<BookId, Metadata>, b: BookId,
                            m: Metadata)
    requires IndexRight(document, index, current) && b !in current
    ensures IndexRight(document, index[b := multiset{document(m)}], current[b := m])
  {
  }

  ghost predicate AllTwinless(current: map<BookId, Metadata>) {
    forall b :: b in current ==> NoTwinLists(TextKey, current[b])
  }

  lemma NoTwinsAfter(current: map<BookId, Metadata>, b: BookId, m: Metadata)
    requires AllTwinless(current) && NoTwinLists(TextKey, m)
    ensures AllTwinless(current[b := m])
  {
  }

  lemma ReplacedBag(was: Document, removed: Document, added: Document)
    ensures multiset{was} - multiset{removed} + multiset{added} == multiset{added} <==> was == removed
  {
    if was == removed {
      assert multiset{was} - multiset{removed} == multiset{};
    } else {
      assert (multiset{was} - multiset{removed} + multiset{added})[was] > multiset{added}[was];
    }
  }

  /** A book with the same author twice, as an INPX row may list it: whatever the tables hold besides,
    * the document built from its rows is not the one that was indexed. */
  lemma TwinAuthorsAreNotRebuilt(t: Tables, o: Arrangement)
    requires var m := TWIN_AUTHORS;
      TablesRight(TextKey, t) && RowLinked(t, RowOf(TextKey, m)) && Arranges(o, RowOf(TextKey, m))
    ensures DocumentOf(TextKey, Stored(t, RowOf(TextKey, TWIN_AUTHORS), o)) != DocumentOf(TextKey, TWIN_AUTHORS)
  {
    LetterKey();
    assert TextKey(TWIN_AUTHORS.authors[0]) == TextKey(TWIN_AUTHORS.authors[1]) != [];
    RebuiltDocumentIff(TextKey, t, TWIN_AUTHORS, o);
  }

  const TWIN_AUTHORS := Metadata([], [[0x61], [0x61]], [], [], None)
}
