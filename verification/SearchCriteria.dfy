/** The criteria a cursor session is bound to: two queries continue the same session exactly when
  * they ask for the same thing. */
module SearchCriteria {
  import opened Wrappers
  import opened Bytes
  import opened MetadataNormalization
  import opened CursorCache

  function Self(b: Bytes): Bytes { b }

  /** std::unique: drops an element equal to the one kept before it. */
  function Unique(s: seq<Bytes>): seq<Bytes> {
    if |s| <= 1 then s
    else if s[|s| - 1] == s[|s| - 2] then Unique(s[..|s| - 1])
    else Unique(s[..|s| - 1]) + [s[|s| - 1]]
  }

  function Canonical(values: seq<Bytes>): seq<Bytes> { Unique(Sort(Self, values)) }

  ghost predicate Distinct(s: seq<Bytes>) { forall i, j :: 0 <= i < j < |s| ==> s[i] != s[j] }

  ghost predicate SameElements(a: seq<Bytes>, b: seq<Bytes>) { forall v :: v in a <==> v in b }

  lemma {:induction false} UniqueOfSorted(s: seq<Bytes>)
    requires SortedBy(Self, s)
    ensures SortedBy(Self, Unique(s)) && Distinct(Unique(s)) && SameElements(Unique(s), s)
    ensures s != [] ==> Unique(s) != [] && Unique(s)[|Unique(s)| - 1] == s[|s| - 1]
  {
    if |s| > 1 {
      var n := |s| - 1;
      var front := s[..n];
      UniqueOfSorted(front);
      assert s == front + [s[n]] && front[n - 1] == s[n - 1];
      if s[n] != s[n - 1] {
        forall i | 0 <= i < |Unique(front)| ensures AtMost(Unique(front)[i], s[n]) && Unique(front)[i] != s[n] {
          LastIsGreatest(front, s[n], Unique(front)[i]);
        }
      }
    }
  }

  lemma LastIsGreatest(front: seq<Bytes>, last: Bytes, x: Bytes)
    requires front != [] && SortedBy(Self, front + [last]) && last != front[|front| - 1] && x in front
    ensures AtMost(x, last) && x != last
  {
    var s := front + [last];
    var i :| 0 <= i < |front| && front[i] == x;
    assert AtMost(Self(s[i]), Self(s[|front|]));
    if x == last {
      assert s[i] == x && s[|front| - 1] == front[|front| - 1];
      if i < |front| - 1 { assert AtMost(Self(s[i]), Self(s[|front| - 1])); }
      assert AtMost(Self(s[|front| - 1]), Self(s[|front|]));
      AtMostAntisymmetric(front[|front| - 1], last);
    }
  }

  lemma CountedOnce(s: seq<Bytes>, v: Bytes)
    requires Distinct(s)
    ensures multiset(s)[v] == if v in s then 1 else 0
  {
    assert v in s <==> v in multiset(s);
    if multiset(s)[v] >= 2 {
      var i, j := TwicePlaces(s, v);
    }
  }

  lemma SortedElements(values: seq<Bytes>)
    ensures SameElements(Sort(Self, values), values)
  {
    SortSorts(Self, values);
    forall v ensures v in Sort(Self, values) <==> v in values {
      assert v in Sort(Self, values) <==> v in multiset(Sort(Self, values));
      assert v in values <==> v in multiset(values);
    }
  }

  /** The canonical list stands for the set of values: order and repetition are forgotten, nothing else. */
  lemma CanonicalIff(a: seq<Bytes>, b: seq<Bytes>)
    ensures Canonical(a) == Canonical(b) <==> SameElements(a, b)
  {
    SortedElements(a);
    SortedElements(b);
    SortSorts(Self, a);
    SortSorts(Self, b);
    UniqueOfSorted(Sort(Self, a));
    UniqueOfSorted(Sort(Self, b));
    if SameElements(a, b) {
      forall v ensures multiset(Canonical(a))[v] == multiset(Canonical(b))[v] {
        CountedOnce(Canonical(a), v);
        CountedOnce(Canonical(b), v);
      }
      SortedIsUnique(Self, Canonical(a), Canonical(b));
    }
  }

  /** The values, each replaced by its key. */
  ghost function KeysOf(values: seq<Bytes>): (r: seq<Bytes>)
    ensures |r| == |values| && forall k :: 0 <= k < |r| ==> r[k] == TextKey(values[k])
  {
    seq(|values|, k requires 0 <= k < |values| => TextKey(values[k]))
  }

  /** CanonicalizeValues. */
  method CanonicalizeValues(values: seq<Bytes>, normalize: bool) returns (r: seq<Bytes>)
    ensures r == Canonical(if normalize then KeysOf(values) else values)
  {
    r := values;
    if normalize {
      for i := 0 to |values|
        invariant |r| == |values|
        invariant forall k :: 0 <= k < i ==> r[k] == TextKey(values[k])
        invariant forall k :: i <= k < |values| ==> r[k] == values[k]
      {
        var key := NormalizeText(r[i]);
        r := r[i := key];
      }
      assert r == KeysOf(values);
    }
    r := Canonical(r);
  }

  datatype SearchQuery = SearchQuery(languages: seq<Bytes>, genres: seq<Bytes>, sortBy: Option<nat>,
                                     descending: Option<bool>)

  const SORT_BY_TITLE: nat := 0

  /** BuildSessionCriteria, for the full-text query derived from the request. */
  ghost function CriteriaOf(q: SearchQuery, fts: Bytes): Criteria {
    Criteria(fts, Canonical(q.languages), Canonical(KeysOf(q.genres)),
             if q.sortBy.Some? then q.sortBy.value else SORT_BY_TITLE,
             if q.descending.Some? then q.descending.value else false)
  }

  /** Two requests have the same criteria exactly when they search for the same text, the same set
    * of languages, the same set of genres up to normalisation, in the same effective order. */
  lemma SameCriteriaIff(p: SearchQuery, q: SearchQuery, f: Bytes, g: Bytes)
    ensures CriteriaOf(p, f) == CriteriaOf(q, g) <==>
      && f == g && SameElements(p.languages, q.languages) && SameElements(KeysOf(p.genres), KeysOf(q.genres))
      && (if p.sortBy.Some? then p.sortBy.value else 0) == (if q.sortBy.Some? then q.sortBy.value else 0)
      && (p.descending == Some(true) <==> q.descending == Some(true))
  {
    CanonicalIff(p.languages, q.languages);
    CanonicalIff(KeysOf(p.genres), KeysOf(q.genres));
  }
}
