/** The canonical byte string an archive manifest fingerprint is computed from. */
module ArchiveManifest {
  import opened Wrappers
  import opened Bytes

  datatype Entry = Entry(name: Bytes, size: nat, crc: nat)

  /** What the zip library reports for one entry; `intact` says that its payload can be read to
    * exactly its declared end. */
  datatype Stat = Stat(entry: Entry, intact: bool)

  /** The entries in central-directory order; None where the library cannot stat the entry. */
  type Archive = seq<Option<Stat>>

  datatype Error = BudgetExceeded | StatFailed | PayloadTooLarge | PayloadOverflow | PayloadUnreadable | DuplicateNames

  datatype ManifestText = ManifestText(text: Bytes, payloadBytes: nat)

  const ENTRY_BYTES: nat := 256
  const MAX_PAYLOAD: nat := 250 * 1024 * 1024
  const UINT64_MAX: nat := 0xFFFF_FFFF_FFFF_FFFF

  // ---------------------------------------------------------------- the encoding

  function NameOf(e: Entry): Bytes { e.name }

  function EncodeEntry(e: Entry): Bytes {
    Decimal(|e.name|) + [COLON] + (e.name + ([COLON] + (Decimal(e.size) + [COLON] + (Decimal(e.crc) + [NEWLINE]))))
  }

  function EncodeEntries(entries: seq<Entry>): Bytes {
    if entries == [] then [] else EncodeEntries(entries[..|entries| - 1]) + EncodeEntry(entries[|entries| - 1])
  }

  /** The text that is hashed. */
  function Canonical(entries: seq<Entry>): Bytes { EncodeEntries(Sort(NameOf, entries)) }

  ghost predicate DistinctNames(entries: seq<Entry>) {
    forall i, j :: 0 <= i < j < |entries| ==> entries[i].name != entries[j].name
  }

  /** The line of an entry "a" of 12 bytes with checksum 7 is "1:a:12:7" and a line feed. */
  lemma LineOfAnEntry()
    ensures EncodeEntry(Entry([0x61], 12, 7)) == [0x31, 0x3A, 0x61, 0x3A, 0x31, 0x32, 0x3A, 0x37, 0x0A]
  {
    assert Decimal(1) == [0x31] && Decimal(7) == [0x37];
    assert Decimal(12) == [0x31, 0x32];
  }

  // ---------------------------------------------------------------- the encoding can be read back

  lemma EntryIsFramed(e: Entry, f: Entry, x: Bytes, y: Bytes)
    requires EncodeEntry(e) + x == EncodeEntry(f) + y
    ensures e == f && x == y
  {
    var e3, f3 := Decimal(e.crc) + [NEWLINE] + x, Decimal(f.crc) + [NEWLINE] + y;
    var e2, f2 := Decimal(e.size) + [COLON] + e3, Decimal(f.size) + [COLON] + f3;
    var e1, f1 := e.name + ([COLON] + e2), f.name + ([COLON] + f2);
    assert EncodeEntry(e) + x == Decimal(|e.name|) + [COLON] + e1;
    assert EncodeEntry(f) + y == Decimal(|f.name|) + [COLON] + f1;
    FramedDecimal(|e.name|, |f.name|, COLON, e1, f1);
    assert e.name == e1[..|e.name|] && f.name == f1[..|f.name|];
    assert e2 == e1[|e.name| + 1..] && f2 == f1[|f.name| + 1..];
    FramedDecimal(e.size, f.size, COLON, e3, f3);
    FramedDecimal(e.crc, f.crc, NEWLINE, x, y);
  }

  lemma EncodeLast(entries: seq<Entry>, e: Entry)
    ensures EncodeEntries(entries + [e]) == EncodeEntries(entries) + EncodeEntry(e)
  {
    assert (entries + [e])[..|entries|] == entries;
  }

  lemma {:induction false} EncodeConcat(a: seq<Entry>, b: seq<Entry>)
    ensures EncodeEntries(a + b) == EncodeEntries(a) + EncodeEntries(b)
    decreases |b|
  {
    if b == [] {
      assert a + b == a;
    } else {
      var front, last := b[..|b| - 1], b[|b| - 1];
      assert b == front + [last] && a + b == (a + front) + [last];
      EncodeConcat(a, front);
      EncodeLast(front, last);
      EncodeLast(a + front, last);
    }
  }

  lemma EncodeOne(e: Entry)
    ensures EncodeEntries([e]) == EncodeEntry(e)
  {
    EncodeLast([], e);
    assert [] + [e] == [e];
  }

  lemma EncodeFirst(e: Entry, rest: seq<Entry>)
    ensures EncodeEntries([e] + rest) == EncodeEntry(e) + EncodeEntries(rest)
  {
    EncodeConcat([e], rest);
    EncodeOne(e);
  }

  lemma EncodeFront(entries: seq<Entry>)
    requires entries != []
    ensures EncodeEntries(entries) == EncodeEntry(entries[0]) + EncodeEntries(entries[1..])
  {
    EncodeFirst(entries[0], entries[1..]);
    assert [entries[0]] + entries[1..] == entries;
  }

  lemma {:induction false} EncodingIsInjective(a: seq<Entry>, b: seq<Entry>)
    requires EncodeEntries(a) == EncodeEntries(b)
    ensures a == b
  {
    if a != [] { EncodeFront(a); }
    if b != [] { EncodeFront(b); }
    if a != [] && b != [] {
      EntryIsFramed(a[0], b[0], EncodeEntries(a[1..]), EncodeEntries(b[1..]));
      EncodingIsInjective(a[1..], b[1..]);
    }
  }

  // ---------------------------------------------------------------- canonical and injective

  lemma DistinctIsInjective(entries: seq<Entry>)
    requires DistinctNames(entries)
    ensures InjectiveOn(NameOf, entries)
  {
  }

  /** The order of the entries in the archive does not matter. */
  lemma CanonicalForgetsOrder(a: seq<Entry>, b: seq<Entry>)
    requires DistinctNames(a) && multiset(a) == multiset(b)
    ensures Canonical(a) == Canonical(b)
  {
    DistinctIsInjective(a);
    SortForgetsOrder(NameOf, a, b);
  }

  lemma CountedOnce(entries: seq<Entry>, e: Entry)
    requires DistinctNames(entries)
    ensures multiset(entries)[e] <= 1
  {
    if multiset(entries)[e] >= 2 {
      var i, j := TwicePlaces(entries, e);
    }
  }

  lemma SameEntriesSameCounts(a: seq<Entry>, b: seq<Entry>)
    requires DistinctNames(a) && DistinctNames(b) && forall e :: e in a <==> e in b
    ensures multiset(a) == multiset(b)
  {
    forall e ensures multiset(a)[e] == multiset(b)[e] {
      CountedOnce(a, e);
      CountedOnce(b, e);
      assert e in a <==> e in multiset(a);
      assert e in b <==> e in multiset(b);
    }
  }

  /** Two archives have the same manifest text exactly when they hold the same set of entries. */
  lemma SameTextIff(a: seq<Entry>, b: seq<Entry>)
    requires DistinctNames(a) && DistinctNames(b)
    ensures Canonical(a) == Canonical(b) <==> forall e :: e in a <==> e in b
  {
    SortSorts(NameOf, a);
    SortSorts(NameOf, b);
    if Canonical(a) == Canonical(b) {
      EncodingIsInjective(Sort(NameOf, a), Sort(NameOf, b));
      assert multiset(a) == multiset(b);
      forall e ensures e in a <==> e in b {
        assert e in a <==> e in multiset(a);
        assert e in b <==> e in multiset(b);
      }
    }
    if forall e :: e in a <==> e in b {
      SameEntriesSameCounts(a, b);
      CanonicalForgetsOrder(a, b);
    }
  }

  // ---------------------------------------------------------------- duplicates are neighbours

  lemma NeighboursShowDuplicates(s: seq<Entry>)
    requires SortedBy(NameOf, s)
    ensures DistinctNames(s) <==> forall k :: 1 <= k < |s| ==> s[k - 1].name != s[k].name
  {
    if forall k :: 1 <= k < |s| ==> s[k - 1].name != s[k].name {
      forall i, j | 0 <= i < j < |s| ensures s[i].name != s[j].name {
        if s[i].name == s[j].name {
          assert s[i + 1 - 1].name != s[i + 1].name;
          assert AtMost(NameOf(s[i]), NameOf(s[i + 1]));
          if i + 1 < j { assert AtMost(NameOf(s[i + 1]), NameOf(s[j])); }
          AtMostAntisymmetric(NameOf(s[i]), NameOf(s[i + 1]));
        }
      }
    }
  }

  lemma SameCountsSameDistinctness(a: seq<Entry>, b: seq<Entry>)
    requires multiset(a) == multiset(b) && DistinctNames(a)
    ensures DistinctNames(b)
  {
    forall i, j | 0 <= i < j < |b| ensures b[i].name != b[j].name {
      if b[i].name == b[j].name {
        assert b[i] in multiset(a) && b[j] in multiset(a);
        DistinctIsInjective(a);
        TwiceCounted(b, i, j);
        CountedOnce(a, b[i]);
      }
    }
  }

  // ---------------------------------------------------------------- reading an archive

  ghost predicate AllStat(archive: Archive) { forall k :: 0 <= k < |archive| ==> archive[k].Some? }

  function Entries(archive: Archive): seq<Entry>
    requires forall k :: 0 <= k < |archive| ==> archive[k].Some?
  {
    seq(|archive|, k requires 0 <= k < |archive| => archive[k].value.entry)
  }

  function NameBytes(entries: seq<Entry>): nat {
    if entries == [] then 0 else NameBytes(entries[..|entries| - 1]) + |entries[|entries| - 1].name|
  }

  function PayloadBytes(entries: seq<Entry>): nat {
    if entries == [] then 0 else PayloadBytes(entries[..|entries| - 1]) + entries[|entries| - 1].size
  }

  /** Both are sums over the entries. */
  lemma BytesAddUp(entries: seq<Entry>, e: Entry)
    ensures NameBytes([]) == 0 && NameBytes(entries + [e]) == NameBytes(entries) + |e.name|
    ensures PayloadBytes([]) == 0 && PayloadBytes(entries + [e]) == PayloadBytes(entries) + e.size
  {
    assert (entries + [e])[..|entries|] == entries;
  }

  lemma {:induction false} NamesGrow(entries: seq<Entry>, k: nat)
    requires k <= |entries|
    ensures NameBytes(entries[..k]) <= NameBytes(entries) && PayloadBytes(entries[..k]) <= PayloadBytes(entries)
  {
    if k < |entries| {
      NamesGrow(entries[..|entries| - 1], k);
      assert entries[..|entries| - 1][..k] == entries[..k];
    } else {
      assert entries[..k] == entries;
    }
  }

  /** The coarse memory budget admits the archive. */
  ghost predicate Admitted(archive: Archive, budget: nat) {
    AllStat(archive) && |archive| <= budget / 2 / ENTRY_BYTES && NameBytes(Entries(archive)) <= budget / 2
  }

  ghost predicate PayloadsValid(archive: Archive)
    requires AllStat(archive)
  {
    && PayloadBytes(Entries(archive)) <= UINT64_MAX
    && forall k :: 0 <= k < |archive| ==> PayloadValid(archive[k].value)
  }

  /** An entry whose name lies in the shared buffer. */
  datatype Located = Located(offset: nat, length: nat, size: nat, crc: nat)

  predicate Within(owned: Bytes, e: Located) { e.offset + e.length <= |owned| }

  function OwnedName(owned: Bytes, e: Located): Bytes {
    if Within(owned, e) then owned[e.offset..e.offset + e.length] else []
  }

  function Resolve(owned: Bytes, e: Located): Entry { Entry(OwnedName(owned, e), e.size, e.crc) }

  function ResolveAll(owned: Bytes, entries: seq<Located>): (r: seq<Entry>)
    ensures |r| == |entries| && forall k :: 0 <= k < |r| ==> r[k] == Resolve(owned, entries[k])
  {
    seq(|entries|, k requires 0 <= k < |entries| => Resolve(owned, entries[k]))
  }

  function OwnedNames(owned: Bytes): Located -> Bytes { e => OwnedName(owned, e) }

  lemma ResolveFirst(owned: Bytes, x: Located, s: seq<Located>)
    ensures ResolveAll(owned, [x] + s) == [Resolve(owned, x)] + ResolveAll(owned, s)
  {
  }

  lemma {:induction false} InsertResolves(owned: Bytes, x: Located, s: seq<Located>)
    ensures ResolveAll(owned, Insert(OwnedNames(owned), x, s)) ==
      Insert(NameOf, Resolve(owned, x), ResolveAll(owned, s))
  {
    ResolveFirst(owned, x, s);
    if s == [] {
      assert [x] + s == [x];
    } else {
      InsertResolves(owned, x, s[1..]);
      ResolveFirst(owned, s[0], Insert(OwnedNames(owned), x, s[1..]));
      assert ResolveAll(owned, s)[1..] == ResolveAll(owned, s[1..]);
    }
  }

  /** Sorting the located entries sorts what they stand for. */
  lemma {:induction false} SortResolves(owned: Bytes, s: seq<Located>)
    ensures ResolveAll(owned, Sort(OwnedNames(owned), s)) == Sort(NameOf, ResolveAll(owned, s))
  {
    if s != [] {
      SortResolves(owned, s[1..]);
      InsertResolves(owned, s[0], Sort(OwnedNames(owned), s[1..]));
      assert ResolveAll(owned, s)[1..] == ResolveAll(owned, s[1..]);
    }
  }

  /** The first pass: bounds the entries and the aggregate length of their names. */
  method Admit(archive: Archive, budget: nat) returns (error: Option<Error>)
    ensures error.None? <==> Admitted(archive, budget)
    ensures error.Some? ==> error.value.BudgetExceeded? || error.value.StatFailed?
    ensures error == Some(StatFailed) ==> !AllStat(archive)
    ensures error == Some(BudgetExceeded) ==> 512 * |archive| > budget || NamesExceed(archive, budget)
  {
    var nameBudget := budget / 2;
    if |archive| > budget / 2 / ENTRY_BYTES { return Some(BudgetExceeded); }
    var requested: nat := 0;
    for i := 0 to |archive|
      invariant AllStat(archive[..i]) && requested == NameBytes(Entries(archive[..i])) && requested <= nameBudget
    {
      if archive[i].None? { return Some(StatFailed); }
      assert AllStat(archive[..i + 1]);
      assert Entries(archive[..i + 1])[..i] == Entries(archive[..i]);
      var nameSize := |archive[i].value.entry.name|;
      if nameSize > nameBudget - requested {
        if AllStat(archive) {
          NamesGrow(Entries(archive), i + 1);
          assert Entries(archive)[..i + 1] == Entries(archive[..i + 1]);
        }
        assert NameBytes(Entries(archive[..i + 1])) == requested + nameSize;
        return Some(BudgetExceeded);
      }
      requested := requested + nameSize;
    }
    assert archive[..|archive|] == archive;
    return None;
  }

  predicate PayloadValid(stat: Stat) { stat.entry.size <= MAX_PAYLOAD && stat.intact }

  /** Checks one payload against the limits and reads it to its end. */
  method ValidatePayload(stat: Stat, validated: nat) returns (error: Option<Error>)
    requires validated <= UINT64_MAX
    ensures error.None? <==> PayloadValid(stat) && validated + stat.entry.size <= UINT64_MAX
    ensures error == Some(PayloadTooLarge) <==> stat.entry.size > 262144000
    ensures error == Some(PayloadOverflow) <==>
      stat.entry.size <= 262144000 && stat.entry.size + validated > 0xFFFF_FFFF_FFFF_FFFF
    ensures error.Some? ==>
      error.value.PayloadTooLarge? || error.value.PayloadOverflow? || (error.value.PayloadUnreadable? && !stat.intact)
  {
    if stat.entry.size > MAX_PAYLOAD { return Some(PayloadTooLarge); }
    if stat.entry.size > UINT64_MAX - validated { return Some(PayloadOverflow); }
    if !stat.intact { return Some(PayloadUnreadable); }
    return None;
  }

  /** The payloads of the whole archive, in order. */
  method ValidatePayloads(archive: Archive) returns (error: Option<Error>, validated: nat)
    requires AllStat(archive)
    ensures error.None? <==> PayloadsValid(archive)
    ensures error.None? ==> validated == PayloadBytes(Entries(archive))
    ensures error.Some? ==> PayloadFails(archive, error.value)
  {
    ghost var all := Entries(archive);
    validated := 0;
    for i := 0 to |archive|
      invariant validated == PayloadBytes(all[..i]) && validated <= UINT64_MAX
      invariant forall k :: 0 <= k < i ==> PayloadValid(archive[k].value)
    {
      assert all[..i + 1][..i] == all[..i];
      NamesGrow(all, i + 1);
      error := ValidatePayload(archive[i].value, validated);
      if error.Some? { return; }
      validated := validated + archive[i].value.entry.size;
    }
    assert all[..|archive|] == all;
    error := None;
  }

  ghost predicate Resolves(owned: Bytes, entries: seq<Located>, all: seq<Entry>) {
    |entries| == |all| && forall k :: 0 <= k < |all| ==> Within(owned, entries[k]) && Resolve(owned, entries[k]) == all[k]
  }

  /** Copies the names into one buffer. */
  method Collect(archive: Archive) returns (owned: Bytes, entries: seq<Located>)
    requires AllStat(archive)
    ensures Resolves(owned, entries, Entries(archive))
  {
    ghost var all := Entries(archive);
    owned, entries := [], [];
    for i := 0 to |archive|
      invariant Resolves(owned, entries, all[..i])
    {
      var e := archive[i].value.entry;
      assert all[..i + 1] == all[..i] + [e];
      OwnedGrows(owned, e, entries, all[..i]);
      entries := entries + [Located(|owned|, |e.name|, e.size, e.crc)];
      owned := owned + e.name;
    }
    assert all[..|archive|] == all;
  }

  lemma OwnedGrows(owned: Bytes, e: Entry, entries: seq<Located>, all: seq<Entry>)
    requires Resolves(owned, entries, all)
    ensures Resolves(owned + e.name, entries + [Located(|owned|, |e.name|, e.size, e.crc)], all + [e])
  {
    var more := owned + e.name;
    assert more[|owned|..|owned| + |e.name|] == e.name;
    forall k | 0 <= k < |entries| ensures Within(more, entries[k]) && Resolve(more, entries[k]) == all[k] {
      assert more[entries[k].offset..entries[k].offset + entries[k].length] ==
        owned[entries[k].offset..entries[k].offset + entries[k].length];
    }
  }

  method HasDuplicates(owned: Bytes, entries: seq<Located>) returns (r: bool)
    requires SortedBy(NameOf, ResolveAll(owned, entries))
    ensures r <==> !DistinctNames(ResolveAll(owned, entries))
  {
    ghost var all := ResolveAll(owned, entries);
    NeighboursShowDuplicates(all);
    var i := 1;
    while i < |entries|
      invariant 1 <= i && forall k :: 1 <= k < i && k < |all| ==> all[k - 1].name != all[k].name
    {
      if OwnedName(owned, entries[i - 1]) == OwnedName(owned, entries[i]) {
        assert all[i - 1].name == all[i].name;
        return true;
      }
      i := i + 1;
    }
    return false;
  }

  method AppendEntry(text: Bytes, owned: Bytes, e: Located) returns (r: Bytes)
    requires Within(owned, e)
    ensures r == text + EncodeEntry(Resolve(owned, e))
  {
    r := text + Decimal(e.length);
    r := r + [COLON];
    r := r + OwnedName(owned, e);
    r := r + [COLON];
    r := r + Decimal(e.size);
    r := r + [COLON];
    r := r + Decimal(e.crc);
    r := r + [NEWLINE];
  }

  method Serialize(owned: Bytes, entries: seq<Located>) returns (text: Bytes)
    requires forall k :: 0 <= k < |entries| ==> Within(owned, entries[k])
    ensures text == EncodeEntries(ResolveAll(owned, entries))
  {
    ghost var all := ResolveAll(owned, entries);
    text := [];
    for i := 0 to |entries|
      invariant text == EncodeEntries(all[..i])
    {
      assert all[..i + 1][..i] == all[..i];
      text := AppendEntry(text, owned, entries[i]);
    }
    assert all[..|entries|] == all;
  }

  /** Any arrangement of distinct names in ascending order gives the canonical text. */
  lemma SortedIsCanonical(all: seq<Entry>, sorted: seq<Entry>)
    requires SortedBy(NameOf, sorted) && multiset(sorted) == multiset(all) && DistinctNames(all)
    ensures EncodeEntries(sorted) == Canonical(all)
  {
    SortSorts(NameOf, all);
    SameCountsSameDistinctness(all, sorted);
    DistinctIsInjective(sorted);
    SortedIsUnique(NameOf, sorted, Sort(NameOf, all));
  }

  /** What makes an archive have a manifest. */
  /** The error names something that is wrong with a payload. */
  ghost predicate PayloadFails(archive: Archive, error: Error)
    requires AllStat(archive)
  {
    match error
    case PayloadTooLarge => exists k :: 0 <= k < |archive| && archive[k].value.entry.size > 262144000
    case PayloadOverflow => PayloadBytes(Entries(archive)) > 0xFFFF_FFFF_FFFF_FFFF
    case PayloadUnreadable => exists k :: 0 <= k < |archive| && !archive[k].value.intact
    case _ => false
  }

  /** The error names what is wrong with the archive. */
  ghost predicate Explains(archive: Archive, validate: bool, budget: nat, error: Error) {
    match error
    case StatFailed => !AllStat(archive)
    case BudgetExceeded => 512 * |archive| > budget || NamesExceed(archive, budget)
    case DuplicateNames => AllStat(archive) && !DistinctNames(Entries(archive))
    case _ => validate && AllStat(archive) && PayloadFails(archive, error)
  }

  /** The names of the first entries exceed half the budget. */
  ghost predicate NamesExceed(archive: Archive, budget: nat) {
    exists k :: 0 <= k <= |archive| && AllStat(archive[..k]) && 2 * NameBytes(Entries(archive[..k])) > budget
  }

  ghost predicate Acceptable(archive: Archive, validate: bool, budget: nat) {
    Admitted(archive, budget) && (validate ==> PayloadsValid(archive)) && DistinctNames(Entries(archive))
  }

  /** Every entry can be stat'ed, there are no more than one for 512 bytes of the budget, and the names fit
    * half of it; if payloads are validated each is whole and at most 250 MiB and together they fit 64 bits;
    * and no two entries have one name. */
  lemma AcceptableIff(archive: Archive, validate: bool, budget: nat)
    ensures Acceptable(archive, validate, budget) <==>
      && (forall k :: 0 <= k < |archive| ==> archive[k].Some?)
      && 512 * |archive| <= budget && 2 * NameBytes(Entries(archive)) <= budget
      && (validate ==> (forall k :: 0 <= k < |archive| ==> archive[k].value.intact && archive[k].value.entry.size <= 262144000)
                       && PayloadBytes(Entries(archive)) <= 0xFFFF_FFFF_FFFF_FFFF)
      && (forall i, k :: 0 <= i < k < |archive| ==> archive[i].value.entry.name != archive[k].value.entry.name)
  {
    if AllStat(archive) {
      var entries := Entries(archive);
      assert DistinctNames(entries) <==>
        forall i, k :: 0 <= i < k < |archive| ==> archive[i].value.entry.name != archive[k].value.entry.name
      by {
        assert forall k :: 0 <= k < |archive| ==> entries[k] == archive[k].value.entry;
      }
      assert PayloadsValid(archive) <==>
        && PayloadBytes(entries) <= 0xFFFF_FFFF_FFFF_FFFF
        && forall k :: 0 <= k < |archive| ==> archive[k].value.intact && archive[k].value.entry.size <= 262144000
      by {
        forall k | 0 <= k < |archive|
          ensures PayloadValid(archive[k].value)
            <==> (archive[k].value.intact && archive[k].value.entry.size <= 262144000)
        {
        }
      }
    }
  }

  /** Sorts, rejects duplicates and serialises. */
  method Finish(owned: Bytes, entries: seq<Located>, ghost all: seq<Entry>) returns (r: Option<Bytes>)
    requires Resolves(owned, entries, all)
    ensures r == if DistinctNames(all) then Some(Canonical(all)) else None
  {
    assert ResolveAll(owned, entries) == all;
    var sorted := Sort(OwnedNames(owned), entries);
    SortSorts(OwnedNames(owned), entries);
    WithinSorted(owned, entries, sorted);
    SortResolves(owned, entries);
    SortSorts(NameOf, all);
    SameDistinctness(all, Sort(NameOf, all));
    var duplicates := HasDuplicates(owned, sorted);
    if duplicates { return None; }
    var text := Serialize(owned, sorted);
    return Some(text);
  }

  lemma SameDistinctness(a: seq<Entry>, b: seq<Entry>)
    requires multiset(a) == multiset(b)
    ensures DistinctNames(a) <==> DistinctNames(b)
  {
    if DistinctNames(a) { SameCountsSameDistinctness(a, b); }
    if DistinctNames(b) { SameCountsSameDistinctness(b, a); }
  }

  lemma WithinSorted(owned: Bytes, entries: seq<Located>, sorted: seq<Located>)
    requires multiset(sorted) == multiset(entries) && forall k :: 0 <= k < |entries| ==> Within(owned, entries[k])
    ensures forall k :: 0 <= k < |sorted| ==> Within(owned, sorted[k])
  {
    forall k | 0 <= k < |sorted| ensures Within(owned, sorted[k]) {
      assert sorted[k] in multiset(entries);
    }
  }

  /** ReadManifest: succeeds exactly on acceptable archives, with the canonical text, whether or
    * not payloads are validated on the way. */
  method ReadManifest(archive: Archive, validate: bool, budget: nat) returns (r: Result<ManifestText, Error>)
    ensures r.Ok? <==> Acceptable(archive, validate, budget)
    ensures r.Ok? ==> r.value.text == Canonical(Entries(archive))
    ensures r.Ok? ==> r.value.payloadBytes == if validate then PayloadBytes(Entries(archive)) else 0
    ensures r.Err? ==> Explains(archive, validate, budget, r.error)
  {
    var error := Admit(archive, budget);
    if error.Some? { return Err(error.value); }
    var payloadBytes := 0;
    if validate {
      error, payloadBytes := ValidatePayloads(archive);
      if error.Some? { return Err(error.value); }
    }
    var owned, entries := Collect(archive);
    var text := Finish(owned, entries, Entries(archive));
    if text.None? { return Err(DuplicateNames); }
    return Ok(ManifestText(text.value, payloadBytes));
  }
}
