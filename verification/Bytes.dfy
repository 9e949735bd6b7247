/** Byte strings: decimal numerals, the byte-wise order of std::string, and sorting by it. */
module Bytes {

  type byte = b: int | 0 <= b < 256
  type Bytes = seq<byte>

  const COLON: byte := 0x3A
  const SPACE: byte := 0x20
  const NEWLINE: byte := 0x0A

  // ---------------------------------------------------------------- decimal numerals

  predicate IsDigit(b: byte) { 0x30 <= b <= 0x39 }

  /** std::to_string and std::to_chars on an unsigned value. */
  function Decimal(n: nat): (s: Bytes)
    ensures s != [] && forall i :: 0 <= i < |s| ==> IsDigit(s[i])
  {
    if n < 10 then [0x30 + n] else Decimal(n / 10) + [0x30 + n % 10]
  }

  function Numeral(s: Bytes): nat
    requires forall i :: 0 <= i < |s| ==> IsDigit(s[i])
  {
    if s == [] then 0 else assert IsDigit(s[|s| - 1]); Numeral(s[..|s| - 1]) * 10 + s[|s| - 1] - 0x30
  }

  lemma {:induction false} DecimalRoundTrip(n: nat)
    ensures Numeral(Decimal(n)) == n
  {
    if n < 10 {
      assert Decimal(n)[..0] == [];
    } else {
      DecimalRoundTrip(n / 10);
      assert Decimal(n)[..|Decimal(n)| - 1] == Decimal(n / 10);
    }
  }

  /** A numeral followed by a non-digit can be read back unambiguously. */
  lemma FramedDecimal(m: nat, n: nat, stop: byte, a: Bytes, b: Bytes)
    requires !IsDigit(stop)
    requires Decimal(m) + [stop] + a == Decimal(n) + [stop] + b
    ensures m == n && a == b
  {
    var left, right := Decimal(m) + [stop] + a, Decimal(n) + [stop] + b;
    var p, q := |Decimal(m)|, |Decimal(n)|;
    assert left[p] == stop && right[q] == stop;
    assert forall k :: 0 <= k < p ==> IsDigit(left[k]);
    assert forall k :: 0 <= k < q ==> IsDigit(right[k]);
    assert p == q;
    assert left[..p] == Decimal(m) && right[..q] == Decimal(n);
    DecimalRoundTrip(m);
    DecimalRoundTrip(n);
    assert left[p + 1..] == a && right[q + 1..] == b;
  }

  // ---------------------------------------------------------------- byte-wise order

  predicate AtMost(a: Bytes, b: Bytes) {
    if a == [] then true
    else if b == [] then false
    else if a[0] != b[0] then a[0] < b[0]
    else AtMost(a[1..], b[1..])
  }

  /** At the first difference the first string has the smaller byte, or it is the beginning of the second. */
  ghost predicate SmallerAt(a: Bytes, b: Bytes, k: nat) { k < |a| && k < |b| && a[..k] == b[..k] && a[k] < b[k] }

  lemma {:induction false} AtMostIff(a: Bytes, b: Bytes)
    ensures AtMost(a, b) <==> a <= b || exists k: nat :: SmallerAt(a, b, k)
  {
    if a != [] && b != [] && a[0] == b[0] {
      AtMostIff(a[1..], b[1..]);
      assert a == [a[0]] + a[1..] && b == [b[0]] + b[1..];
      forall k: nat ensures SmallerAt(a[1..], b[1..], k) <==> SmallerAt(a, b, k + 1) {
        if k < |a| - 1 && k < |b| - 1 {
          assert a[..k + 1] == [a[0]] + a[1..][..k] && b[..k + 1] == [b[0]] + b[1..][..k];
        }
      }
      forall k: nat | SmallerAt(a, b, k) ensures k > 0 && SmallerAt(a[1..], b[1..], k - 1) {
        assert SmallerAt(a, b, k - 1 + 1);
      }
    } else if a != [] && b != [] && a[0] < b[0] {
      assert SmallerAt(a, b, 0);
    }
  }

  lemma {:induction false} AtMostTotal(a: Bytes, b: Bytes)
    ensures AtMost(a, b) || AtMost(b, a)
  {
    if a != [] && b != [] && a[0] == b[0] { AtMostTotal(a[1..], b[1..]); }
  }

  lemma {:induction false} AtMostAntisymmetric(a: Bytes, b: Bytes)
    requires AtMost(a, b) && AtMost(b, a)
    ensures a == b
  {
    if a != [] && b != [] {
      AtMostAntisymmetric(a[1..], b[1..]);
      assert a == [a[0]] + a[1..] && b == [b[0]] + b[1..];
    }
  }

  lemma {:induction false} AtMostTransitive(a: Bytes, b: Bytes, c: Bytes)
    requires AtMost(a, b) && AtMost(b, c)
    ensures AtMost(a, c)
  {
    if a != [] && b != [] && c != [] && a[0] == b[0] == c[0] { AtMostTransitive(a[1..], b[1..], c[1..]); }
  }

  // ---------------------------------------------------------------- sorting by a key

  ghost predicate SortedBy<T>(key: T -> Bytes, s: seq<T>) {
    forall i, j :: 0 <= i < j < |s| ==> AtMost(key(s[i]), key(s[j]))
  }

  function Insert<T>(key: T -> Bytes, x: T, s: seq<T>): seq<T> {
    if s == [] then [x]
    else if AtMost(key(x), key(s[0])) then [x] + s
    else [s[0]] + Insert(key, x, s[1..])
  }

  /** A sorted permutation, standing for std::ranges::sort. */
  function Sort<T>(key: T -> Bytes, s: seq<T>): seq<T> {
    if s == [] then [] else Insert(key, s[0], Sort(key, s[1..]))
  }

  lemma {:induction false} InsertKeeps<T>(key: T -> Bytes, x: T, s: seq<T>)
    requires SortedBy(key, s)
    ensures SortedBy(key, Insert(key, x, s))
    ensures multiset(Insert(key, x, s)) == multiset(s) + multiset{x}
  {
    if s == [] {
    } else if AtMost(key(x), key(s[0])) {
      forall j | 0 <= j < |s| ensures AtMost(key(x), key(s[j])) {
        if j > 0 { AtMostTransitive(key(x), key(s[0]), key(s[j])); }
      }
      assert multiset([x] + s) == multiset{x} + multiset(s);
    } else {
      AtMostTotal(key(x), key(s[0]));
      InsertKeeps(key, x, s[1..]);
      var rest := Insert(key, x, s[1..]);
      assert s == [s[0]] + s[1..];
      forall j | 0 <= j < |rest| ensures AtMost(key(s[0]), key(rest[j])) {
        assert rest[j] in multiset(rest);
        if rest[j] != x {
          assert rest[j] in multiset(s[1..]);
          var k :| 0 <= k < |s[1..]| && s[1..][k] == rest[j];
          assert s[k + 1] == rest[j];
        }
      }
    }
  }

  lemma {:induction false} SortSorts<T>(key: T -> Bytes, s: seq<T>)
    ensures SortedBy(key, Sort(key, s))
    ensures multiset(Sort(key, s)) == multiset(s)
  {
    if s != [] {
      SortSorts(key, s[1..]);
      InsertKeeps(key, s[0], Sort(key, s[1..]));
      assert s == [s[0]] + s[1..];
    }
  }

  ghost predicate InjectiveOn<T>(key: T -> Bytes, s: seq<T>) {
    forall i, j :: 0 <= i < |s| && 0 <= j < |s| && key(s[i]) == key(s[j]) ==> s[i] == s[j]
  }

  lemma LeastFirst<T>(key: T -> Bytes, s: seq<T>, y: T)
    requires SortedBy(key, s) && y in s
    ensures AtMost(key(s[0]), key(y))
  {
    var i :| 0 <= i < |s| && s[i] == y;
    if i == 0 { AtMostTotal(key(y), key(y)); }
  }

  lemma MultisetTail<T>(s: seq<T>)
    requires s != []
    ensures multiset(s[1..]) == multiset(s) - multiset{s[0]}
  {
    assert s == [s[0]] + s[1..];
  }

  /** A sorted arrangement of given elements is unique when equal keys mean equal elements. */
  lemma {:induction false} SortedIsUnique<T>(key: T -> Bytes, s: seq<T>, t: seq<T>)
    requires SortedBy(key, s) && SortedBy(key, t) && multiset(s) == multiset(t) && InjectiveOn(key, s)
    ensures s == t
  {
    assert |s| == |multiset(s)| == |multiset(t)| == |t|;
    if s != [] {
      assert s[0] in multiset(t) && t[0] in multiset(s);
      LeastFirst(key, s, t[0]);
      LeastFirst(key, t, s[0]);
      AtMostAntisymmetric(key(s[0]), key(t[0]));
      MultisetTail(s);
      MultisetTail(t);
      SortedIsUnique(key, s[1..], t[1..]);
    }
  }

  /** Sorting forgets the order its input came in. */
  lemma SortForgetsOrder<T>(key: T -> Bytes, s: seq<T>, t: seq<T>)
    requires multiset(s) == multiset(t) && InjectiveOn(key, s)
    ensures Sort(key, s) == Sort(key, t)
  {
    SortSorts(key, s);
    SortSorts(key, t);
    var sorted := Sort(key, s);
    forall i, j | 0 <= i < |sorted| && 0 <= j < |sorted| && key(sorted[i]) == key(sorted[j])
      ensures sorted[i] == sorted[j]
    {
      assert sorted[i] in multiset(s) && sorted[j] in multiset(s);
    }
    SortedIsUnique(key, Sort(key, s), Sort(key, t));
  }

  // ---------------------------------------------------------------- repeated elements

  lemma TwiceCounted<T>(s: seq<T>, i: nat, j: nat)
    requires i < j < |s| && s[i] == s[j]
    ensures multiset(s)[s[i]] >= 2
  {
    assert s == s[..j] + s[j..];
    assert s[..j][i] == s[i] && s[j..][0] == s[i];
  }

  lemma TwicePlaces<T>(s: seq<T>, x: T) returns (i: nat, j: nat)
    requires multiset(s)[x] >= 2
    ensures i < j < |s| && s[i] == x == s[j]
  {
    i :| 0 <= i < |s| && s[i] == x;
    assert s == s[..i] + [x] + s[i + 1..];
    if x in s[..i] {
      j := i;
      i :| 0 <= i < j && s[i] == x;
    } else {
      assert x in multiset(s[i + 1..]);
      var k :| 0 <= k < |s[i + 1..]| && s[i + 1..][k] == x;
      j := i + 1 + k;
    }
  }
}
