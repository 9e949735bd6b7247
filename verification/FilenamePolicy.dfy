/** Download file names: forbidden bytes replaced, cut to a byte limit without splitting a character. */
module FilenamePolicy {
  import opened Bytes
  import opened Utf8

  const UNDERSCORE: byte := 0x5F

  /** Backslash, slash, colon, asterisk, question mark, quote, angle brackets, bar and control bytes. */
  predicate Forbidden(b: byte) {
    || b == 0x5C || b == 0x2F || b == 0x3A || b == 0x2A || b == 0x3F || b == 0x22 || b == 0x3C || b == 0x3E || b == 0x7C
    || b < 0x20
  }

  function Allowed(b: byte): byte { if Forbidden(b) then UNDERSCORE else b }

  function Replaced(s: Bytes): Bytes { seq(|s|, k requires 0 <= k < |s| => Allowed(s[k])) }

  predicate EndsInSpace(s: Bytes) { s != [] && s[|s| - 1] == SPACE }

  function Stripped(s: Bytes): (r: Bytes)
    ensures r <= s && !EndsInSpace(r)
  {
    if EndsInSpace(s) then Stripped(s[..|s| - 1]) else s
  }

  /** `p` is the longest valid prefix of at most `limit` bytes. */
  ghost predicate LongestValid(s: Bytes, limit: nat, p: Bytes) {
    && p <= s && |p| <= limit && Valid(p)
    && forall q :: q <= s && |q| <= limit && Valid(q) ==> |q| <= |p|
  }

  // ---------------------------------------------------------------- validity through each step

  lemma ReplacedChar(s: Bytes)
    requires WellFormedChar(s)
    ensures WellFormedChar(Replaced(s))
  {
    if |s| > 1 { assert Replaced(s) == s; }
  }

  lemma {:induction false} ReplacedIsValid(s: Bytes)
    requires Valid(s)
    ensures Valid(Replaced(s))
    decreases |s|
  {
    if s != [] {
      var n :| Starts(s, n) && Valid(s[n..]);
      ReplacedChar(s[..n]);
      ReplacedIsValid(s[n..]);
      assert Replaced(s)[..n] == Replaced(s[..n]) && Replaced(s)[n..] == Replaced(s[n..]);
      ValidAfter(Replaced(s), n);
    }
  }

  /** A space stands alone: taking it off the end leaves a valid string. */
  lemma {:induction false} WithoutLastSpace(s: Bytes)
    requires Valid(s) && EndsInSpace(s)
    ensures Valid(s[..|s| - 1])
    decreases |s|
  {
    var n :| Starts(s, n) && Valid(s[n..]);
    if n == |s| {
      assert s[..n] == s;
      assert s[..|s| - 1] == [];
    } else {
      WithoutLastSpace(s[n..]);
      var rest := s[..|s| - 1];
      assert rest[..n] == s[..n] && rest[n..] == s[n..][..|s| - n - 1];
      ValidAfter(rest, n);
    }
  }

  lemma {:induction false} StrippedIsValid(s: Bytes)
    requires Valid(s)
    ensures Valid(Stripped(s))
    decreases |s|
  {
    if EndsInSpace(s) {
      WithoutLastSpace(s);
      StrippedIsValid(s[..|s| - 1]);
    }
  }

  lemma ValidPrefixes(s: Bytes, p: Bytes, q: Bytes)
    requires p <= q <= s && Valid(p) && Valid(q)
    ensures Valid(q[|p|..])
  {
    assert q == p + q[|p|..];
    ValidAppend(p, q[|p|..]);
  }

  /** The valid part of a cut string is its longest valid prefix. */
  lemma SplitIsLongest(s: Bytes, limit: nat, p: Bytes)
    requires limit <= |s| && Splits(s[..limit], p)
    ensures LongestValid(s, limit, p)
  {
    var cut := s[..limit];
    forall q | q <= s && |q| <= limit && Valid(q) ensures |q| <= |p| {
      if |q| > |p| {
        assert q == s[..|q|] && p == cut[..|p|] && p == q[..|p|];
        ValidPrefixes(s, p, q);
        var n := FirstChar(cut[|p|..], q[|p|..]);
        IncompleteHasNoChar(cut[|p|..], n);
      }
    }
  }

  lemma CutIsLongest(s: Bytes, limit: nat)
    requires limit <= |s| && Valid(s[..limit])
    ensures LongestValid(s, limit, s[..limit])
  {
  }

  // ---------------------------------------------------------------- the operations

  method ReplaceForbidden(value: Bytes) returns (r: Bytes)
    ensures r == Replaced(value)
  {
    r := value;
    for i := 0 to |value|
      invariant |r| == |value|
      invariant forall k :: 0 <= k < i ==> r[k] == Allowed(value[k])
      invariant forall k :: i <= k < |value| ==> r[k] == value[k]
    {
      if Forbidden(r[i]) { r := r[i := UNDERSCORE]; }
    }
  }

  method TrimTrailingSpaces(value: Bytes) returns (r: Bytes)
    ensures r == Stripped(value)
  {
    r := value;
    while EndsInSpace(r)
      invariant Stripped(r) == Stripped(value)
      decreases |r|
    {
      r := r[..|r| - 1];
    }
  }

  /** The first bytes that fit, without a character that was cut in two at the end. */
  ghost predicate IsCut(value: Bytes, limit: nat, r: Bytes)
    requires limit < |value|
  {
    Splits(value[..limit], r) || (r == value[..limit] && forall p :: !Splits(value[..limit], p))
  }

  /** Cuts an over-long name: for valid text, to the longest valid prefix that fits. */
  method Cut(value: Bytes, limit: nat) returns (r: Bytes)
    requires limit < |value|
    ensures r <= value && |r| <= limit && IsCut(value, limit, r)
    ensures Valid(value) ==> LongestValid(value, limit, r)
  {
    r := value[..limit];
    var trimmed := TryTrimTrailingIncomplete(r);
    if trimmed.Some? {
      SplitIsLongest(value, limit, trimmed.value);
      return trimmed.value;
    }
    if Valid(value) {
      CutOfValid(value, limit);
      CutIsLongest(value, limit);
    }
  }

  /** No more than three bytes are cut off beyond the limit. */
  lemma CutLosesLittle(value: Bytes, limit: nat, r: Bytes)
    requires limit < |value| && IsCut(value, limit, r)
    ensures r <= value && limit <= |r| + 3
  {
    if Splits(value[..limit], r) { assert r <= value; }
  }

  /** What is kept of a name: all of it without trailing spaces, or as much as fits. */
  ghost predicate Keeps(value: Bytes, limit: nat, kept: Bytes) {
    var name := Stripped(Replaced(value));
    if 0 < limit < |name| then
      exists cut :: IsCut(name, limit, cut) && kept == Stripped(cut) && (Valid(name) ==> LongestValid(name, limit, cut))
    else kept == name
  }

  /** Facts about whatever is kept. */
  lemma KeptIsSafe(value: Bytes, limit: nat, kept: Bytes)
    requires Keeps(value, limit, kept)
    ensures Valid(value) ==> Valid(kept)
    ensures limit > 0 ==> |kept| <= limit
    ensures !EndsInSpace(kept) && kept <= Replaced(value)
    ensures forall k :: 0 <= k < |kept| ==> kept[k] >= 0x20 && kept[k] !in RESERVED
    ensures forall k ::
      0 <= k < |kept| ==> kept[k] == if value[k] < 0x20 || value[k] in RESERVED then 0x5F else value[k]
  {
    var name := Stripped(Replaced(value));
    if Valid(value) {
      ReplacedIsValid(value);
      StrippedIsValid(Replaced(value));
    }
    if 0 < limit < |name| {
      var cut :| IsCut(name, limit, cut) && kept == Stripped(cut) && (Valid(name) ==> LongestValid(name, limit, cut));
      CutLosesLittle(name, limit, cut);
      if Valid(value) { StrippedIsValid(cut); }
    }
    KeptBytes(value, kept);
  }

  lemma KeptBytes(value: Bytes, kept: Bytes)
    requires kept <= Replaced(value)
    ensures forall k :: 0 <= k < |kept| ==> kept[k] >= 0x20 && kept[k] !in RESERVED
    ensures forall k ::
      0 <= k < |kept| ==> kept[k] == if value[k] < 0x20 || value[k] in RESERVED then 0x5F else value[k]
  {
    forall k | 0 <= k < |kept|
      ensures kept[k] >= 0x20 && kept[k] !in RESERVED
      ensures kept[k] == if value[k] < 0x20 || value[k] in RESERVED then 0x5F else value[k]
    {
      assert kept[k] == Replaced(value)[k];
      AllowedIs(value[k]);
    }
  }

  lemma AllowedIs(b: byte)
    ensures Allowed(b) == (if b < 0x20 || b in RESERVED then 0x5F else b) && Allowed(b) >= 0x20
      && Allowed(b) !in RESERVED
  {
  }

  /** What no file name may hold: \ / : * ? " < > | */
  const RESERVED: set<int> := {0x5C, 0x2F, 0x3A, 0x2A, 0x3F, 0x22, 0x3C, 0x3E, 0x7C}

  lemma {:induction false} StrippedAreSpaces(s: Bytes)
    ensures forall k :: |Stripped(s)| <= k < |s| ==> s[k] == 0x20
  {
    if EndsInSpace(s) { StrippedAreSpaces(s[..|s| - 1]); }
  }

  /** Whatever is dropped of a name that fits is spaces at its end; of a longer name at most three bytes
    * below the limit are lost besides. */
  lemma LittleIsLost(value: Bytes, limit: nat, kept: Bytes) returns (end: nat)
    requires Keeps(value, limit, kept)
    ensures |kept| <= end <= |value| && forall k :: |kept| <= k < end ==> value[k] == 0x20
    ensures limit == 0 || |value| <= limit ==> end == |value|
    ensures end < |value| ==> limit <= end + 3
  {
    var all := Replaced(value);
    var name := Stripped(all);
    StrippedAreSpaces(all);
    end := |value|;
    if 0 < limit < |name| {
      var cut :| IsCut(name, limit, cut) && kept == Stripped(cut) && (Valid(name) ==> LongestValid(name, limit, cut));
      CutLosesLittle(name, limit, cut);
      StrippedAreSpaces(cut);
      end := |cut|;
      assert cut == all[..end];
    }
    forall k | |kept| <= k < end ensures value[k] == 0x20 { assert all[k] == Allowed(value[k]); }
  }

  /** SanitizeDownloadFilenameBaseUtf8: the fallback stands in exactly when nothing is kept. */
  method SanitizeDownloadFilenameBase(value: Bytes, limit: nat, fallback: Bytes) returns (r: Bytes)
    ensures exists kept :: Keeps(value, limit, kept) && r == if kept == [] then fallback else kept
    ensures Valid(value) && Valid(fallback) ==> Valid(r)
    ensures 0 < limit && |fallback| <= limit ==> |r| <= limit
  {
    var name := ReplaceForbidden(value);
    name := TrimTrailingSpaces(name);
    ghost var kept := name;
    if name == [] {
      assert Keeps(value, limit, kept);
      KeptIsSafe(value, limit, kept);
      return fallback;
    }
    if limit > 0 && |name| > limit {
      var cut := Cut(name, limit);
      name := TrimTrailingSpaces(cut);
      kept := name;
    }
    assert Keeps(value, limit, kept);
    KeptIsSafe(value, limit, kept);
    if name == [] { return fallback; }
    return name;
  }
}
