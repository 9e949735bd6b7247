/** The UTF-8 decoder and encoder, and the loops built on them, against the grammar of section 4 of
  * RFC 3629. */
module Utf8 {
  import opened Wrappers
  import opened Bytes

  predicate Scalar(c: int) { 0 <= c < 0xD800 || 0xE000 <= c <= 0x10FFFF }

  type CodePoint = c: int | 0 <= c < 0xD800 || 0xE000 <= c <= 0x10FFFF

  // ---------------------------------------------------------------- the grammar

  predicate Tail(b: byte) { 0x80 <= b <= 0xBF }

  /** UTF8-char of section 4 of RFC 3629. */
  predicate WellFormedChar(s: Bytes) {
    match |s|
    case 1 => s[0] <= 0x7F
    case 2 => 0xC2 <= s[0] <= 0xDF && Tail(s[1])
    case 3 =>
      || (s[0] == 0xE0 && 0xA0 <= s[1] <= 0xBF && Tail(s[2]))
      || (0xE1 <= s[0] <= 0xEC && Tail(s[1]) && Tail(s[2]))
      || (s[0] == 0xED && 0x80 <= s[1] <= 0x9F && Tail(s[2]))
      || (0xEE <= s[0] <= 0xEF && Tail(s[1]) && Tail(s[2]))
    case 4 =>
      || (s[0] == 0xF0 && 0x90 <= s[1] <= 0xBF && Tail(s[2]) && Tail(s[3]))
      || (0xF1 <= s[0] <= 0xF3 && Tail(s[1]) && Tail(s[2]) && Tail(s[3]))
      || (s[0] == 0xF4 && 0x80 <= s[1] <= 0x8F && Tail(s[2]) && Tail(s[3]))
    case _ => false
  }

  /** The first `n` bytes are a well-formed character. */
  predicate Starts(s: Bytes, n: int) { 0 < n <= |s| && WellFormedChar(s[..n]) }

  /** UTF8-octets: any number of well-formed characters. */
  ghost predicate Valid(s: Bytes)
    decreases |s|
  {
    s == [] || exists n :: Starts(s, n) && Valid(s[n..])
  }

  // ---------------------------------------------------------------- the codec

  datatype Decoded = Decoded(codePoint: int, length: nat)

  /** TryDecodeUtf8CodePoint, with shifts and masks written as arithmetic. */
  function DecodeAt(v: Bytes, i: nat): Option<Decoded>
    requires i < |v|
  {
    var a := v[i];
    if a < 0x80 then Some(Decoded(a, 1))
    else if 0xC0 <= a < 0xE0 then
      if i + 2 > |v| then None
      else if a < 0xC2 || !Tail(v[i + 1]) then None
      else Some(Decoded(Low(a, 0x20) * 0x40 + Low(v[i + 1], 0x40), 2))
    else if 0xE0 <= a < 0xF0 then
      if i + 3 > |v| then None
      else if !WellFormed3(a, v[i + 1], v[i + 2]) then None
      else Some(Decoded(Low(a, 0x10) * 0x1000 + Low(v[i + 1], 0x40) * 0x40 + Low(v[i + 2], 0x40), 3))
    else if 0xF0 <= a < 0xF8 then
      if i + 4 > |v| then None
      else if !WellFormed4(a, v[i + 1], v[i + 2], v[i + 3]) then None
      else Some(Decoded(Low(a, 8) * 0x40000 + Low(v[i + 1], 0x40) * 0x1000 + Low(v[i + 2], 0x40) * 0x40 + Low(v[i + 3], 0x40), 4))
    else None
  }

  /** The bits of `x` below `size`, a power of two. */
  function Low(x: int, size: int): int
    requires size > 0
  {
    x % size
  }

  predicate WellFormed3(a: byte, b: byte, c: byte) {
    || (a == 0xE0 && b >= 0xA0 && b <= 0xBF && Tail(c))
    || (a >= 0xE1 && a <= 0xEC && Tail(b) && Tail(c))
    || (a == 0xED && b >= 0x80 && b <= 0x9F && Tail(c))
    || (a >= 0xEE && a <= 0xEF && Tail(b) && Tail(c))
  }

  predicate WellFormed4(a: byte, b: byte, c: byte, d: byte) {
    || (a == 0xF0 && b >= 0x90 && b <= 0xBF && Tail(c) && Tail(d))
    || (a >= 0xF1 && a <= 0xF3 && Tail(b) && Tail(c) && Tail(d))
    || (a == 0xF4 && b >= 0x80 && b <= 0x8F && Tail(c) && Tail(d))
  }

  /** AppendUtf8CodePoint. */
  function Encode(c: CodePoint): Bytes {
    if c <= 0x7F then [Byte(c)]
    else if c <= 0x7FF then [Byte(0xC0 + Upper(c)), Byte(0x80 + Low(c, 0x40))]
    else if c <= 0xFFFF then [Byte(0xE0 + Upper(Upper(c))), Byte(0x80 + Low(Upper(c), 0x40)), Byte(0x80 + Low(c, 0x40))]
    else [Byte(0xF0 + Upper(Upper(Upper(c)))), Byte(0x80 + Low(Upper(Upper(c)), 0x40)),
          Byte(0x80 + Low(Upper(c), 0x40)), Byte(0x80 + Low(c, 0x40))]
  }

  /** All but the six lowest bits. */
  function Upper(x: int): int { x / 0x40 }

  lemma UpperLow(x: int, high: int, low: int)
    requires 0 <= low < 0x40
    ensures x == high * 0x40 + low <==> Upper(x) == high && Low(x, 0x40) == low
  {
  }

  function Byte(x: int): byte
    requires 0 <= x < 0x100
  {
    x
  }

  lemma EncodeIsWellFormed(c: CodePoint)
    ensures WellFormedChar(Encode(c))
  {
  }

  /** The first byte of a character determines its length. */
  lemma PrefixFree(s: Bytes, m: nat, n: nat)
    requires Starts(s, m) && Starts(s, n)
    ensures m == n
  {
    assert s[..m][0] == s[..n][0];
  }

  ghost predicate DecodesTo(v: Bytes, i: nat, d: Decoded) {
    && Scalar(d.codePoint) && i + d.length <= |v| && 0 < d.length
    && v[i..i + d.length] == Encode(d.codePoint) && WellFormedChar(v[i..i + d.length])
  }

  lemma Encode3(a: int, b: int, c: int)
    requires 0 <= a < 0x10 && 0 <= b < 0x40 && 0 <= c < 0x40 && (a > 0 || b >= 0x20) && (a != 0xD || b < 0x20)
    ensures var code := a * 0x1000 + b * 0x40 + c;
      Scalar(code) && Encode(code) == [Byte(0xE0 + a), Byte(0x80 + b), Byte(0x80 + c)]
  {
    var code := a * 0x1000 + b * 0x40 + c;
    UpperLow(code, a * 0x40 + b, c);
    UpperLow(a * 0x40 + b, a, b);
    assert 0x800 <= code <= 0xFFFF;
  }

  lemma Encode4(a: int, b: int, c: int, d: int)
    requires 0 <= a <= 4 && 0 <= b < 0x40 && 0 <= c < 0x40 && 0 <= d < 0x40 && (a > 0 || b >= 0x10)
      && (a < 4 || b < 0x10)
    ensures var code := a * 0x40000 + b * 0x1000 + c * 0x40 + d;
      Scalar(code) && Encode(code) == [Byte(0xF0 + a), Byte(0x80 + b), Byte(0x80 + c), Byte(0x80 + d)]
  {
    var code := a * 0x40000 + b * 0x1000 + c * 0x40 + d;
    UpperLow(code, a * 0x1000 + b * 0x40 + c, d);
    UpperLow(a * 0x1000 + b * 0x40 + c, a * 0x40 + b, c);
    UpperLow(a * 0x40 + b, a, b);
    assert 0x10000 <= code <= 0x10FFFF;
  }

  lemma TailLow(b: byte)
    requires Tail(b)
    ensures Low(b, 0x40) == b - 0x80
  {
  }

  lemma Decode3(v: Bytes, i: nat)
    requires i + 3 <= |v| && WellFormed3(v[i], v[i + 1], v[i + 2])
    ensures DecodeAt(v, i).Some? && DecodesTo(v, i, DecodeAt(v, i).value)
  {
    TailLow(v[i + 1]);
    TailLow(v[i + 2]);
    assert Low(v[i], 0x10) == v[i] - 0xE0;
    Encode3(v[i] - 0xE0, v[i + 1] - 0x80, v[i + 2] - 0x80);
    assert v[i..i + 3] == [v[i], v[i + 1], v[i + 2]];
  }

  lemma Decode4(v: Bytes, i: nat)
    requires i + 4 <= |v| && WellFormed4(v[i], v[i + 1], v[i + 2], v[i + 3])
    ensures DecodeAt(v, i).Some? && DecodesTo(v, i, DecodeAt(v, i).value)
  {
    TailLow(v[i + 1]);
    TailLow(v[i + 2]);
    TailLow(v[i + 3]);
    assert Low(v[i], 8) == v[i] - 0xF0;
    Encode4(v[i] - 0xF0, v[i + 1] - 0x80, v[i + 2] - 0x80, v[i + 3] - 0x80);
    assert v[i..i + 4] == [v[i], v[i + 1], v[i + 2], v[i + 3]];
  }

  /** Whatever is decoded is the encoding of a scalar value, and well-formed. */
  lemma DecodeIsSound(v: Bytes, i: nat)
    requires i < |v|
    ensures DecodeAt(v, i).Some? ==> DecodesTo(v, i, DecodeAt(v, i).value)
  {
    if DecodeAt(v, i).Some? {
      match DecodeAt(v, i).value.length
      case 1 => assert v[i..i + 1] == [v[i]];
      case 2 =>
        var a: int, b: int := v[i] - 0xC0, v[i + 1] - 0x80;
        UpperLow(a * 0x40 + b, a, b);
        assert v[i..i + 2] == [v[i], v[i + 1]];
      case 3 => Decode3(v, i);
      case _ => Decode4(v, i);
    }
  }

  /** Every well-formed character is decoded. */
  lemma DecodeIsComplete(v: Bytes, i: nat, n: nat)
    requires i + n <= |v| && WellFormedChar(v[i..i + n])
    ensures DecodeAt(v, i).Some? && DecodeAt(v, i).value.length == n
  {
    var s := v[i..i + n];
    assert forall k :: 0 <= k < n ==> s[k] == v[i + k];
  }

  /** Decoding undoes encoding, whatever stands before and after. */
  lemma DecodeEncode(v: Bytes, i: nat, c: CodePoint)
    requires i + |Encode(c)| <= |v| && v[i..i + |Encode(c)|] == Encode(c)
    ensures DecodeAt(v, i) == Some(Decoded(c, |Encode(c)|))
  {
    EncodeIsWellFormed(c);
    DecodeIsComplete(v, i, |Encode(c)|);
    DecodeIsSound(v, i);
    EncodeIsInjective(c, DecodeAt(v, i).value.codePoint);
  }

  lemma EncodeIsInjective(c: CodePoint, d: CodePoint)
    requires Encode(c) == Encode(d)
    ensures c == d
  {
    SameBytes(Encode(c), Encode(d));
    UpperLow(c, Upper(c), Low(c, 0x40));
    UpperLow(d, Upper(d), Low(d, 0x40));
    UpperLow(Upper(c), Upper(Upper(c)), Low(Upper(c), 0x40));
    UpperLow(Upper(d), Upper(Upper(d)), Low(Upper(d), 0x40));
  }

  lemma SameBytes(a: Bytes, b: Bytes)
    requires a == b && |a| <= 4
    ensures forall k :: 0 <= k < 4 && k < |a| ==> a[k] == b[k]
  {
  }

  // ---------------------------------------------------------------- whole strings

  type Text = seq<CodePoint>

  function EncodeAll(t: Text): Bytes {
    if t == [] then [] else Encode(t[0]) + EncodeAll(t[1..])
  }

  lemma EncodeFirst(c: CodePoint, t: Text)
    ensures EncodeAll([c] + t) == Encode(c) + EncodeAll(t)
  {
    assert ([c] + t)[1..] == t;
  }

  /** Every code point replaced by its code. */
  function Flat(code: CodePoint -> Bytes, t: Text): Bytes {
    if t == [] then [] else code(t[0]) + Flat(code, t[1..])
  }

  lemma {:induction false} FlatAppend(code: CodePoint -> Bytes, a: Text, b: Text)
    ensures Flat(code, a + b) == Flat(code, a) + Flat(code, b)
  {
    if a == [] {
      assert a + b == b;
    } else {
      assert (a + b)[1..] == a[1..] + b;
      FlatAppend(code, a[1..], b);
    }
  }

  lemma {:induction false} EncodeAllIsFlat(t: Text)
    ensures EncodeAll(t) == Flat(Encode, t)
  {
    if t != [] { EncodeAllIsFlat(t[1..]); }
  }

  lemma EncodeAllAppend(a: Text, b: Text)
    ensures EncodeAll(a + b) == EncodeAll(a) + EncodeAll(b)
  {
    EncodeAllIsFlat(a);
    EncodeAllIsFlat(b);
    EncodeAllIsFlat(a + b);
    FlatAppend(Encode, a, b);
  }

  lemma EncodeOne(c: CodePoint)
    ensures EncodeAll([c]) == Encode(c)
  {
    assert [c][1..] == [];
  }

  /** A string that starts with a well-formed character is valid iff the rest is. */
  lemma ValidAfter(s: Bytes, n: nat)
    requires Starts(s, n)
    ensures Valid(s) <==> Valid(s[n..])
  {
    if Valid(s) {
      var m :| Starts(s, m) && Valid(s[m..]);
      PrefixFree(s, m, n);
    }
  }

  lemma {:induction false} EncodedIsValid(t: Text)
    ensures Valid(EncodeAll(t))
  {
    if t != [] {
      EncodedIsValid(t[1..]);
      EncodeIsWellFormed(t[0]);
      Boundary(Encode(t[0]), EncodeAll(t[1..]));
      ValidAfter(EncodeAll(t), |Encode(t[0])|);
    }
  }

  lemma Boundary(a: Bytes, b: Bytes)
    ensures (a + b)[..|a|] == a && (a + b)[|a|..] == b
  {
  }

  lemma FirstIsEncoded(s: Bytes, n: nat) returns (c: CodePoint)
    requires Starts(s, n)
    ensures Encode(c) == s[..n]
  {
    assert s[0..0 + n] == s[..n];
    DecodeIsComplete(s, 0, n);
    DecodeIsSound(s, 0);
    c := DecodeAt(s, 0).value.codePoint;
  }

  /** Every valid string is the encoding of a text. */
  lemma {:induction false} ValidIsEncoded(s: Bytes) returns (t: Text)
    requires Valid(s)
    ensures EncodeAll(t) == s
    decreases |s|
  {
    if s == [] { return []; }
    var n :| Starts(s, n) && Valid(s[n..]);
    var c := FirstIsEncoded(s, n);
    var rest := ValidIsEncoded(s[n..]);
    EncodedFrom(s, n, c, rest);
    return [c] + rest;
  }

  lemma EncodedFrom(s: Bytes, n: nat, c: CodePoint, rest: Text)
    requires n <= |s| && Encode(c) == s[..n] && EncodeAll(rest) == s[n..]
    ensures EncodeAll([c] + rest) == s
  {
    EncodeFirst(c, rest);
    assert s == s[..n] + s[n..];
  }

  /** Of exactly one text. */
  lemma {:induction false} EncodeAllIsInjective(a: Text, b: Text)
    requires EncodeAll(a) == EncodeAll(b)
    ensures a == b
  {
    if a != [] && b != [] {
      var s := EncodeAll(a);
      EncodeIsWellFormed(a[0]);
      EncodeIsWellFormed(b[0]);
      Boundary(Encode(a[0]), EncodeAll(a[1..]));
      Boundary(Encode(b[0]), EncodeAll(b[1..]));
      PrefixFree(s, |Encode(a[0])|, |Encode(b[0])|);
      EncodeIsInjective(a[0], b[0]);
      EncodeAllIsInjective(a[1..], b[1..]);
    } else if a == [] && b != [] {
      EncodeIsWellFormed(b[0]);
    } else if a != [] && b == [] {
      EncodeIsWellFormed(a[0]);
    }
  }

  /** The text of a valid string. */
  ghost function Chars(s: Bytes): (t: Text)
    requires Valid(s)
    ensures EncodeAll(t) == s
  {
    assert exists t :: EncodeAll(t) == s by { var t := ValidIsEncoded(s); }
    var t :| EncodeAll(t) == s;
    t
  }

  lemma CharsOf(t: Text)
    ensures Valid(EncodeAll(t)) && Chars(EncodeAll(t)) == t
  {
    EncodedIsValid(t);
    EncodeAllIsInjective(Chars(EncodeAll(t)), t);
  }

  lemma {:induction false} ValidAppend(a: Bytes, b: Bytes)
    requires Valid(a)
    ensures Valid(a + b) <==> Valid(b)
    decreases |a|
  {
    if a == [] {
      assert a + b == b;
    } else {
      var n :| Starts(a, n) && Valid(a[n..]);
      assert (a + b)[..n] == a[..n] && (a + b)[n..] == a[n..] + b;
      ValidAppend(a[n..], b);
      ValidAfter(a + b, n);
    }
  }

  lemma WellFormedIsValid(s: Bytes)
    requires WellFormedChar(s)
    ensures Valid(s)
  {
    assert s[..|s|] == s && s[|s|..] == [];
  }

  /** Where decoding fails there is no character, so no valid string. */
  lemma StuckIsInvalid(v: Bytes, i: nat)
    requires i < |v| && DecodeAt(v, i).None?
    ensures !Valid(v[i..]) && forall n :: !Starts(v[i..], n)
  {
    forall n ensures !Starts(v[i..], n) {
      if Starts(v[i..], n) {
        assert v[i..][..n] == v[i..i + n];
        DecodeIsComplete(v, i, n);
      }
    }
  }

  lemma AdvanceValid(v: Bytes, i: nat)
    requires i < |v| && DecodeAt(v, i).Some?
    ensures var n := DecodeAt(v, i).value.length;
      && i + n <= |v| && Starts(v[i..], n)
      && v[i..][n..] == v[i + n..]
      && (Valid(v[i..]) <==> Valid(v[i + n..]))
      && (Valid(v[..i]) ==> Valid(v[..i + n]))
  {
    DecodeIsSound(v, i);
    var n := DecodeAt(v, i).value.length;
    assert v[i..][..n] == v[i..i + n] && v[i..][n..] == v[i + n..];
    ValidAfter(v[i..], n);
    if Valid(v[..i]) {
      WellFormedIsValid(v[i..i + n]);
      ValidAppend(v[..i], v[i..i + n]);
      assert v[..i + n] == v[..i] + v[i..i + n];
    }
  }

  /** IsValidUtf8 recognises exactly the grammar. */
  method IsValidUtf8(value: Bytes) returns (r: bool)
    ensures r <==> Valid(value)
  {
    var i := 0;
    assert value[0..] == value;
    while i < |value|
      invariant 0 <= i <= |value|
      invariant Valid(value) <==> Valid(value[i..])
    {
      var d := DecodeAt(value, i);
      if d.None? {
        StuckIsInvalid(value, i);
        return false;
      }
      AdvanceValid(value, i);
      i := i + d.value.length;
    }
    return true;
  }

  // ---------------------------------------------------------------- an unfinished last character

  /** A non-empty proper prefix of some well-formed character. */
  ghost predicate Incomplete(s: Bytes) {
    s != [] && exists full :: WellFormedChar(full) && |s| < |full| && s == full[..|s|]
  }

  /** `p` is the valid part and what follows it is an unfinished character. */
  ghost predicate Splits(v: Bytes, p: Bytes) {
    p <= v && Valid(p) && Incomplete(v[|p|..])
  }

  ghost predicate Trimmable(v: Bytes) { exists p :: Splits(v, p) }

  function ExpectedLength(a: byte): Option<nat> {
    if a < 0x80 then Some(1)
    else if 0xC2 <= a <= 0xDF then Some(2)
    else if 0xE0 <= a <= 0xEF then Some(3)
    else if 0xF0 <= a <= 0xF4 then Some(4)
    else None
  }

  predicate CanBeSecond(a: byte, b: byte) {
    if a == 0xE0 then 0xA0 <= b <= 0xBF
    else if a == 0xED then 0x80 <= b <= 0x9F
    else if a == 0xF0 then 0x90 <= b <= 0xBF
    else if a == 0xF4 then 0x80 <= b <= 0x8F
    else Tail(b)
  }

  function SomeSecond(a: byte): byte {
    if a == 0xE0 then 0xA0 else if a == 0xF0 then 0x90 else 0x80
  }

  /** The bytes so far are admissible for the length the first byte announces. */
  predicate Promising(s: Bytes) {
    && s != [] && ExpectedLength(s[0]).Some? && |s| < ExpectedLength(s[0]).value
    && (|s| > 1 ==> CanBeSecond(s[0], s[1])) && forall k :: 2 <= k < |s| ==> Tail(s[k])
  }

  function Completed(s: Bytes): Bytes
    requires Promising(s)
  {
    var pair := if |s| == 1 then [s[0], SomeSecond(s[0])] else s;
    pair + seq(ExpectedLength(s[0]).value - |pair|, _ => 0x80)
  }

  lemma PromisingIsIncomplete(s: Bytes)
    ensures Promising(s) <==> Incomplete(s)
  {
    if Promising(s) {
      var full := Completed(s);
      assert WellFormedChar(full) && s == full[..|s|];
    }
    if Incomplete(s) {
      var full :| WellFormedChar(full) && |s| < |full| && s == full[..|s|];
      assert forall k :: 0 <= k < |s| ==> s[k] == full[k];
    }
  }

  /** IsTrailingIncompleteUtf8Sequence. */
  method IsTrailingIncomplete(value: Bytes, start: nat, expected: nat) returns (r: bool)
    requires start < |value| && ExpectedLength(value[start]) == Some(expected)
    ensures r <==> Incomplete(value[start..])
  {
    ghost var rest := value[start..];
    PromisingIsIncomplete(rest);
    var remaining := |value| - start;
    if remaining >= expected { return false; }
    if remaining == 1 { return true; }
    if !CanBeSecond(value[start], value[start + 1]) { return false; }
    var offset := 2;
    while offset < remaining
      invariant 2 <= offset <= remaining
      invariant forall k :: 2 <= k < offset ==> Tail(rest[k])
    {
      if !Tail(value[start + offset]) {
        assert !Tail(rest[offset]);
        return false;
      }
      offset := offset + 1;
    }
    return true;
  }

  lemma StartsWhole(full: Bytes, s: Bytes, n: int)
    requires WellFormedChar(full) && s <= full
    ensures Starts(s, n) ==> n == |full|
  {
    assert full[..|full|] == full;
    if Starts(s, n) {
      assert full[..n] == s[..n];
      PrefixFree(full, n, |full|);
    }
  }

  /** An unfinished character does not begin with a finished one. */
  lemma IncompleteHasNoChar(s: Bytes, n: int)
    requires Incomplete(s)
    ensures !Starts(s, n)
  {
    var full :| WellFormedChar(full) && |s| < |full| && s == full[..|s|];
    StartsWhole(full, s, n);
  }

  lemma SplitsAfter(v: Bytes, n: nat, p: Bytes)
    requires Starts(v, n) && Splits(v, p)
    ensures n <= |p| && Splits(v[n..], p[n..])
  {
    if p == [] {
      assert v[|p|..] == v;
      IncompleteHasNoChar(v, n);
    } else {
      var m :| Starts(p, m) && Valid(p[m..]);
      assert p[..m] == v[..m];
      PrefixFree(v, m, n);
      assert v[n..][|p[n..]|..] == v[|p|..];
    }
  }

  lemma {:induction false} SplitsBehind(a: Bytes, b: Bytes, p: Bytes)
    requires Valid(a) && Splits(a + b, p)
    ensures |a| <= |p| && Splits(b, p[|a|..])
    decreases |a|
  {
    if a == [] {
      assert a + b == b && p[0..] == p;
    } else {
      var n :| Starts(a, n) && Valid(a[n..]);
      assert (a + b)[..n] == a[..n] && (a + b)[n..] == a[n..] + b;
      SplitsAfter(a + b, n, p);
      SplitsBehind(a[n..], b, p[n..]);
      assert p[n..][|a| - n..] == p[|a|..];
    }
  }

  lemma SplitsInOrder(v: Bytes, p: Bytes, q: Bytes)
    requires Splits(v, p) && Splits(v, q)
    ensures |p| <= |q|
  {
    assert v == p + v[|p|..];
    SplitsBehind(p, v[|p|..], q);
  }

  /** There is at most one way to split. */
  lemma SplitIsUnique(v: Bytes, p: Bytes, q: Bytes)
    requires Splits(v, p) && Splits(v, q)
    ensures p == q
  {
    SplitsInOrder(v, p, q);
    SplitsInOrder(v, q, p);
  }

  /** Where nothing decodes and nothing is unfinished, nothing splits. */
  lemma StuckDoesNotSplit(v: Bytes, p: Bytes)
    requires forall n :: !Starts(v, n)
    requires !Incomplete(v)
    ensures !Splits(v, p)
  {
    if Splits(v, p) {
      assert v[0..] == v;
      if p != [] { var n := FirstChar(v, p); }
    }
  }

  lemma FirstChar(v: Bytes, p: Bytes) returns (n: nat)
    requires p <= v && Valid(p) && p != []
    ensures n <= |p| && Starts(v, n)
  {
    n :| Starts(p, n) && Valid(p[n..]);
    assert p[..n] == v[..n];
  }

  lemma UnexpectedIsStuck(v: Bytes, i: nat)
    requires i < |v| && ExpectedLength(v[i]).None?
    ensures DecodeAt(v, i).None? && !Incomplete(v[i..])
  {
    PromisingIsIncomplete(v[i..]);
  }

  lemma StuckDoesNotSplitBehind(a: Bytes, b: Bytes, p: Bytes)
    requires Valid(a) && !Incomplete(b) && forall n :: !Starts(b, n)
    ensures !Splits(a + b, p)
  {
    if Splits(a + b, p) {
      SplitsBehind(a, b, p);
      StuckDoesNotSplit(b, p[|a|..]);
    }
  }

  lemma StuckIsNotTrimmable(v: Bytes, i: nat)
    requires i < |v| && Valid(v[..i]) && DecodeAt(v, i).None? && !Incomplete(v[i..])
    ensures !Trimmable(v)
  {
    StuckIsInvalid(v, i);
    assert v == v[..i] + v[i..];
    forall p ensures !Splits(v, p) { StuckDoesNotSplitBehind(v[..i], v[i..], p); }
  }

  lemma ValidIsNotTrimmable(v: Bytes)
    requires Valid(v)
    ensures !Trimmable(v)
  {
    if Trimmable(v) {
      var p :| Splits(v, p);
      assert v == v + [];
      SplitsBehind(v, [], p);
    }
  }

  /** TryTrimTrailingIncompleteUtf8 finds the valid part exactly when the rest is an unfinished
    * character. */
  method TryTrimTrailingIncomplete(value: Bytes) returns (r: Option<Bytes>)
    ensures r.Some? ==> Splits(value, r.value)
    ensures r.None? ==> !Trimmable(value)
  {
    var i := 0;
    while i < |value|
      invariant 0 <= i <= |value| && Valid(value[..i])
    {
      var expected := ExpectedLength(value[i]);
      if expected.None? {
        UnexpectedIsStuck(value, i);
        StuckIsNotTrimmable(value, i);
        return None;
      }
      var incomplete := IsTrailingIncomplete(value, i, expected.value);
      if incomplete { return Some(value[..i]); }
      var d := DecodeAt(value, i);
      if d.None? {
        StuckIsNotTrimmable(value, i);
        return None;
      }
      AdvanceValid(value, i);
      i := i + d.value.length;
    }
    assert value[..i] == value;
    ValidIsNotTrimmable(value);
    return None;
  }

  lemma SplitsBefore(v: Bytes, n: nat, p: Bytes)
    requires Starts(v, n) && Splits(v[n..], p)
    ensures Splits(v, v[..n] + p)
  {
    var q := v[..n] + p;
    assert q[..n] == v[..n] && q[n..] == p && v[|q|..] == v[n..][|p|..];
    ValidAfter(q, n);
  }

  lemma CutInside(s: Bytes, k: nat, n: nat)
    requires 0 < k < n && Starts(s, n)
    ensures Splits(s[..k], [])
  {
    assert s[..k] == s[..n][..k] && s[..k][0..] == s[..k];
  }

  lemma CutBehind(s: Bytes, k: nat, n: nat)
    requires n <= k <= |s| && Starts(s, n)
    requires Valid(s[n..][..k - n]) || Trimmable(s[n..][..k - n])
    ensures Valid(s[..k]) || Trimmable(s[..k])
  {
    var cut := s[..k];
    assert cut[..n] == s[..n] && cut[n..] == s[n..][..k - n];
    if Valid(cut[n..]) {
      ValidAfter(cut, n);
    } else {
      var p :| Splits(cut[n..], p);
      SplitsBefore(cut, n, p);
    }
  }

  /** Cutting a valid string leaves a valid string or one whose last character is unfinished. */
  lemma {:induction false} CutOfValid(s: Bytes, k: nat)
    requires Valid(s) && k <= |s|
    ensures Valid(s[..k]) || Trimmable(s[..k])
    decreases |s|
  {
    if k > 0 {
      var n :| Starts(s, n) && Valid(s[n..]);
      if k < n {
        CutInside(s, k, n);
      } else {
        CutOfValid(s[n..], k - n);
        CutBehind(s, k, n);
      }
    }
  }
}
