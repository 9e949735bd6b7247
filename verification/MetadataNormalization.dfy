/** Normalisation keys: total on byte strings, with invalid input kept apart from text. */
module MetadataNormalization {
  import opened Bytes
  import opened Utf8
  import opened TextNormalization

  const SENTINEL: Bytes := [0xEE, 0x80, 0x80]
  const SENTINEL_POINT: CodePoint := 0xE000
  /** "invalid-utf8:" */
  const INVALID_PREFIX: Bytes := [0x69, 0x6E, 0x76, 0x61, 0x6C, 0x69, 0x64, 0x2D, 0x75, 0x74, 0x66, 0x38, 0x3A]

  function Escaped(normalized: Bytes): Bytes {
    if SENTINEL <= normalized then SENTINEL + normalized else normalized
  }

  function HexDigit(x: int): byte
    requires 0 <= x < 16
  {
    if x < 10 then 0x30 + x else 0x57 + x
  }

  function Hex(s: Bytes): (r: Bytes)
    ensures |r| == 2 * |s|
  {
    if s == [] then []
    else var b: int := s[|s| - 1]; Hex(s[..|s| - 1]) + [HexDigit(b / 16), HexDigit(b % 16)]
  }

  /** NormalizeText: what it is to compute. */
  ghost function TextKey(v: Bytes): Bytes {
    match Normalized(v)
    case Some(normalized) => Escaped(normalized)
    case None => SENTINEL + INVALID_PREFIX + Hex(v)
  }

  /** EncodeInvalidUtf8ForNormalization. */
  method EncodeInvalid(value: Bytes) returns (r: Bytes)
    ensures r == SENTINEL + INVALID_PREFIX + Hex(value)
  {
    r := SENTINEL + INVALID_PREFIX;
    for i := 0 to |value|
      invariant r == SENTINEL + INVALID_PREFIX + Hex(value[..i])
    {
      var b: int := value[i];
      assert value[..i + 1][..i] == value[..i];
      r := r + [HexDigit(b / 16), HexDigit(b % 16)];
    }
    assert value[..|value|] == value;
  }

  method NormalizeText(value: Bytes) returns (r: Bytes)
    ensures r == TextKey(value)
  {
    var normalized := TryNormalize(value);
    if normalized.Some? { return Escaped(normalized.value); }
    r := EncodeInvalid(value);
  }

  // ---------------------------------------------------------------- keys tell inputs apart

  lemma {:induction false} HexIsInjective(a: Bytes, b: Bytes)
    requires Hex(a) == Hex(b)
    ensures a == b
  {
    assert |Hex(a)| == |Hex(b)|;
    if a != [] {
      var n := |a| - 1;
      var x, y := Hex(a), Hex(b);
      assert x[..2 * n] == Hex(a[..n]) && y[..2 * n] == Hex(b[..n]);
      HexIsInjective(a[..n], b[..n]);
      SameDigits(a[n], b[n]);
      assert a == a[..n] + [a[n]] && b == b[..n] + [b[n]];
    }
  }

  lemma SameDigits(a: byte, b: byte)
    ensures HexDigit(a / 16) == HexDigit(b / 16) && HexDigit(a % 16) == HexDigit(b % 16) ==> a == b
  {
  }

  lemma EscapedIsInjective(a: Bytes, b: Bytes)
    requires Escaped(a) == Escaped(b)
    ensures a == b
  {
    if SENTINEL <= a { assert a == Escaped(a)[3..]; }
    if SENTINEL <= b { assert b == Escaped(b)[3..]; }
  }

  /** No text has the key of an invalid string. */
  lemma EscapedIsNotInvalid(a: Bytes, rest: Bytes)
    ensures Escaped(a) != SENTINEL + INVALID_PREFIX + rest
  {
    var key := SENTINEL + INVALID_PREFIX + rest;
    assert key[3] == 0x69 && SENTINEL <= key;
    if SENTINEL <= a { assert Escaped(a)[3] == 0xEE; }
  }

  /** Two strings share a key exactly when both are text with the same normal form, or they are
    * the same invalid string. */
  lemma SameKeyIff(v: Bytes, w: Bytes)
    ensures TextKey(v) == TextKey(w) <==>
      if Valid(v) && Valid(w) then NormalForm(Chars(v)) == NormalForm(Chars(w)) else v == w
  {
    if Valid(v) && Valid(w) {
      if TextKey(v) == TextKey(w) {
        EscapedIsInjective(Normalized(v).value, Normalized(w).value);
        EncodeAllIsInjective(NormalForm(Chars(v)), NormalForm(Chars(w)));
      }
    } else if Valid(v) {
      EscapedIsNotInvalid(Normalized(v).value, Hex(w));
    } else if Valid(w) {
      EscapedIsNotInvalid(Normalized(w).value, Hex(v));
    } else if TextKey(v) == TextKey(w) {
      var n := |SENTINEL + INVALID_PREFIX|;
      assert TextKey(v)[n..] == Hex(v) && TextKey(w)[n..] == Hex(w);
      HexIsInjective(v, w);
    }
  }

  // ---------------------------------------------------------------- when keys are keys of themselves

  lemma SentinelEncodes()
    ensures Encode(SENTINEL_POINT) == SENTINEL && WellFormedChar(SENTINEL)
  {
  }

  lemma StartsWithSentinelIff(t: Text)
    ensures SENTINEL <= EncodeAll(t) <==> t != [] && t[0] == SENTINEL_POINT
  {
    SentinelEncodes();
    if t != [] {
      var s := EncodeAll(t);
      EncodeIsWellFormed(t[0]);
      Boundary(Encode(t[0]), EncodeAll(t[1..]));
      if SENTINEL <= s {
        assert s[..3] == SENTINEL;
        PrefixFree(s, 3, |Encode(t[0])|);
        EncodeIsInjective(t[0], SENTINEL_POINT);
      }
    }
  }

  lemma {:induction false} FoldAllHead(w: Text)
    requires w != []
    ensures FoldAll(w) != [] && FoldAll(w)[0] == Fold(w[0])[0]
  {
    if |w| > 1 { FoldAllHead(w[..|w| - 1]); } else { FoldOne(w[0]); }
  }

  lemma {:induction false} JoinedHead(words: seq<Text>)
    requires words != [] && IsWord(words[0]) && forall k :: 0 <= k < |words| ==> IsWord(words[k])
    ensures Joined(words) != [] && Joined(words)[0] == Fold(words[0][0])[0]
  {
    if |words| > 1 { JoinedHead(words[..|words| - 1]); } else { FoldAllHead(words[0]); }
  }

  /** The first character that is not whitespace is the reserved one. */
  ghost predicate StartsReserved(t: Text) { Words(t) != [] && Words(t)[0][0] == SENTINEL_POINT }

  lemma FoldsToSentinelIff(c: CodePoint)
    ensures Fold(c)[0] == SENTINEL_POINT <==> c == SENTINEL_POINT
  {
  }

  lemma ReservedNormalForm(t: Text)
    ensures SENTINEL <= EncodeAll(NormalForm(t)) <==> StartsReserved(t)
  {
    StartsWithSentinelIff(NormalForm(t));
    if Words(t) != [] {
      JoinedHead(Words(t));
      FoldsToSentinelIff(Words(t)[0][0]);
    }
  }

  lemma ReservedPrefixIsNormal(t: Text)
    requires IsNormal(t) && t != []
    ensures IsNormal([SENTINEL_POINT] + t)
  {
    assert Shaped([SENTINEL_POINT]);
    ShapedAppend([SENTINEL_POINT], t);
  }

  /** A key that was escaped is escaped once more. */
  lemma EscapedKeyGrows(v: Bytes)
    requires Valid(v) && StartsReserved(Chars(v))
    ensures TextKey(TextKey(v)) == SENTINEL + TextKey(v)
  {
    var n := NormalForm(Chars(v));
    ReservedNormalForm(Chars(v));
    SentinelEncodes();
    NormalFormTwice(Chars(v));
    NormalIffFixed(n);
    ReservedPrefixIsNormal(n);
    var k := [SENTINEL_POINT] + n;
    assert k[1..] == n;
    NormalIffFixed(k);
    CharsOf(k);
    StartsWithSentinelIff(k);
  }

  /** The key of an invalid string is text that begins with the reserved character. */
  lemma InvalidKeyChanges(v: Bytes)
    requires !Valid(v)
    ensures TextKey(TextKey(v)) != TextKey(v)
  {
    EscapedOrOther(TextKey(v), v);
  }

  lemma EscapedOrOther(key: Bytes, v: Bytes)
    requires key == SENTINEL + INVALID_PREFIX + Hex(v) && !Valid(v)
    ensures TextKey(key) != key
  {
    if Valid(key) {
      EscapedIsNotInvalid(Normalized(key).value, Hex(v));
    } else {
      assert |TextKey(key)| == 16 + 2 * |key|;
    }
  }

  /** NormalizeText is idempotent exactly on text whose first visible character is not U+E000. */
  lemma KeyTwiceIff(v: Bytes)
    ensures TextKey(TextKey(v)) == TextKey(v) <==> Valid(v) && !StartsReserved(Chars(v))
  {
    if !Valid(v) {
      InvalidKeyChanges(v);
    } else if StartsReserved(Chars(v)) {
      EscapedKeyGrows(v);
    } else {
      ReservedNormalForm(Chars(v));
      NormalizedTwice(v);
    }
  }

  /** One input on which it is not. */
  lemma ReservedIsNotIdempotent()
    ensures Valid(SENTINEL) && TextKey(SENTINEL) != TextKey(TextKey(SENTINEL))
  {
    SentinelEncodes();
    EncodeOne(SENTINEL_POINT);
    CharsOf([SENTINEL_POINT]);
    WordsOfBlankFirst([], [SENTINEL_POINT]);
    assert [] + [SENTINEL_POINT] == [SENTINEL_POINT];
    EscapedKeyGrows(SENTINEL);
  }

  /** A lower-case letter is its own key. */
  lemma LetterKey()
    ensures TextKey([0x61]) == [0x61]
  {
    var t: Text := [0x61];
    EncodeOne(0x61);
    CharsOf(t);
    assert IsNormal(t);
    NormalIffFixed(t);
  }
}
