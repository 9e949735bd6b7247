/** What normalisation makes of a text, said without the normaliser: which letters lose their case,
  * what separates words, and what a key looks like. */
module TextLaws {
  import opened Bytes
  import opened Utf8
  import opened TextNormalization
  import opened MetadataNormalization

  // ---------------------------------------------------------------- letters

  /** Latin, Greek and Russian capitals. */
  predicate Capital(c: CodePoint) {
    || 0x41 <= c <= 0x5A || 0xC0 <= c <= 0xD6 || 0xD8 <= c <= 0xDE
    || 0x391 <= c <= 0x3A1 || 0x3A3 <= c <= 0x3AB || 0x410 <= c <= 0x42F
  }

  /** Capitals of blocks in which each is followed by its small letter. */
  predicate EvenCapital(c: CodePoint) {
    && c % 2 == 0
    && (0x100 <= c < 0x130 || 0x132 <= c < 0x138 || 0x14A <= c < 0x178 || 0x1DE <= c < 0x1F0 || 0x1F8 <= c < 0x220
        || 0x222 <= c < 0x234 || 0x460 <= c < 0x500 || 0x500 <= c < 0x530)
  }

  predicate OddCapital(c: CodePoint) { c % 2 == 1 && (0x139 <= c < 0x149 || 0x179 <= c < 0x17F) }

  /** Cyrillic capitals outside the Russian alphabet. */
  predicate OtherCyrillic(c: CodePoint) { 0x400 <= c <= 0x40F && c != 0x401 }

  /** The capitals, title-case letters and variants that stand alone, with what they become. */
  predicate Single(c: CodePoint, small: CodePoint) {
    || (c == 0x130 && small == 0x69) || (c == 0x178 && small == 0xFF) || (c == 0x1F1 && small == 0x1F3)
    || (c == 0x1F2 && small == 0x1F3) || (c == 0x386 && small == 0x3AC) || (c == 0x388 && small == 0x3AD)
    || (c == 0x389 && small == 0x3AE) || (c == 0x38A && small == 0x3AF) || (c == 0x38C && small == 0x3CC)
    || (c == 0x38E && small == 0x3CD) || (c == 0x38F && small == 0x3CE) || (c == 0x3C2 && small == 0x3C3)
    || (c == 0x401 && small == 0x435) || (c == 0x451 && small == 0x435)
  }

  /** A capital and its small letter fold to the small letter. */
  lemma CapitalsFold(c: CodePoint)
    requires Capital(c)
    ensures Fold(c) == Fold(c + 0x20) == [c + 0x20]
  {
  }

  lemma EvenCapitalsFold(c: CodePoint)
    requires EvenCapital(c)
    ensures Fold(c) == Fold(c + 1) == [c + 1]
  {
    if c < 0x178 { FirstLatinFold(c); } else if c < 0x400 { SecondLatinFold(c); } else { EvenCyrillicFold(c); }
  }

  lemma FirstLatinFold(c: CodePoint)
    requires EvenCapital(c) && c < 0x178
    ensures Fold(c) == Fold(c + 1) == [c + 1]
  {
  }

  lemma SecondLatinFold(c: CodePoint)
    requires EvenCapital(c) && 0x178 <= c < 0x400
    ensures Fold(c) == Fold(c + 1) == [c + 1]
  {
  }

  lemma EvenCyrillicFold(c: CodePoint)
    requires EvenCapital(c) && c >= 0x400
    ensures Fold(c) == Fold(c + 1) == [c + 1]
  {
  }

  lemma OddCapitalsFold(c: CodePoint)
    requires OddCapital(c)
    ensures Fold(c) == Fold(c + 1) == [c + 1]
  {
  }

  lemma OtherCyrillicFold(c: CodePoint)
    requires OtherCyrillic(c)
    ensures Fold(c) == Fold(c + 0x50) == [c + 0x50]
  {
  }

  lemma SinglesFold(c: CodePoint, small: CodePoint)
    requires Single(c, small)
    ensures Fold(c) == Fold(small) == [small]
  {
    SinglesBecome(c, small);
    OnceFolded(c, small);
  }

  lemma SinglesBecome(c: CodePoint, small: CodePoint)
    requires Single(c, small)
    ensures CaseFold(c) == small && small != 0xDF
  {
  }

  lemma OnceFolded(c: CodePoint, small: CodePoint)
    requires CaseFold(c) == small && small != 0xDF
    ensures Fold(c) == Fold(small) == [small]
  {
    CaseFoldTwice(c);
  }

  /** Both cases of the sharp s become two letters, and everything else is left alone. */
  lemma OthersFold(c: CodePoint)
    requires !Capital(c) && !EvenCapital(c) && !OddCapital(c) && !OtherCyrillic(c)
    requires c !in {0x130, 0x178, 0x1F1, 0x1F2, 0x386, 0x388, 0x389, 0x38A, 0x38C, 0x38E, 0x38F, 0x3C2, 0x401, 0x451}
    ensures Fold(c) == if c == 0xDF || c == 0x1E9E then [0x73, 0x73] else [c]
  {
  }

  // ---------------------------------------------------------------- texts up to case

  /** Two spellings of one letter. */
  ghost predicate SameLetter(a: CodePoint, b: CodePoint) {
    || a == b || Lower(a, b) || Lower(b, a) || exists c: CodePoint :: Lower(a, c) && Lower(b, c)
  }

  /** The second is the small letter of the first. */
  predicate Lower(a: CodePoint, b: CodePoint) {
    || (Capital(a) && b == a + 0x20) || ((EvenCapital(a) || OddCapital(a)) && b == a + 1)
    || (OtherCyrillic(a) && b == a + 0x50) || Single(a, b) || (a == 0x1E9E && b == 0xDF)
  }

  lemma LowerFolds(a: CodePoint, b: CodePoint)
    requires Lower(a, b)
    ensures Fold(a) == Fold(b) && !Whitespace(a) && !Whitespace(b)
  {
    if Capital(a) && b == a + 0x20 {
      CapitalsFold(a);
    } else if EvenCapital(a) && b == a + 1 {
      EvenCapitalsFold(a);
    } else if OddCapital(a) && b == a + 1 {
      OddCapitalsFold(a);
    } else if OtherCyrillic(a) && b == a + 0x50 {
      OtherCyrillicFold(a);
    } else if Single(a, b) {
      SinglesFold(a, b);
    }
    LowersAreVisible(a, b);
  }

  lemma LowersAreVisible(a: CodePoint, b: CodePoint)
    requires Lower(a, b)
    ensures !Whitespace(a) && !Whitespace(b)
  {
  }

  lemma SameLetterFolds(a: CodePoint, b: CodePoint)
    requires SameLetter(a, b)
    ensures Fold(a) == Fold(b) && (Whitespace(a) <==> Whitespace(b))
  {
    if Lower(a, b) { LowerFolds(a, b); }
    if Lower(b, a) { LowerFolds(b, a); }
    if exists c: CodePoint :: Lower(a, c) && Lower(b, c) {
      var c: CodePoint :| Lower(a, c) && Lower(b, c);
      LowerFolds(a, c);
      LowerFolds(b, c);
    }
  }

  /** Letter by letter the same, up to case. */
  ghost predicate SameLetters(t: Text, u: Text) { |t| == |u| && forall k :: 0 <= k < |t| ==> SameLetter(t[k], u[k]) }

  lemma {:induction false} SameLettersSameWords(t: Text, u: Text)
    requires SameLetters(t, u)
    ensures FoldWords(Words(t)) == FoldWords(Words(u)) && (Blank(t) <==> Blank(u))
  {
    if t != [] {
      var n := |t| - 1;
      var front, other := t[..n], u[..n];
      assert t == front + [t[n]] && u == other + [u[n]];
      SameLetterFolds(t[n], u[n]);
      SameLettersSameWords(front, other);
      if Whitespace(t[n]) {
        WordsOfBlankLast(front, t[n]);
        WordsOfBlankLast(other, u[n]);
      } else {
        WordsOfNext(front, t[n]);
        WordsOfNext(other, u[n]);
        if Blank(front) { OneMoreWord(Words(front), Words(other), t[n], u[n]); }
        else { LongerLastWord(Words(front), Words(other), t[n], u[n]); }
      }
    }
  }

  lemma OneMoreWord(v: seq<Text>, w: seq<Text>, c: CodePoint, d: CodePoint)
    requires FoldWords(v) == FoldWords(w) && Fold(c) == Fold(d)
    ensures FoldWords(v + [[c]]) == FoldWords(w + [[d]])
  {
    FoldWordsAppend(v, [c]);
    FoldWordsAppend(w, [d]);
    FoldOne(c);
    FoldOne(d);
  }

  lemma LongerLastWord(v: seq<Text>, w: seq<Text>, c: CodePoint, d: CodePoint)
    requires v != [] && w != [] && FoldWords(v) == FoldWords(w) && Fold(c) == Fold(d)
    ensures FoldWords(v[..|v| - 1] + [v[|v| - 1] + [c]]) == FoldWords(w[..|w| - 1] + [w[|w| - 1] + [d]])
  {
    var m, n := |v| - 1, |w| - 1;
    FoldWordsAppend(v[..m], v[m] + [c]);
    FoldWordsAppend(w[..n], w[n] + [d]);
    FoldAllAppend(v[m], c);
    FoldAllAppend(w[n], d);
    LastAndRest(v);
    LastAndRest(w);
  }

  lemma LastAndRest(v: seq<Text>)
    requires v != []
    ensures FoldWords(v[..|v| - 1]) == FoldWords(v)[..|v| - 1] && FoldAll(v[|v| - 1]) == FoldWords(v)[|v| - 1]
  {
  }

  /** Texts that differ only in case have one normal form and one key. */
  lemma CaseIsForgotten(t: Text, u: Text)
    requires SameLetters(t, u)
    ensures NormalForm(t) == NormalForm(u)
    ensures TextKey(EncodeAll(t)) == TextKey(EncodeAll(u))
  {
    SameLettersSameWords(t, u);
    SameNormalFormIff(t, u);
    CharsOf(t);
    CharsOf(u);
  }

  // ---------------------------------------------------------------- words

  const BLANKS: set<int> := {
    0x09, 0x0A, 0x0B, 0x0C, 0x0D, 0x20, 0x85, 0xA0, 0x1680, 0x2000, 0x2001, 0x2002, 0x2003, 0x2004, 0x2005, 0x2006,
    0x2007, 0x2008, 0x2009, 0x200A, 0x2028, 0x2029, 0x202F, 0x205F, 0x3000}

  /** A text of one character vanishes exactly if the character is one of these blanks. */
  lemma VanishesIff(c: CodePoint)
    ensures NormalForm([c]) == [] <==> c in BLANKS
  {
    BlanksAre(c);
    assert [] + [c] == [c];
    if Whitespace(c) {
      WordsOfBlankLast([], c);
    } else {
      WordsOfBlankFirst([], [c]);
      JoinedAppend([], [c]);
      FoldOne(c);
    }
  }

  /** Between words a run of blanks is one space; before and after them it is nothing. */
  lemma BlankSeparates(t: Text, c: CodePoint, u: Text)
    requires c in BLANKS
    ensures var front, back := NormalForm(t), NormalForm(u);
      NormalForm(t + [c] + u) == front + (if front == [] || back == [] then [] else [0x20]) + back
  {
    BlanksAre(c);
    WordsApart(t, c, u);
    JoinedApart(Words(t), Words(u));
    NothingJoined(Words(t));
    NothingJoined(Words(u));
  }

  lemma BlanksAre(c: CodePoint)
    ensures Whitespace(c) <==> c in BLANKS
  {
  }

  lemma {:induction false} WordsApart(t: Text, c: CodePoint, u: Text)
    requires Whitespace(c)
    ensures Words(t + [c] + u) == Words(t) + Words(u) && (Blank(t + [c] + u) <==> Blank(u))
    decreases |u|
  {
    if u == [] {
      assert t + [c] + [] == t + [c];
      WordsOfBlankLast(t, c);
    } else {
      var n := |u| - 1;
      var all := t + [c] + u[..n];
      assert t + [c] + u == all + [u[n]] && u == u[..n] + [u[n]];
      WordsApart(t, c, u[..n]);
      WordsApartNext(Words(t), all, u[..n], u[n]);
    }
  }

  lemma WordsApartNext(front: seq<Text>, all: Text, u: Text, c: CodePoint)
    requires Words(all) == front + Words(u) && (Blank(all) <==> Blank(u))
    ensures Words(all + [c]) == front + Words(u + [c]) && (Blank(all + [c]) <==> Blank(u + [c]))
  {
    if Whitespace(c) {
      WordsOfBlankLast(all, c);
      WordsOfBlankLast(u, c);
    } else {
      WordsOfNext(all, c);
      WordsOfNext(u, c);
      if Blank(u) { OneMoreOfBoth(front, Words(u), [c]); } else { LastOfBoth(front, Words(u), Words(u)[|Words(u)| - 1] + [c]); }
    }
  }

  lemma OneMoreOfBoth(v: seq<Text>, w: seq<Text>, last: Text)
    ensures v + w + [last] == v + (w + [last])
  {
  }

  lemma LastOfBoth(v: seq<Text>, w: seq<Text>, last: Text)
    requires w != []
    ensures (v + w)[|v + w| - 1] == w[|w| - 1]
    ensures (v + w)[..|v + w| - 1] + [last] == v + (w[..|w| - 1] + [last])
  {
  }

  lemma {:induction false} JoinedApart(v: seq<Text>, w: seq<Text>)
    ensures Joined(v + w) == Joined(v) + (if v == [] || w == [] then [] else [BLANK]) + Joined(w)
    decreases |w|
  {
    if w == [] {
      assert v + [] == v;
    } else {
      var n := |w| - 1;
      assert v + w == (v + w[..n]) + [w[n]] && w == w[..n] + [w[n]];
      JoinedApart(v, w[..n]);
      JoinedAppend(v + w[..n], w[n]);
      JoinedAppend(w[..n], w[n]);
    }
  }

  lemma NothingJoined(words: seq<Text>)
    requires forall k :: 0 <= k < |words| ==> IsWord(words[k])
    ensures Joined(words) == [] <==> words == []
  {
    if words != [] { JoinedEndsInWord(words); }
  }

  /** Without blanks the text is folded letter by letter. */
  lemma {:induction false} OneWordFolds(t: Text, c: CodePoint)
    requires c !in BLANKS && forall k :: 0 <= k < |t| ==> t[k] !in BLANKS
    ensures NormalForm(t + [c]) == NormalForm(t) + Fold(c)
  {
    BlanksAre(c);
    FoldOne(c);
    assert [] + [c] == [c];
    if t == [] {
      WordsOfBlankFirst([], [c]);
      JoinedAppend([], [c]);
    } else {
      forall k | 0 <= k < |t| ensures !Whitespace(t[k]) { BlanksAre(t[k]); }
      assert [] + t == t && [] + (t + [c]) == t + [c];
      WordsOfBlankFirst([], t);
      WordsOfBlankFirst([], t + [c]);
      JoinedAppend([], t);
      JoinedAppend([], t + [c]);
      FoldAllAppend(t, c);
    }
  }

  // ---------------------------------------------------------------- keys

  /** The key of a text is its normal form, behind U+E000 if the normal form begins with it. */
  lemma KeyOfText(t: Text)
    ensures var n := NormalForm(t);
      TextKey(EncodeAll(t)) == if n != [] && n[0] == 0xE000 then [0xEE, 0x80, 0x80] + EncodeAll(n) else EncodeAll(n)
  {
    CharsOf(t);
    StartsWithSentinelIff(NormalForm(t));
  }

  /** The value of a lower-case hexadecimal digit. */
  function HexValue(b: byte): int {
    if 0x30 <= b <= 0x39 then (b as int) - 0x30 else if 0x61 <= b <= 0x66 then (b as int) - 0x61 + 10 else -1
  }

  lemma HexDigitHasItsValue(x: int)
    requires 0 <= x < 16
    ensures HexValue(HexDigit(x)) == x
  {
  }

  lemma {:induction false} HexSpells(s: Bytes, k: nat)
    requires k < |s|
    ensures HexValue(Hex(s)[2 * k]) == s[k] as int / 16 && HexValue(Hex(s)[2 * k + 1]) == s[k] as int % 16
  {
    var n := |s| - 1;
    if k < n {
      HexSpells(s[..n], k);
    } else {
      HexDigitHasItsValue(s[n] as int / 16);
      HexDigitHasItsValue(s[n] as int % 16);
    }
  }

  /** The key of an invalid string is U+E000, the words "invalid-utf8:" and its bytes in hexadecimal. */
  lemma KeyOfInvalid(v: Bytes, k: nat)
    requires !Valid(v) && k < |v|
    ensures var key := TextKey(v);
      && |key| == 16 + 2 * |v|
      && key[..16] == [0xEE, 0x80, 0x80, 0x69, 0x6E, 0x76, 0x61, 0x6C, 0x69, 0x64, 0x2D, 0x75, 0x74, 0x66, 0x38, 0x3A]
      && HexValue(key[16 + 2 * k]) == v[k] as int / 16 && HexValue(key[17 + 2 * k]) == v[k] as int % 16
  {
    HexSpells(v, k);
    InvalidKeyIs(Hex(v), 2 * k, TextKey(v));
    InvalidKeyIs(Hex(v), 2 * k + 1, TextKey(v));
  }

  lemma InvalidKeyIs(hex: Bytes, k: nat, key: Bytes)
    requires key == SENTINEL + INVALID_PREFIX + hex && k < |hex|
    ensures |key| == 16 + |hex| && key[16 + k] == hex[k]
    ensures key[..16] ==
      [0xEE, 0x80, 0x80, 0x69, 0x6E, 0x76, 0x61, 0x6C, 0x69, 0x64, 0x2D, 0x75, 0x74, 0x66, 0x38, 0x3A]
  {
    assert key[..16] == SENTINEL + INVALID_PREFIX;
  }
}
