/** Whitespace and case-fold normalisation of UTF-8 text. */
module TextNormalization {
  import opened Wrappers
  import opened Bytes
  import opened Utf8

  // ---------------------------------------------------------------- code points

  predicate Whitespace(c: CodePoint) {
    || c == 0x09 || c == 0x0A || c == 0x0B || c == 0x0C || c == 0x0D || c == 0x20 || c == 0x85 || c == 0xA0
    || c == 0x1680 || c == 0x2028 || c == 0x2029 || c == 0x202F || c == 0x205F || c == 0x3000
    || 0x2000 <= c <= 0x200A
  }

  predicate Between(c: int, low: int, high: int) { low <= c <= high }

  predicate EvenUpper(c: int) {
    && c % 2 == 0
    && (Between(c, 0x100, 0x12E) || Between(c, 0x132, 0x136) || Between(c, 0x14A, 0x176) || Between(c, 0x1DE, 0x1EE)
        || Between(c, 0x1F8, 0x21E) || Between(c, 0x222, 0x232) || Between(c, 0x460, 0x4FE) || Between(c, 0x500, 0x52E))
  }

  predicate OddUpper(c: int) {
    c % 2 == 1 && (Between(c, 0x139, 0x148) || Between(c, 0x179, 0x17E))
  }

  /** CaseFoldCodePoint. */
  function CaseFold(c: CodePoint): CodePoint {
    if c <= 0x7F then (if 0x41 <= c <= 0x5A then c + 0x20 else c)
    else if 0xC0 <= c <= 0xD6 then c + 0x20
    else if 0xD8 <= c <= 0xDE then c + 0x20
    else if EvenUpper(c) then c + 1
    else if OddUpper(c) then c + 1
    else
      match c
      case 0x130 => 0x69
      case 0x178 => 0xFF
      case 0x1F1 => 0x1F3
      case 0x1F2 => 0x1F3
      case 0x386 => 0x3AC
      case 0x388 => 0x3AD
      case 0x389 => 0x3AE
      case 0x38A => 0x3AF
      case 0x38C => 0x3CC
      case 0x38E => 0x3CD
      case 0x38F => 0x3CE
      case 0x3C2 => 0x3C3
      case 0x401 => 0x435
      case 0x451 => 0x435
      case 0x1E9E => 0xDF
      case _ =>
        if 0x391 <= c <= 0x3A1 then c + 0x20
        else if 0x3A3 <= c <= 0x3AB then c + 0x20
        else if 0x410 <= c <= 0x42F then c + 0x20
        else if 0x400 <= c <= 0x40F then c + 0x50
        else c
  }

  const SHARP_S: CodePoint := 0xDF
  const SMALL_S: CodePoint := 0x73
  const BLANK: CodePoint := 0x20

  /** AppendCaseFoldedCodePoint, on code points. */
  function Fold(c: CodePoint): (r: Text)
    ensures r != [] && (!Whitespace(c) ==> forall k :: 0 <= k < |r| ==> !Whitespace(r[k]))
  {
    if CaseFold(c) == SHARP_S then [SMALL_S, SMALL_S] else [CaseFold(c)]
  }

  lemma CaseFoldTwice(c: CodePoint)
    ensures CaseFold(CaseFold(c)) == CaseFold(c)
  {
  }

  /** Folding leaves it alone. */
  predicate Folded(c: CodePoint) { Fold(c) == [c] }

  lemma FoldIsFixed(c: CodePoint, k: nat)
    requires k < |Fold(c)|
    ensures Folded(Fold(c)[k])
  {
    CaseFoldTwice(c);
  }

  // ---------------------------------------------------------------- words

  predicate Blank(t: Text) { t == [] || Whitespace(t[|t| - 1]) }

  predicate IsWord(w: Text) { w != [] && forall k :: 0 <= k < |w| ==> !Whitespace(w[k]) }

  /** The maximal runs without whitespace. */
  function Words(t: Text): (r: seq<Text>)
    ensures !Blank(t) ==> r != []
    ensures forall k :: 0 <= k < |r| ==> IsWord(r[k])
  {
    if t == [] then []
    else
      var front, c := t[..|t| - 1], t[|t| - 1];
      if Whitespace(c) then Words(front)
      else if Blank(front) then Words(front) + [[c]]
      else var w := Words(front); w[..|w| - 1] + [w[|w| - 1] + [c]]
  }

  function FoldAll(t: Text): Text {
    if t == [] then [] else FoldAll(t[..|t| - 1]) + Fold(t[|t| - 1])
  }

  lemma {:induction false} FoldAllIsWord(w: Text)
    requires IsWord(w)
    ensures IsWord(FoldAll(w))
  {
    var front, c := w[..|w| - 1], w[|w| - 1];
    FoldAllAppend(front, c);
    assert w == front + [c];
    if front != [] { FoldAllIsWord(front); }
  }

  /** The words, case-folded and separated by single blanks. */
  function Joined(words: seq<Text>): Text {
    if words == [] then []
    else
      var front, w := Joined(words[..|words| - 1]), FoldAll(words[|words| - 1]);
      if |words| == 1 then w else front + [BLANK] + w
  }

  /** What normalisation is to compute. */
  function NormalForm(t: Text): Text { Joined(Words(t)) }

  function FoldWords(words: seq<Text>): (r: seq<Text>)
    ensures |r| == |words|
    ensures forall k :: 0 <= k < |r| ==> r[k] == FoldAll(words[k])
  {
    seq(|words|, k requires 0 <= k < |words| => FoldAll(words[k]))
  }

  lemma WordsOfNext(t: Text, c: CodePoint)
    requires !Whitespace(c)
    ensures Words(t + [c]) ==
      if Blank(t) then Words(t) + [[c]] else var w := Words(t); w[..|w| - 1] + [w[|w| - 1] + [c]]
  {
    assert (t + [c])[..|t|] == t;
  }

  lemma WordsOfLonger(t: Text, w: Text, c: CodePoint)
    requires IsWord(w) && Words(t + w) == Words(t) + [w] && !Whitespace(c)
    ensures Words(t + (w + [c])) == Words(t) + [w + [c]]
  {
    assert t + (w + [c]) == (t + w) + [c];
    assert (t + w)[|t + w| - 1] == w[|w| - 1];
    WordsOfNext(t + w, c);
  }

  lemma {:induction false} WordsOfBlankFirst(t: Text, w: Text)
    requires IsWord(w) && Blank(t)
    ensures Words(t + w) == Words(t) + [w]
    decreases |w|
  {
    var front, c := w[..|w| - 1], w[|w| - 1];
    assert w == front + [c];
    if front == [] {
      WordsOfNext(t, c);
      assert w == [c];
    } else {
      WordsOfBlankFirst(t, front);
      WordsOfLonger(t, front, c);
    }
  }

  lemma WordsOfBlankLast(t: Text, c: CodePoint)
    requires Whitespace(c)
    ensures Words(t + [c]) == Words(t)
  {
    assert (t + [c])[..|t|] == t;
  }

  lemma FoldWordsAppend(words: seq<Text>, w: Text)
    ensures FoldWords(words + [w]) == FoldWords(words) + [FoldAll(w)]
  {
  }

  /** The words of a normal form are the folded words of the text. */
  lemma {:induction false} WordsOfJoined(words: seq<Text>)
    requires forall k :: 0 <= k < |words| ==> IsWord(words[k])
    ensures Words(Joined(words)) == FoldWords(words)
  {
    if words != [] {
      var front, w := words[..|words| - 1], words[|words| - 1];
      assert IsWord(w) && words == front + [w];
      WordsOfJoined(front);
      FoldWordsAppend(front, w);
      JoinedAppend(front, w);
      FoldAllIsWord(w);
      WordsOfOneMore(Joined(front), front == [], FoldAll(w));
    }
  }

  lemma WordsOfOneMore(t: Text, first: bool, w: Text)
    requires IsWord(w) && (first ==> t == [])
    ensures Words(t + (if first then [] else [BLANK]) + w) == Words(t) + [w]
  {
    if first {
      assert t + [] + w == t + w;
      WordsOfBlankFirst(t, w);
    } else {
      WordsOfBlankLast(t, BLANK);
      WordsOfBlankFirst(t + [BLANK], w);
    }
  }

  lemma {:induction false} FixedIsFolded(t: Text)
    requires forall k :: 0 <= k < |t| ==> Folded(t[k])
    ensures FoldAll(t) == t
  {
    if t != [] {
      var front, c := t[..|t| - 1], t[|t| - 1];
      FixedIsFolded(front);
      FoldAllAppend(front, c);
      assert Folded(c) && t == front + [c];
    }
  }

  lemma {:induction false} FoldAllIsFixed(t: Text)
    ensures forall k :: 0 <= k < |FoldAll(t)| ==> Folded(FoldAll(t)[k])
  {
    if t != [] {
      FoldAllIsFixed(t[..|t| - 1]);
      var folded := Fold(t[|t| - 1]);
      forall k | 0 <= k < |folded| ensures Folded(folded[k]) { FoldIsFixed(t[|t| - 1], k); }
    }
  }

  lemma FoldAllTwice(t: Text)
    ensures FoldAll(FoldAll(t)) == FoldAll(t)
  {
    FoldAllIsFixed(t);
    FixedIsFolded(FoldAll(t));
  }

  lemma {:induction false} JoinedFolded(words: seq<Text>)
    ensures Joined(FoldWords(words)) == Joined(words)
  {
    if words != [] {
      var front, w := words[..|words| - 1], words[|words| - 1];
      assert words == front + [w];
      JoinedFolded(front);
      FoldWordsAppend(front, w);
      JoinedAppend(front, w);
      JoinedAppend(FoldWords(front), FoldAll(w));
      FoldAllTwice(w);
    }
  }

  /** Normalisation is idempotent. */
  lemma NormalFormTwice(t: Text)
    ensures NormalForm(NormalForm(t)) == NormalForm(t)
  {
    WordsOfJoined(Words(t));
    JoinedFolded(Words(t));
  }

  /** Two texts have the same normal form exactly when they have the same words up to case. */
  lemma SameNormalFormIff(t: Text, u: Text)
    ensures NormalForm(t) == NormalForm(u) <==> FoldWords(Words(t)) == FoldWords(Words(u))
  {
    WordsOfJoined(Words(t));
    WordsOfJoined(Words(u));
    JoinedFolded(Words(t));
    JoinedFolded(Words(u));
  }

  // ---------------------------------------------------------------- the loop on bytes

  /** The normal form of a valid string; nothing for an invalid one. */
  ghost function Normalized(v: Bytes): Option<Bytes> {
    if Valid(v) then Some(EncodeAll(NormalForm(Chars(v)))) else None
  }

  /** The blank written after a word whose successor has not been seen yet. */
  predicate Pending(t: Text) { t != [] && Whitespace(t[|t| - 1]) && Words(t) != [] }

  function SoFar(t: Text): Text { NormalForm(t) + if Pending(t) then [BLANK] else [] }

  lemma StepOverBlank(t: Text, c: CodePoint)
    requires Whitespace(c)
    ensures SoFar(t + [c]) == if Blank(t) then SoFar(t) else SoFar(t) + [BLANK]
  {
    WordsOfBlankLast(t, c);
    BlankHasNoNewWord(t);
  }

  lemma BlankHasNoNewWord(t: Text)
    ensures Blank(t) ==> (Pending(t) <==> Words(t) != [])
  {
  }

  lemma JoinedAppend(words: seq<Text>, w: Text)
    ensures Joined(words + [w]) == Joined(words) + (if words == [] then [] else [BLANK]) + FoldAll(w)
  {
    assert (words + [w])[..|words|] == words;
  }

  lemma StepOverFirst(t: Text, c: CodePoint)
    requires !Whitespace(c) && Blank(t)
    ensures SoFar(t + [c]) == SoFar(t) + Fold(c)
  {
    WordsOfBlankFirst(t, [c]);
    JoinedAppend(Words(t), [c]);
    FoldOne(c);
    SoFarInWord(t, c);
    SoFarInBlank(t);
  }

  lemma SoFarInWord(t: Text, c: CodePoint)
    requires !Whitespace(c)
    ensures SoFar(t + [c]) == Joined(Words(t + [c]))
  {
    assert (t + [c])[|t|] == c;
  }

  lemma SoFarInBlank(t: Text)
    requires Blank(t)
    ensures SoFar(t) == Joined(Words(t)) + if Words(t) == [] then [] else [BLANK]
  {
  }

  lemma FoldOne(c: CodePoint)
    ensures FoldAll([c]) == Fold(c)
  {
    assert [c][..0] == [];
  }

  lemma FoldAllAppend(w: Text, c: CodePoint)
    ensures FoldAll(w + [c]) == FoldAll(w) + Fold(c)
  {
    assert (w + [c])[..|w|] == w;
  }

  lemma JoinedExtended(front: seq<Text>, w: Text, c: CodePoint)
    ensures Joined(front + [w + [c]]) == Joined(front + [w]) + Fold(c)
  {
    FoldAllAppend(w, c);
    JoinedAppend(front, w + [c]);
    JoinedAppend(front, w);
  }

  lemma StepOverNext(t: Text, c: CodePoint)
    requires !Whitespace(c) && !Blank(t)
    ensures SoFar(t + [c]) == SoFar(t) + Fold(c)
  {
    WordsOfNext(t, c);
    var words := Words(t);
    var n := |words| - 1;
    assert words[..n] + [words[n]] == words;
    JoinedExtended(words[..n], words[n], c);
    SoFarInWord(t, c);
    assert SoFar(t) == Joined(words);
  }

  lemma AppendEncoded(t: Text, u: Text, out: Bytes)
    requires out == EncodeAll(t)
    ensures out + EncodeAll(u) == EncodeAll(t + u)
  {
    EncodeAllAppend(t, u);
  }

  /** A normal form ends in a folded word, never in a blank. */
  lemma JoinedEndsInWord(words: seq<Text>)
    requires words != [] && forall k :: 0 <= k < |words| ==> IsWord(words[k])
    ensures !Blank(Joined(words))
  {
    FoldAllIsWord(words[|words| - 1]);
  }

  lemma LastByte(t: Text)
    requires t != []
    ensures var s := EncodeAll(t); s != [] && (s[|s| - 1] == SPACE <==> t[|t| - 1] == BLANK)
  {
    var n := |t| - 1;
    assert t == t[..n] + [t[n]];
    EncodeAllAppend(t[..n], [t[n]]);
    EncodeOne(t[n]);
    EncodeIsWellFormed(t[n]);
  }

  method AppendCaseFolded(c: CodePoint, out: Bytes) returns (r: Bytes)
    ensures r == out + EncodeAll(Fold(c))
  {
    var folded := CaseFold(c);
    if folded == SHARP_S {
      EncodeOne(SMALL_S);
      AppendEncoded([SMALL_S], [SMALL_S], Encode(SMALL_S));
      assert [SMALL_S] + [SMALL_S] == Fold(c);
      return out + [0x73, 0x73];
    }
    EncodeOne(folded);
    return out + Encode(folded);
  }

  lemma WithoutPending(t: Text)
    requires !Pending(t)
    ensures EncodeAll(SoFar(t)) == EncodeAll(NormalForm(t))
    ensures var out := EncodeAll(SoFar(t)); out != [] ==> out[|out| - 1] != SPACE
  {
    assert SoFar(t) == NormalForm(t);
    if Words(t) != [] {
      JoinedEndsInWord(Words(t));
      LastByte(NormalForm(t));
    }
  }

  /** The pending blank, if any, is dropped. */
  lemma DropPending(t: Text, out: Bytes)
    requires out == EncodeAll(SoFar(t))
    ensures EncodeAll(NormalForm(t)) == if out != [] && out[|out| - 1] == SPACE then out[..|out| - 1] else out
  {
    if Pending(t) {
      EncodeAllAppend(NormalForm(t), [BLANK]);
      EncodeOne(BLANK);
    } else {
      WithoutPending(t);
    }
  }

  /** One character more: the body of the loop after decoding. */
  method AppendNormalized(c: CodePoint, out: Bytes, previousWasWhitespace: bool, ghost t: Text)
    returns (out': Bytes, previous': bool)
    requires out == EncodeAll(SoFar(t)) && previousWasWhitespace == Blank(t)
    ensures out' == EncodeAll(SoFar(t + [c])) && previous' == Blank(t + [c])
  {
    if Whitespace(c) {
      StepOverBlank(t, c);
      if previousWasWhitespace { return out, true; }
      AppendEncoded(SoFar(t), [BLANK], out);
      EncodeOne(BLANK);
      return out + [SPACE], true;
    }
    if previousWasWhitespace { StepOverFirst(t, c); } else { StepOverNext(t, c); }
    AppendEncoded(SoFar(t), Fold(c), out);
    out' := AppendCaseFolded(c, out);
    previous' := false;
  }

  lemma AdvanceText(v: Bytes, i: nat, t: Text)
    requires i < |v| && DecodeAt(v, i).Some? && EncodeAll(t) == v[..i]
    ensures var d := DecodeAt(v, i).value;
      Scalar(d.codePoint) && i < i + d.length <= |v| && EncodeAll(t + [d.codePoint]) == v[..i + d.length]
  {
    DecodeIsSound(v, i);
    var d := DecodeAt(v, i).value;
    AppendEncoded(t, [d.codePoint], v[..i]);
    EncodeOne(d.codePoint);
    assert v[..i + d.length] == v[..i] + v[i..i + d.length];
  }

  lemma StuckAfter(v: Bytes, i: nat, t: Text)
    requires i < |v| && DecodeAt(v, i).None? && EncodeAll(t) == v[..i]
    ensures Normalized(v) == None
  {
    EncodedIsValid(t);
    StuckIsInvalid(v, i);
    ValidAppend(v[..i], v[i..]);
    assert v == v[..i] + v[i..];
  }

  lemma NormalizedOf(v: Bytes, t: Text, out: Bytes)
    requires EncodeAll(t) == v && out == EncodeAll(SoFar(t))
    ensures Normalized(v) == Some(if out != [] && out[|out| - 1] == SPACE then out[..|out| - 1] else out)
  {
    CharsOf(t);
    DropPending(t, out);
  }

  /** The state of the loop when it has read the text `t`. */
  ghost predicate Reached(v: Bytes, i: nat, t: Text, out: Bytes, previousWasWhitespace: bool) {
    i <= |v| && EncodeAll(t) == v[..i] && out == EncodeAll(SoFar(t)) && previousWasWhitespace == Blank(t)
  }

  lemma ReachedNext(v: Bytes, i: nat, t: Text, c: CodePoint, length: nat, out: Bytes, previousWasWhitespace: bool)
    requires i + length <= |v| && EncodeAll(t + [c]) == v[..i + length]
    requires out == EncodeAll(SoFar(t + [c])) && previousWasWhitespace == Blank(t + [c])
    ensures Reached(v, i + length, t + [c], out, previousWasWhitespace)
  {
  }

  /** The body of the loop once a character was decoded. */
  method ReadNext(ghost v: Bytes, ghost i: nat, c: CodePoint, ghost length: nat, out: Bytes,
                  previousWasWhitespace: bool, ghost t: Text)
    returns (out': Bytes, previous': bool)
    requires Reached(v, i, t, out, previousWasWhitespace) && i + length <= |v| && EncodeAll(t + [c]) == v[..i + length]
    ensures Reached(v, i + length, t + [c], out', previous')
  {
    out', previous' := AppendNormalized(c, out, previousWasWhitespace, t);
    ReachedNext(v, i, t, c, length, out', previous');
  }

  lemma Advanced(v: Bytes, i: nat, t: Text, out: Bytes, previousWasWhitespace: bool)
    requires i < |v| && DecodeAt(v, i).Some? && Reached(v, i, t, out, previousWasWhitespace)
    ensures var d := DecodeAt(v, i).value;
      Scalar(d.codePoint) && d.length > 0 && i + d.length <= |v| && EncodeAll(t + [d.codePoint]) == v[..i + d.length]
  {
    AdvanceText(v, i, t);
  }

  lemma AllRead(v: Bytes, t: Text, out: Bytes, previousWasWhitespace: bool)
    requires Reached(v, |v|, t, out, previousWasWhitespace)
    ensures Normalized(v) == Some(if out != [] && out[|out| - 1] == SPACE then out[..|out| - 1] else out)
  {
    assert v[..|v|] == v;
    NormalizedOf(v, t, out);
  }

  lemma NothingRead(v: Bytes)
    ensures Reached(v, 0, [], [], true)
  {
    assert v[..0] == [];
  }

  /** The loop. */
  method ReadAll(value: Bytes) returns (ok: bool, out: Bytes, previousWasWhitespace: bool, ghost t: Text)
    ensures ok ==> Reached(value, |value|, t, out, previousWasWhitespace)
    ensures !ok ==> Normalized(value) == None
  {
    out, previousWasWhitespace, t := [], true, [];
    var i := 0;
    NothingRead(value);
    while i < |value|
      invariant i <= |value| && Reached(value, i, t, out, previousWasWhitespace)
    {
      var d := DecodeAt(value, i);
      if d.None? {
        StuckAfter(value, i, t);
        return false, out, previousWasWhitespace, t;
      }
      Advanced(value, i, t, out, previousWasWhitespace);
      var c: CodePoint := d.value.codePoint;
      out, previousWasWhitespace := ReadNext(value, i, c, d.value.length, out, previousWasWhitespace, t);
      t := t + [c];
      i := i + d.value.length;
    }
    ok := true;
  }

  /** TryNormalizeUtf8WhitespaceAndCaseFold. */
  method TryNormalize(value: Bytes) returns (r: Option<Bytes>)
    ensures r == Normalized(value)
  {
    var ok, out, previousWasWhitespace;
    ghost var t;
    ok, out, previousWasWhitespace, t := ReadAll(value);
    if !ok { return None; }
    AllRead(value, t, out, previousWasWhitespace);
    if out != [] && out[|out| - 1] == SPACE {
      out := out[..|out| - 1];
    }
    return Some(out);
  }

  // ---------------------------------------------------------------- normal forms by their shape

  /** Already folded, and the only whitespace is single blanks after something else. */
  ghost predicate ShapedAt(t: Text, k: nat)
    requires k < |t|
  {
    if Whitespace(t[k]) then t[k] == BLANK && k > 0 && !Whitespace(t[k - 1]) else Folded(t[k])
  }

  ghost predicate Shaped(t: Text) { forall k: nat :: k < |t| ==> ShapedAt(t, k) }

  ghost predicate IsNormal(t: Text) { Shaped(t) && (t == [] || !Whitespace(t[|t| - 1])) }

  lemma ShapedPrefix(t: Text, n: nat)
    requires Shaped(t) && n <= |t|
    ensures Shaped(t[..n])
  {
    forall k: nat | k < n ensures ShapedAt(t[..n], k) { assert ShapedAt(t, k); }
  }

  lemma {:induction false} ShapedIsUntouched(t: Text)
    requires Shaped(t)
    ensures SoFar(t) == t
  {
    if t != [] {
      var n := |t| - 1;
      ShapedPrefix(t, n);
      ShapedIsUntouched(t[..n]);
      assert ShapedAt(t, n) && t[..n] + [t[n]] == t;
      if Whitespace(t[n]) {
        StepOverBlank(t[..n], t[n]);
      } else if Blank(t[..n]) {
        StepOverFirst(t[..n], t[n]);
      } else {
        StepOverNext(t[..n], t[n]);
      }
    }
  }

  lemma ShapedAppend(t: Text, u: Text)
    requires Shaped(t) && Shaped(u)
    ensures Shaped(t + u)
  {
    forall k: nat | k < |t + u| ensures ShapedAt(t + u, k) {
      if k < |t| { assert ShapedAt(t, k); } else { assert ShapedAt(u, k - |t|); }
    }
  }

  lemma ShapedWord(w: Text)
    requires IsWord(w)
    ensures Shaped(FoldAll(w))
  {
    FoldAllIsFixed(w);
    FoldAllIsWord(w);
  }

  lemma {:induction false} JoinedIsShaped(words: seq<Text>)
    requires forall k :: 0 <= k < |words| ==> IsWord(words[k])
    ensures Shaped(Joined(words))
  {
    if words != [] {
      var n := |words| - 1;
      JoinedIsShaped(words[..n]);
      ShapedWord(words[n]);
      if n > 0 {
        var front := Joined(words[..n]);
        JoinedEndsInWord(words[..n]);
        forall k: nat | k < |front + [BLANK]| ensures ShapedAt(front + [BLANK], k) {
          if k < |front| { assert ShapedAt(front, k); }
        }
        ShapedAppend(front + [BLANK], FoldAll(words[n]));
      }
    }
  }

  /** The texts that normalisation leaves alone are exactly those of normal shape. */
  lemma NormalIffFixed(t: Text)
    ensures IsNormal(t) <==> NormalForm(t) == t
  {
    if IsNormal(t) { ShapedIsUntouched(t); }
    JoinedIsShaped(Words(t));
    if Words(t) != [] { JoinedEndsInWord(Words(t)); }
  }

  /** Whatever normalises, normalises to a valid string that normalises to itself. */
  lemma NormalizedTwice(v: Bytes)
    requires Normalized(v).Some?
    ensures Valid(Normalized(v).value) && Normalized(Normalized(v).value) == Normalized(v)
  {
    CharsOf(NormalForm(Chars(v)));
    NormalFormTwice(Chars(v));
  }
}
