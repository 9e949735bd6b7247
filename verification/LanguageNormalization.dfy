/** Language labels: cleaned text looked up among aliases and known primary codes. */
module LanguageNormalization {
  import opened Wrappers
  import opened Bytes
  import opened Utf8
  import opened TextNormalization

  // ---------------------------------------------------------------- the tables

  /** GLanguageAliases, in its order. */
  function Alias(v: string): Option<string> {
    if FirstAliases(v).Some? then FirstAliases(v) else OtherAliases(v)
  }

  function FirstAliases(v: string): Option<string> {
    if v == "" || v == "und" then Some("")
    else if v == "ru" || v == "rus" || v == "russian" || v == "русский" || v == "ру" then Some("ru")
    else if v == "en" || v == "eng" || v == "english" then Some("en")
    else if v == "uk" || v == "ukr" || v == "ua" || v == "ukrain" || v == "ukrian" || v == "urkain" then Some("uk")
    else if v == "bg" || v == "bul" || v == "български" then Some("bg")
    else if v == "be" || v == "bel" then Some("be")
    else if v == "es" || v == "spa" || v == "sp" then Some("es")
    else if v == "fr" || v == "fra" || v == "fre" then Some("fr")
    else if v == "de" || v == "deu" || v == "ger" then Some("de")
    else if v == "it" || v == "ita" then Some("it")
    else None
  }

  function OtherAliases(v: string): Option<string> {
    if v == "nl" || v == "nld" || v == "dut" then Some("nl")
    else if v == "pl" || v == "pol" then Some("pl")
    else if v == "cs" || v == "ces" || v == "cze" || v == "cz" then Some("cs")
    else if v == "da" || v == "dan" then Some("da")
    else if v == "zh" || v == "zho" || v == "chi" || v == "chinese" then Some("zh")
    else if v == "ja" || v == "jpn" || v == "jp" then Some("ja")
    else if v == "id" || v == "ind" || v == "in" then Some("id")
    else if v == "kk" || v == "kaz" || v == "kz" then Some("kk")
    else if v == "pt" || v == "por" then Some("pt")
    else if v == "ro" || v == "ron" || v == "rum" then Some("ro")
    else if v == "tk" || v == "tuk" || v == "turkmen" then Some("tk")
    else if v == "pa" || v == "pan" || v == "pentjab" then Some("pa")
    else None
  }

  /** GKnownPrimaryCodes. */
  predicate KnownPrimary(v: string) {
    || v == "ab" || v == "ang" || v == "ar" || v == "as" || v == "az" || v == "ba" || v == "be" || v == "bg"
       || v == "ca" || v == "cs" || v == "cu" || v == "cv" || v == "da" || v == "de" || v == "el" || v == "en"
    || v == "eo" || v == "es" || v == "et" || v == "eu" || v == "fa" || v == "fi" || v == "fr" || v == "frm"
       || v == "ga" || v == "gd" || v == "he" || v == "hi" || v == "hr" || v == "hu" || v == "hy" || v == "ia"
    || v == "id" || v == "is" || v == "it" || v == "ja" || v == "ka" || v == "kk" || v == "la" || v == "lt" || v == "lv"
       || v == "mn" || v == "nl" || v == "no" || v == "pa" || v == "pl" || v == "pt" || v == "ro"
    || v == "ru" || v == "sa" || v == "sh" || v == "sk" || v == "sq" || v == "sr" || v == "sv" || v == "tg" || v == "tk"
       || v == "tr" || v == "tt" || v == "uk" || v == "uz" || v == "vi" || v == "zh"
  }

  predicate Lower(v: string) { forall k :: 0 <= k < |v| ==> 'a' <= v[k] <= 'z' }

  lemma FirstAreLower(v: string)
    requires FirstAliases(v).Some?
    ensures Lower(FirstAliases(v).value)
  {
  }

  lemma OthersAreLower(v: string)
    requires OtherAliases(v).Some?
    ensures Lower(OtherAliases(v).value)
  {
  }

  lemma CanonicalIsLower(v: string)
    requires Alias(v).Some?
    ensures Lower(Alias(v).value)
  {
    if FirstAliases(v).Some? { FirstAreLower(v); } else { OthersAreLower(v); }
  }

  lemma KnownIsLower(v: string)
    requires KnownPrimary(v)
    ensures Lower(v)
  {
  }

  lemma FirstAreFixed(v: string)
    requires FirstAliases(v).Some?
    ensures FirstAliases(FirstAliases(v).value) == FirstAliases(v)
  {
  }

  lemma OthersAreOthers(v: string)
    requires OtherAliases(v).Some?
    ensures FirstAliases(OtherAliases(v).value) == None
  {
  }

  lemma OthersAreFixed(v: string)
    requires OtherAliases(v).Some?
    ensures OtherAliases(OtherAliases(v).value) == OtherAliases(v)
  {
  }

  /** Every canonical label is an alias of itself. */
  lemma CanonicalIsFixed(v: string)
    requires Alias(v).Some?
    ensures Alias(Alias(v).value) == Alias(v)
  {
    if FirstAliases(v).Some? {
      FirstAreFixed(v);
    } else {
      OthersAreOthers(v);
      OthersAreFixed(v);
    }
  }

  // ---------------------------------------------------------------- text as strings

  function Points(v: string): Text { seq(|v|, k requires 0 <= k < |v| => v[k] as int) }

  function Spelled(t: Text): string { seq(|t|, k requires 0 <= k < |t| => t[k] as char) }

  lemma SpelledPoints(v: string)
    ensures Spelled(Points(v)) == v
  {
  }

  lemma PointsSpelled(t: Text)
    ensures Points(Spelled(t)) == t
  {
  }

  // ---------------------------------------------------------------- cleaning

  const UNDERSCORE: int := 0x5F
  const DASH: int := 0x2D

  predicate Separator(c: int) { c == 0x2C || c == 0x3B || c == 0x2F || c == 0x2B }

  /** ReplaceAscii(value, '_', '-'). */
  function DashedBytes(s: Bytes): Bytes {
    seq(|s|, k requires 0 <= k < |s| => if s[k] == UNDERSCORE then DASH else s[k])
  }

  function Dashed(t: Text): Text { seq(|t|, k requires 0 <= k < |t| => if t[k] == UNDERSCORE then DASH else t[k]) }

  function FirstTokenBytes(s: Bytes): Bytes {
    if s == [] || Separator(s[0]) then [] else [s[0]] + FirstTokenBytes(s[1..])
  }

  function FirstToken(t: Text): Text {
    if t == [] || Separator(t[0]) then [] else [t[0]] + FirstToken(t[1..])
  }

  /** The label after both normalisations and replacements. */
  ghost function Cleaned(v: Bytes): Option<Bytes> {
    match Normalized(v)
    case None => None
    case Some(first) =>
      match Normalized(FirstTokenBytes(DashedBytes(first)))
      case None => None
      case Some(second) => Some(DashedBytes(second))
  }

  /** The part before the first dash, if there is a dash. */
  function Primary(v: string): Option<string> {
    if v == "" then None
    else if v[0] == '-' then Some("")
    else match Primary(v[1..])
      case None => None
      case Some(p) => Some([v[0]] + p)
  }

  function Resolved(v: string): string {
    match Alias(v)
    case Some(canonical) => canonical
    case None =>
      match Primary(v)
      case None => v
      case Some(primary) =>
        match Alias(primary)
        case Some(canonical) => canonical
        case None => if KnownPrimary(primary) then primary else v
  }

  /** NormalizeLanguage. */
  ghost function Language(v: Bytes): Bytes {
    match Cleaned(v)
    case None => v
    case Some(clean) => if Valid(clean) then EncodeAll(Points(Resolved(Spelled(Chars(clean))))) else clean
  }

  // ---------------------------------------------------------------- bytes and text agree

  lemma {:induction false} DashedEncodes(t: Text)
    ensures DashedBytes(EncodeAll(t)) == EncodeAll(Dashed(t))
  {
    if t != [] {
      DashedEncodes(t[1..]);
      assert Dashed(t)[1..] == Dashed(t[1..]);
      DashedOne(t[0]);
      DashedConcat(Encode(t[0]), EncodeAll(t[1..]));
    }
  }

  lemma DashedOne(c: CodePoint)
    ensures DashedBytes(Encode(c)) == Encode(if c == UNDERSCORE then DASH else c)
  {
    EncodeIsWellFormed(c);
  }

  lemma DashedConcat(a: Bytes, b: Bytes)
    ensures DashedBytes(a + b) == DashedBytes(a) + DashedBytes(b)
  {
  }

  lemma {:induction false} FirstTokenPasses(a: Bytes, b: Bytes)
    requires forall k :: 0 <= k < |a| ==> !Separator(a[k])
    ensures FirstTokenBytes(a + b) == a + FirstTokenBytes(b)
  {
    if a == [] {
      assert a + b == b;
    } else {
      FirstTokenPasses(a[1..], b);
      assert (a + b)[1..] == a[1..] + b;
    }
  }

  lemma {:induction false} FirstTokenEncodes(t: Text)
    ensures FirstTokenBytes(EncodeAll(t)) == EncodeAll(FirstToken(t))
  {
    if t != [] {
      EncodeIsWellFormed(t[0]);
      if !Separator(t[0]) {
        FirstTokenEncodes(t[1..]);
        FirstTokenPasses(Encode(t[0]), EncodeAll(t[1..]));
        assert FirstToken(t)[1..] == FirstToken(t[1..]);
      }
    }
  }

  // ---------------------------------------------------------------- what cleaning leaves

  lemma DashedKeepsNormal(t: Text)
    requires IsNormal(t)
    ensures IsNormal(Dashed(t))
  {
    forall k: nat | k < |t| ensures ShapedAt(Dashed(t), k) { assert ShapedAt(t, k); }
  }

  lemma {:induction false} FirstTokenIsPrefix(t: Text)
    ensures FirstToken(t) <= t && forall k :: 0 <= k < |FirstToken(t)| ==> !Separator(FirstToken(t)[k])
  {
    if t != [] && !Separator(t[0]) { FirstTokenIsPrefix(t[1..]); }
  }

  lemma {:induction false} FirstTokenOfAll(t: Text)
    requires forall k :: 0 <= k < |t| ==> !Separator(t[k])
    ensures FirstToken(t) == t
  {
    if t != [] { FirstTokenOfAll(t[1..]); }
  }

  /** Normalising a prefix of normal text only drops a blank at its end. */
  lemma NormalPrefix(t: Text, p: Text)
    requires IsNormal(t) && p <= t
    ensures NormalForm(p) <= p
  {
    ShapedPrefix(t, |p|);
    assert t[..|p|] == p;
    ShapedIsUntouched(p);
  }

  ghost predicate Clean(t: Text) {
    IsNormal(t) && forall k :: 0 <= k < |t| ==> t[k] != UNDERSCORE && !Separator(t[k])
  }

  ghost function CleanText(t: Text): Text { Dashed(NormalForm(FirstToken(Dashed(NormalForm(t))))) }

  lemma CleanTextIsClean(t: Text)
    ensures Clean(CleanText(t))
  {
    var a := NormalForm(t);
    NormalFormTwice(t);
    NormalIffFixed(a);
    DashedKeepsNormal(a);
    var p := FirstToken(Dashed(a));
    FirstTokenIsPrefix(Dashed(a));
    NormalPrefix(Dashed(a), p);
    NormalFormTwice(p);
    NormalIffFixed(NormalForm(p));
    DashedKeepsNormal(NormalForm(p));
  }

  lemma CleanIsFixed(t: Text)
    requires Clean(t)
    ensures CleanText(t) == t
  {
    NormalIffFixed(t);
    assert Dashed(t) == t;
    FirstTokenOfAll(t);
  }

  /** Neither normalisation of a valid label fails. */
  lemma CleanedIs(t: Text)
    ensures Cleaned(EncodeAll(t)) == Some(EncodeAll(CleanText(t)))
  {
    CharsOf(t);
    DashedEncodes(NormalForm(t));
    FirstTokenEncodes(Dashed(NormalForm(t)));
    var p := FirstToken(Dashed(NormalForm(t)));
    CharsOf(p);
    DashedEncodes(NormalForm(p));
  }

  lemma LanguageIs(t: Text)
    ensures Language(EncodeAll(t)) == EncodeAll(Points(Resolved(Spelled(CleanText(t)))))
  {
    CleanedIs(t);
    CharsOf(CleanText(t));
  }

  // ---------------------------------------------------------------- idempotence

  lemma LowerIsClean(v: string)
    requires Lower(v)
    ensures Clean(Points(v))
  {
    forall k: nat | k < |Points(v)| ensures ShapedAt(Points(v), k) {
      assert 'a' <= v[k] <= 'z';
    }
  }

  lemma {:induction false} LowerHasNoPrimary(v: string)
    requires Lower(v)
    ensures Primary(v) == None
  {
    if v != "" {
      assert 'a' <= v[0] <= 'z';
      LowerHasNoPrimary(v[1..]);
    }
  }

  /** A resolved label is clean and resolves to itself. */
  lemma ResolvedIsStable(t: Text)
    requires Clean(t)
    ensures Clean(Points(Resolved(Spelled(t)))) && Resolved(Resolved(Spelled(t))) == Resolved(Spelled(t))
  {
    var v := Spelled(t);
    PointsSpelled(t);
    if Alias(v).Some? {
      CanonicalIsStable(v);
    } else if Primary(v).Some? {
      var primary := Primary(v).value;
      if Alias(primary).Some? {
        CanonicalIsStable(primary);
      } else if KnownPrimary(primary) {
        KnownIsLower(primary);
        LowerIsClean(primary);
        LowerHasNoPrimary(primary);
      }
    }
  }

  lemma CanonicalIsStable(v: string)
    requires Alias(v).Some?
    ensures Clean(Points(Alias(v).value)) && Resolved(Alias(v).value) == Alias(v).value
  {
    CanonicalIsLower(v);
    LowerIsClean(Alias(v).value);
    CanonicalIsFixed(v);
  }

  /** NormalizeLanguage is idempotent on every byte string. */
  lemma LanguageTwice(v: Bytes)
    ensures Language(Language(v)) == Language(v)
  {
    if Valid(v) {
      var t := Chars(v);
      LanguageIs(t);
      CleanTextIsClean(t);
      ResolvedIsStable(CleanText(t));
      var r := Resolved(Spelled(CleanText(t)));
      LanguageIs(Points(r));
      CleanIsFixed(Points(r));
      SpelledPoints(r);
    }
  }
}
