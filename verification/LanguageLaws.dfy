/** What becomes of the labels people write: aliases, known codes with a region, and lists. */
module LanguageLaws {
  import opened Wrappers
  import opened Bytes
  import opened Utf8
  import opened TextNormalization
  import opened LanguageNormalization

  /** The names each of these languages goes by. */
  lemma NamesResolve(v: string)
    ensures v == "" || v == "und" ==> Alias(v) == Some("")
    ensures v == "ru" || v == "rus" || v == "russian" || v == "русский" || v == "ру" ==> Alias(v) == Some("ru")
    ensures v == "en" || v == "eng" || v == "english" ==> Alias(v) == Some("en")
    ensures v == "uk" || v == "ukr" || v == "ua" || v == "ukrain" || v == "ukrian" || v == "urkain" ==>
      Alias(v) == Some("uk")
    ensures v == "bg" || v == "bul" || v == "български" ==> Alias(v) == Some("bg")
    ensures v == "be" || v == "bel" ==> Alias(v) == Some("be")
    ensures v == "es" || v == "spa" || v == "sp" ==> Alias(v) == Some("es")
    ensures v == "fr" || v == "fra" || v == "fre" ==> Alias(v) == Some("fr")
    ensures v == "de" || v == "deu" || v == "ger" ==> Alias(v) == Some("de")
    ensures v == "it" || v == "ita" ==> Alias(v) == Some("it")
  {
  }

  /** How the names of the first languages begin. */
  lemma FirstBegin(v: string)
    requires FirstAliases(v).Some? && v != "" && v != "ru" && v != "rus" && v != "russian"
    ensures |v| >= 2 && ((v[0] == 'b' && v[1] == 'e') || (v[0] == 'b' && v[1] == 'g') || (v[0] == 'b' && v[1] == 'u')
             || (v[0] == 'd' && v[1] == 'e') || (v[0] == 'e' && v[1] == 'n') || (v[0] == 'e' && v[1] == 's')
             || (v[0] == 'f' && v[1] == 'r') || (v[0] == 'g' && v[1] == 'e') || (v[0] == 'i' && v[1] == 't')
             || (v[0] == 's' && v[1] == 'p') || (v[0] == 'u' && v[1] == 'a') || (v[0] == 'u' && v[1] == 'k')
             || (v[0] == 'u' && v[1] == 'n') || (v[0] == 'u' && v[1] == 'r') || (v[0] == 'б' && v[1] == 'ъ')
             || (v[0] == 'р' && v[1] == 'у'))
  {
  }

  lemma DutchNames(v: string)
    requires v == "nl" || v == "nld" || v == "dut"
    ensures Alias(v) == Some("nl")
  {
    if FirstAliases(v).Some? { FirstBegin(v); }
  }

  lemma PolishNames(v: string)
    requires v == "pl" || v == "pol"
    ensures Alias(v) == Some("pl")
  {
    if FirstAliases(v).Some? { FirstBegin(v); }
  }

  lemma CzechNames(v: string)
    requires v == "cs" || v == "ces" || v == "cze" || v == "cz"
    ensures Alias(v) == Some("cs")
  {
    if FirstAliases(v).Some? { FirstBegin(v); }
  }

  lemma DanishNames(v: string)
    requires v == "da" || v == "dan"
    ensures Alias(v) == Some("da")
  {
    if FirstAliases(v).Some? { FirstBegin(v); }
  }

  lemma ChineseNames(v: string)
    requires v == "zh" || v == "zho" || v == "chi" || v == "chinese"
    ensures Alias(v) == Some("zh")
  {
    if FirstAliases(v).Some? { FirstBegin(v); }
  }

  lemma JapaneseNames(v: string)
    requires v == "ja" || v == "jpn" || v == "jp"
    ensures Alias(v) == Some("ja")
  {
    if FirstAliases(v).Some? { FirstBegin(v); }
  }

  lemma IndonesianNames(v: string)
    requires v == "id" || v == "ind" || v == "in"
    ensures Alias(v) == Some("id")
  {
    if FirstAliases(v).Some? { FirstBegin(v); }
  }

  lemma KazakhName1()
    ensures Alias("kk") == Some("kk")
  {
    if FirstAliases("kk").Some? { FirstBegin("kk"); }
  }

  lemma KazakhName2()
    ensures Alias("kaz") == Some("kk")
  {
    if FirstAliases("kaz").Some? { FirstBegin("kaz"); }
  }

  lemma KazakhName3()
    ensures Alias("kz") == Some("kk")
  {
    if FirstAliases("kz").Some? { FirstBegin("kz"); }
  }

  lemma KazakhNames(v: string)
    requires v == "kk" || v == "kaz" || v == "kz"
    ensures Alias(v) == Some("kk")
  {
    KazakhName1();
    KazakhName2();
    KazakhName3();
  }

  lemma PortugueseNames(v: string)
    requires v == "pt" || v == "por"
    ensures Alias(v) == Some("pt")
  {
    if FirstAliases(v).Some? { FirstBegin(v); }
  }

  lemma RomanianName1()
    ensures Alias("ro") == Some("ro")
  {
    if FirstAliases("ro").Some? { FirstBegin("ro"); }
  }

  lemma RomanianName2()
    ensures Alias("ron") == Some("ro")
  {
    if FirstAliases("ron").Some? { FirstBegin("ron"); }
  }

  lemma RomanianName3()
    ensures Alias("rum") == Some("ro")
  {
    if FirstAliases("rum").Some? { FirstBegin("rum"); }
  }

  lemma RomanianNames(v: string)
    requires v == "ro" || v == "ron" || v == "rum"
    ensures Alias(v) == Some("ro")
  {
    RomanianName1();
    RomanianName2();
    RomanianName3();
  }

  lemma TurkmenName1()
    ensures Alias("tk") == Some("tk")
  {
    if FirstAliases("tk").Some? { FirstBegin("tk"); }
  }

  lemma TurkmenName2()
    ensures Alias("tuk") == Some("tk")
  {
    if FirstAliases("tuk").Some? { FirstBegin("tuk"); }
  }

  lemma TurkmenName3()
    ensures Alias("turkmen") == Some("tk")
  {
    if FirstAliases("turkmen").Some? { FirstBegin("turkmen"); }
  }

  lemma TurkmenNames(v: string)
    requires v == "tk" || v == "tuk" || v == "turkmen"
    ensures Alias(v) == Some("tk")
  {
    TurkmenName1();
    TurkmenName2();
    TurkmenName3();
  }

  lemma PunjabiName1()
    ensures Alias("pa") == Some("pa")
  {
    if FirstAliases("pa").Some? { FirstBegin("pa"); }
  }

  lemma PunjabiName2()
    ensures Alias("pan") == Some("pa")
  {
    if FirstAliases("pan").Some? { FirstBegin("pan"); }
  }

  lemma PunjabiName3()
    ensures Alias("pentjab") == Some("pa")
  {
    if FirstAliases("pentjab").Some? { FirstBegin("pentjab"); }
  }

  lemma PunjabiNames(v: string)
    requires v == "pa" || v == "pan" || v == "pentjab"
    ensures Alias(v) == Some("pa")
  {
    PunjabiName1();
    PunjabiName2();
    PunjabiName3();
  }

  /** These codes, too, are known. */
  lemma CodesAreKnown(v: string)
    ensures (v == "ab" || v == "ang" || v == "ar" || v == "as" || v == "az" || v == "ba" || v == "ca" || v == "cu"
         || v == "cv" || v == "el" || v == "eo" || v == "et" || v == "eu" || v == "fa" || v == "fi" || v == "frm"
         || v == "ga" || v == "gd" || v == "he" || v == "hi" || v == "hr") ==> KnownPrimary(v)
    ensures (v == "hu" || v == "hy" || v == "ia" || v == "is" || v == "ka" || v == "la" || v == "lt" || v == "lv"
         || v == "mn" || v == "no" || v == "sa" || v == "sh" || v == "sk" || v == "sq" || v == "sr" || v == "sv"
         || v == "tg" || v == "tr" || v == "tt" || v == "uz" || v == "vi") ==> KnownPrimary(v)
  {
  }

  /** A code has two letters, but for two that have three. */
  lemma CodesAreShort(v: string)
    requires KnownPrimary(v)
    ensures (|v| == 2 && 'a' <= v[0] <= 'z' && 'a' <= v[1] <= 'z') || v == "ang" || v == "frm"
  {
  }

  // ---------------------------------------------------------------- labels as people write them

  /** Without underscores, dashes and list separators. */
  predicate Plain(v: string) {
    forall k :: 0 <= k < |v| ==> v[k] != '_' && v[k] != '-' && v[k] != ',' && v[k] != ';' && v[k] != '/' && v[k] != '+'
  }

  function Named(v: string): string { if Alias(v).Some? then Alias(v).value else v }

  lemma {:induction false} PlainHasNoPrimary(v: string)
    requires Plain(v)
    ensures Primary(v) == None
  {
    if v != "" { PlainHasNoPrimary(v[1..]); }
  }

  lemma {:induction false} PrimaryOf(v: string, rest: string)
    requires Plain(v)
    ensures Primary(v + "-" + rest) == Some(v)
  {
    var all := v + "-" + rest;
    if v == "" {
      assert all[0] == '-';
    } else {
      PrimaryOf(v[1..], rest);
      assert all[1..] == v[1..] + "-" + rest && [v[0]] + v[1..] == v;
    }
  }

  lemma {:induction false} FirstTokenStops(a: Text, c: CodePoint, b: Text)
    requires Separator(c) && forall k :: 0 <= k < |a| ==> !Separator(a[k])
    ensures FirstToken(a + [c] + b) == a
  {
    if a == [] {
      assert (a + [c] + b)[0] == c;
    } else {
      FirstTokenStops(a[1..], c, b);
      assert (a + [c] + b)[1..] == a[1..] + [c] + b;
    }
  }

  lemma PlainPoints(v: string)
    requires Plain(v)
    ensures Dashed(Points(v)) == Points(v) && forall k :: 0 <= k < |v| ==> !Separator(Points(v)[k])
  {
  }

  /** A single name. */
  lemma NameIsResolved(t: Text, v: string)
    requires NormalForm(t) == Points(v) && Plain(v)
    ensures Language(EncodeAll(t)) == EncodeAll(Points(Named(v)))
  {
    PlainPoints(v);
    FirstTokenOfAll(Points(v));
    NormalFormTwice(t);
    LanguageIs(t);
    SpelledPoints(v);
    PlainHasNoPrimary(v);
  }

  /** Of a list the first name counts. */
  lemma FirstOfListCounts(t: Text, v: string, c: CodePoint, rest: Text)
    requires c == 0x2C || c == 0x3B || c == 0x2F || c == 0x2B
    requires NormalForm(t) == Points(v) + [c] + rest && Plain(v) && NormalForm(Points(v)) == Points(v)
    ensures Language(EncodeAll(t)) == EncodeAll(Points(Named(v)))
  {
    FirstIsClean(t, v, c, rest);
    LanguageIs(t);
    SpelledPoints(v);
    PlainHasNoPrimary(v);
  }

  lemma FirstIsClean(t: Text, v: string, c: CodePoint, rest: Text)
    requires c == 0x2C || c == 0x3B || c == 0x2F || c == 0x2B
    requires NormalForm(t) == Points(v) + [c] + rest && Plain(v) && NormalForm(Points(v)) == Points(v)
    ensures CleanText(t) == Points(v)
  {
    PlainPoints(v);
    assert Dashed(NormalForm(t)) == Points(v) + [c] + Dashed(rest);
    FirstTokenStops(Points(v), c, Dashed(rest));
  }

  lemma AliasHasNoDash(v: string)
    requires Alias(v).Some?
    ensures forall k :: 0 <= k < |v| ==> v[k] != '-'
  {
    if FirstAliases(v).Some? { FirstHaveNoDash(v); } else { OthersHaveNoDash(v); }
  }

  lemma FirstHaveNoDash(v: string)
    requires FirstAliases(v).Some?
    ensures forall k :: 0 <= k < |v| ==> v[k] != '-'
  {
  }

  lemma OthersHaveNoDash(v: string)
    requires OtherAliases(v).Some?
    ensures forall k :: 0 <= k < |v| ==> v[k] != '-'
  {
  }

  lemma TaggedIsResolved(v: string, rest: string)
    requires Plain(v) && (Alias(v).Some? || KnownPrimary(v))
    ensures Resolved(v + "-" + rest) == Named(v)
  {
    PrimaryOf(v, rest);
    var all := v + "-" + rest;
    assert all[|v|] == '-';
    if Alias(all).Some? { AliasHasNoDash(all); }
  }

  /** A region is kept behind what is neither a name nor a code. */
  lemma UnknownKeepsRegion(v: string, rest: string)
    requires Plain(v) && Alias(v).None? && !KnownPrimary(v)
    ensures Resolved(v + "-" + rest) == v + "-" + rest
  {
    PrimaryOf(v, rest);
    var all := v + "-" + rest;
    assert all[|v|] == '-';
    if Alias(all).Some? { AliasHasNoDash(all); }
  }

  /** What cleaning leaves of a label with a region begins with the language and a dash. */
  lemma CleanTagged(t: Text, v: string, c: CodePoint, rest: Text) returns (tail: string)
    requires c == 0x2D || c == 0x5F
    requires NormalForm(t) == Points(v) + [c] + rest && Plain(v)
    ensures Spelled(CleanText(t)) == v + "-" + tail
  {
    var a, head := NormalForm(t), Points(v) + [DASH];
    HeadOfTagged(a, v, c, rest);
    NormalFormTwice(t);
    NormalIffFixed(a);
    DashedKeepsNormal(a);
    KeepsHead(Dashed(a), FirstToken(Dashed(a)), head);
    tail := SpelledTail(v, NormalForm(FirstToken(Dashed(a))));
  }

  lemma HeadOfTagged(a: Text, v: string, c: CodePoint, rest: Text)
    requires c == 0x2D || c == 0x5F
    requires a == Points(v) + [c] + rest && Plain(v)
    ensures Points(v) + [DASH] <= FirstToken(Dashed(a)) <= Dashed(a)
  {
    var head := Points(v) + [DASH];
    PlainPoints(v);
    assert Dashed(a) == head + Dashed(rest);
    FirstTokenPassesText(head, Dashed(rest));
    FirstTokenIsPrefix(Dashed(a));
  }

  lemma SpelledTail(v: string, n: Text) returns (tail: string)
    requires Plain(v) && Points(v) + [DASH] <= n
    ensures Spelled(Dashed(n)) == v + "-" + tail
  {
    PlainPoints(v);
    var all := Spelled(Dashed(n));
    tail := all[|v| + 1..];
    forall k | 0 <= k < |v| ensures all[k] == v[k] {
      assert n[k] == Points(v)[k] && Dashed(n)[k] == Dashed(Points(v))[k];
    }
    assert n[|v|] == (Points(v) + [DASH])[|v|];
    assert all == all[..|v|] + [all[|v|]] + tail && all[..|v|] == v;
  }

  lemma {:induction false} FirstTokenPassesText(a: Text, b: Text)
    requires forall k :: 0 <= k < |a| ==> !Separator(a[k])
    ensures FirstToken(a + b) == a + FirstToken(b)
  {
    if a == [] {
      assert a + b == b;
    } else {
      FirstTokenPassesText(a[1..], b);
      assert (a + b)[1..] == a[1..] + b;
    }
  }

  /** Normalising a prefix of normal text loses nothing but a blank at its end. */
  lemma KeepsHead(t: Text, p: Text, head: Text)
    requires IsNormal(t) && p <= t && head <= p && head != [] && head[|head| - 1] == DASH
    ensures head <= NormalForm(p)
  {
    ShapedPrefix(t, |p|);
    assert t[..|p|] == p;
    ShapedIsUntouched(p);
  }

  /** A language with a region, written with a dash or an underscore: the region is dropped. */
  lemma RegionIsDropped(t: Text, v: string, c: CodePoint, rest: Text)
    requires c == 0x2D || c == 0x5F
    requires NormalForm(t) == Points(v) + [c] + rest && Plain(v) && (Alias(v).Some? || KnownPrimary(v))
    ensures Language(EncodeAll(t)) == EncodeAll(Points(Named(v)))
  {
    var tail := CleanTagged(t, v, c, rest);
    LanguageIs(t);
    TaggedIsResolved(v, tail);
  }

  /** An invalid label is returned as it is. */
  lemma InvalidLabelIsKept(v: Bytes)
    requires !Valid(v)
    ensures Language(v) == v
  {
  }
}
