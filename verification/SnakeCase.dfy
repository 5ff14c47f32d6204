/** The two snake-case rewriters: chains of global regular-expression passes. */
module SnakeCase {
  import opened Wrappers
  import opened JsString

  // ---------- the passes, as scans ----------

  /**
   * `replace(/([A-Z]+)([A-Z][a-z])/g, '$1_$2')`. At a run of n capitals the first group takes
   * them all and gives one back; it matches when n is at least 2 and a small letter follows.
   */
  function SplitAcronyms(s: string): string
    decreases |s|
  {
    if s == [] then []
    else
      var n := MatchLength(s);
      if n > 0 then s[..n - 1] + "_" + s[n - 1..n + 1] + SplitAcronyms(s[n + 1..])
      else [s[0]] + SplitAcronyms(s[1..])
  }

  /** The capitals of a match at the front of s; 0 for no match. */
  function MatchLength(s: string): (n: nat)
    ensures n == 0 || 2 <= n < |s|
  {
    var n := RunLength(s, IsUpper);
    if 2 <= n < |s| && IsLower(s[n]) then n else 0
  }

  predicate IsLowerOrDigit(c: char) { IsLower(c) || IsDigit(c) }

  /** `replace(/(p)([A-Z])/g, '$1_$2')` for a character class p. */
  function SplitHumps(s: string, p: char -> bool): string
    decreases |s|
  {
    if s == [] then []
    else if |s| >= 2 && p(s[0]) && IsUpper(s[1]) then [s[0], '_', s[1]] + SplitHumps(s[2..], p)
    else [s[0]] + SplitHumps(s[1..], p)
  }

  predicate IsGap(c: char) { c == '-' || IsSpace(c) }

  predicate IsUnderscore(c: char) { c == '_' }

  predicate IsSnakeChar(c: char) { IsLower(c) || IsDigit(c) || c == '_' }

  /** `replace(/[^a-z0-9_]/g, '')` */
  function KeepSnakeChars(s: string): string {
    if s == [] then [] else (if IsSnakeChar(s[0]) then [s[0]] else []) + KeepSnakeChars(s[1..])
  }

  function TextSnakeCase(s: string): string {
    if s == "" then ""
    else
      var split := SplitHumps(SplitAcronyms(s), IsLowerOrDigit);
      ReplaceRuns(KeepSnakeChars(ToLower(ReplaceRuns(split, IsGap, '_'))), IsUnderscore, '_')
  }

  function ColumnSnakeCase(s: string): string {
    ToLower(SplitAcronyms(SplitHumps(s, IsLower)))
  }

  // ---------- one simultaneous rule ----------

  /** A capital starts a word after a small letter, or inside capitals when a small letter follows. */
  predicate AcronymEnds(before: Option<char>, s: string) {
    before.Some? && IsUpper(before.value) && |s| > 1 && IsUpper(s[0]) && IsLower(s[1])
  }

  predicate HumpStarts(before: Option<char>, s: string, p: char -> bool) {
    before.Some? && p(before.value) && s != [] && IsUpper(s[0])
  }

  /** Underscores put in by the acronym rule, the hump rule, or both, each looking at the input only. */
  function Marked(before: Option<char>, s: string, acronyms: bool, humps: bool, p: char -> bool): string
    decreases s
  {
    if s == [] then []
    else
      (if (acronyms && AcronymEnds(before, s)) || (humps && HumpStarts(before, s, p)) then "_" else "")
      + [s[0]] + Marked(Some(s[0]), s[1..], acronyms, humps, p)
  }

  function WordBreaks(s: string, p: char -> bool): string { Marked(None, s, true, true, p) }

  /** Inside a run of capitals followed by a small letter, one underscore, before the last capital. */
  lemma {:induction false} MarkedRun(before: char, s: string, n: nat, p: char -> bool)
    requires 1 <= n < |s| && n == RunLength(s, IsUpper) && IsLower(s[n]) && IsUpper(before)
    ensures Marked(Some(before), s, true, false, p) ==
            s[..n - 1] + "_" + [s[n - 1]] + Marked(Some(s[n - 1]), s[n..], true, false, p)
    decreases n
  {
    var rest := s[1..];
    if n == 1 {
      assert s[..0] == [] && s[1..] == rest && s[1] == s[n];
    } else {
      assert RunLength(rest, IsUpper) == n - 1 && rest[n - 1] == s[n];
      RunIsUpper(s, IsUpper, 1);
      MarkedRun(s[0], rest, n - 1, p);
      RunIsUpper(s, IsUpper, n - 1);
      assert s[..n - 1] == [s[0]] + rest[..n - 2];
      assert rest[n - 1..] == s[n..] && rest[n - 2] == s[n - 1];
      assert !AcronymEnds(Some(before), s);
    }
  }

  lemma {:induction false} RunIsUpper(s: string, p: char -> bool, i: nat)
    requires i < RunLength(s, p)
    ensures p(s[i])
    decreases i
  {
    if i > 0 {
      RunIsUpper(s[1..], p, i - 1);
    }
  }

  lemma {:induction false} RunEnds(s: string, p: char -> bool)
    ensures RunLength(s, p) < |s| ==> !p(s[RunLength(s, p)])
    decreases |s|
  {
    if s != [] && p(s[0]) {
      RunEnds(s[1..], p);
    }
  }

  /** The whole match: the capitals, the underscore before the last, the small letter. */
  lemma MarkedMatch(before: Option<char>, s: string, n: nat, p: char -> bool)
    requires 2 <= n < |s| && n == RunLength(s, IsUpper) && IsLower(s[n]) && !AcronymEnds(before, s)
    ensures Marked(before, s, true, false, p) ==
            s[..n - 1] + "_" + s[n - 1..n + 1] + Marked(Some(s[n]), s[n + 1..], true, false, p)
  {
    hide HumpStarts;
    var rest := s[1..];
    assert RunLength(rest, IsUpper) == n - 1 && rest[n - 1] == s[n];
    MarkedRun(s[0], rest, n - 1, p);
    assert rest[n - 1..] == s[n..] && rest[n - 2] == s[n - 1];
    var tail := Marked(Some(s[n]), s[n + 1..], true, false, p);
    MarkedSmall(s[n - 1], s[n..], p);
    assert s[n..][1..] == s[n + 1..];
    MarkedSkip(before, s, p);
    hide *;
    RegroupMatch(s, n, tail);
  }

  lemma RegroupMatch(s: string, n: nat, tail: string)
    requires 2 <= n < |s|
    ensures [s[0]] + (s[1..][..n - 2] + "_" + [s[n - 1]] + ([s[n]] + tail)) == s[..n - 1] + "_" + s[n - 1..n + 1] + tail
  {
    assert s[..n - 1] == [s[0]] + s[1..][..n - 2];
    assert s[n - 1..n + 1] == [s[n - 1]] + [s[n]];
  }

  lemma MarkedSmall(before: char, s: string, p: char -> bool)
    requires s != [] && IsLower(s[0])
    ensures Marked(Some(before), s, true, false, p) == [s[0]] + Marked(Some(s[0]), s[1..], true, false, p)
  {
  }

  /** No underscore is due before the first character of s. */
  predicate Quiet(before: Option<char>, s: string) {
    before.Some? && IsUpper(before.value) ==>
      var n := RunLength(s, IsUpper); !(1 <= n < |s| && IsLower(s[n]))
  }

  lemma QuietMeans(before: Option<char>, s: string)
    requires Quiet(before, s)
    ensures !AcronymEnds(before, s)
  {
    if |s| > 1 && IsUpper(s[0]) && IsLower(s[1]) {
      assert RunLength(s[1..], IsUpper) == 0;
      assert RunLength(s, IsUpper) == 1;
    }
  }

  lemma QuietNext(s: string)
    requires s != []
    requires var n := RunLength(s, IsUpper); !(2 <= n < |s| && IsLower(s[n]))
    ensures Quiet(Some(s[0]), s[1..])
  {
  }

  /** One step of the acronym scan: over a whole match, or over one character. */
  lemma ScanStep(s: string)
    requires s != []
    ensures var n := MatchLength(s);
            SplitAcronyms(s) ==
            if n > 0 then s[..n - 1] + "_" + s[n - 1..n + 1] + SplitAcronyms(s[n + 1..])
              else [s[0]] + SplitAcronyms(s[1..])
  {
    hide MatchLength;
  }

  lemma MatchMeans(s: string)
    ensures var n, m := RunLength(s, IsUpper), MatchLength(s);
            if 2 <= n < |s| && IsLower(s[n]) then m == n else m == 0
  {
  }

  lemma MarkedSkip(before: Option<char>, s: string, p: char -> bool)
    requires s != [] && !AcronymEnds(before, s)
    ensures Marked(before, s, true, false, p) == [s[0]] + Marked(Some(s[0]), s[1..], true, false, p)
  {
  }

  /** The acronym scan is the acronym rule. */
  lemma {:induction false} AcronymScanIsRule(before: Option<char>, s: string, p: char -> bool)
    requires Quiet(before, s)
    ensures SplitAcronyms(s) == Marked(before, s, true, false, p)
    decreases |s|
  {
    if s != [] {
      hide *;
      QuietMeans(before, s);
      ScanStep(s);
      MatchMeans(s);
      var n := RunLength(s, IsUpper);
      if 2 <= n < |s| && IsLower(s[n]) {
        MarkedMatch(before, s, n, p);
        QuietAfterSmall(s[n], s[n + 1..]);
        AcronymScanIsRule(Some(s[n]), s[n + 1..], p);
      } else {
        MarkedSkip(before, s, p);
        QuietNext(s);
        AcronymScanIsRule(Some(s[0]), s[1..], p);
      }
    }
  }

  lemma QuietAfterSmall(c: char, s: string)
    requires IsLower(c)
    ensures Quiet(Some(c), s)
  {
  }

  /** The class of a hump's first letter has no capitals and no underscore in it. */
  predicate HumpClass(p: char -> bool) { !p('_') && forall c :: IsUpper(c) ==> !p(c) }

  lemma HumpStep(s: string, p: char -> bool)
    requires s != []
    ensures SplitHumps(s, p) ==
            if |s| >= 2 && p(s[0]) && IsUpper(s[1]) then [s[0], '_', s[1]] + SplitHumps(s[2..], p)
            else [s[0]] + SplitHumps(s[1..], p)
  {
  }

  lemma MarkedHump(before: Option<char>, s: string, p: char -> bool)
    requires s != []
    ensures Marked(before, s, false, true, p) ==
            (if HumpStarts(before, s, p) then "_" else "") + [s[0]] + Marked(Some(s[0]), s[1..], false, true, p)
  {
  }

  /** The hump scan is the hump rule. */
  lemma {:induction false} HumpScanIsRule(before: Option<char>, s: string, p: char -> bool)
    requires HumpClass(p) && !HumpStarts(before, s, p)
    ensures SplitHumps(s, p) == Marked(before, s, false, true, p)
    decreases |s|
  {
    if s != [] {
      hide SplitHumps, Marked;
      HumpStep(s, p);
      MarkedHump(before, s, p);
      if |s| >= 2 && p(s[0]) && IsUpper(s[1]) {
        MarkedHump(Some(s[0]), s[1..], p);
        HumpScanIsRule(Some(s[1]), s[2..], p);
        assert s[1..][1..] == s[2..];
        assert [s[0], '_', s[1]] == [s[0]] + ("_" + [s[1]]);
      } else {
        HumpScanIsRule(Some(s[0]), s[1..], p);
      }
    }
  }

  // ---------- the two passes together, in either order ----------

  lemma MarkedStep(before: Option<char>, s: string, acronyms: bool, humps: bool, p: char -> bool)
    requires s != []
    ensures Marked(before, s, acronyms, humps, p) ==
            (if (acronyms && AcronymEnds(before, s)) || (humps && HumpStarts(before, s, p)) then "_" else "")
            + ([s[0]] + Marked(Some(s[0]), s[1..], acronyms, humps, p))
  {
    var rest := Marked(Some(s[0]), s[1..], acronyms, humps, p);
    assert "_" + [s[0]] + rest == "_" + ([s[0]] + rest);
    assert "" + [s[0]] + rest == [s[0]] + rest == "" + ([s[0]] + rest);
  }

  /** Marking again passes over an underscore and the letter after it. */
  lemma MarkedOverUnderscore(before: Option<char>, c: char, rest: string, acronyms: bool, humps: bool, p: char -> bool)
    requires HumpClass(p)
    ensures Marked(before, "_" + ([c] + rest), acronyms, humps, p) ==
            "_" + ([c] + Marked(Some(c), rest, acronyms, humps, p))
  {
    hide Marked;
    var m := [c] + rest;
    var u := "_" + m;
    assert m[0] == c && m[1..] == rest && u[0] == '_' && u[1..] == m;
    MarkedStep(before, u, acronyms, humps, p);
    MarkedStep(Some('_'), m, acronyms, humps, p);
  }

  lemma MarkedOverLetter(before: Option<char>, c: char, rest: string, acronyms: bool, humps: bool, p: char -> bool)
    ensures Marked(before, [c] + rest, acronyms, humps, p) ==
            (if (acronyms && AcronymEnds(before, [c] + rest))
              || (humps && HumpStarts(before, [c] + rest, p)) then "_" else "")
            + ([c] + Marked(Some(c), rest, acronyms, humps, p))
  {
    hide Marked;
    assert ([c] + rest)[1..] == rest;
    MarkedStep(before, [c] + rest, acronyms, humps, p);
  }

  /** The humps of an acronym-marked string: nothing new before or after an inserted underscore. */
  lemma {:induction false} HumpsOverAcronyms(before: Option<char>, s: string, p: char -> bool)
    requires HumpClass(p)
    ensures Marked(before, Marked(before, s, true, false, p), false, true, p) == Marked(before, s, true, true, p)
    decreases s
  {
    if s != [] {
      hide Marked;
      HumpsOverAcronyms(Some(s[0]), s[1..], p);
      MarkedStep(before, s, true, false, p);
      MarkedStep(before, s, true, true, p);
      var rest := Marked(Some(s[0]), s[1..], true, false, p);
      if AcronymEnds(before, s) {
        MarkedOverUnderscore(before, s[0], rest, false, true, p);
      } else {
        MarkedOverLetter(before, s[0], rest, false, true, p);
        assert "" + ([s[0]] + rest) == [s[0]] + rest;
      }
    }
  }

  /** The acronyms of a hump-marked string: an underscore goes in front of a capital after a small letter only. */
  lemma {:induction false} AcronymsOverHumps(before: Option<char>, s: string, p: char -> bool)
    requires HumpClass(p)
    ensures Marked(before, Marked(before, s, false, true, p), true, false, p) == Marked(before, s, true, true, p)
    decreases s
  {
    if s != [] {
      hide Marked;
      AcronymsOverHumps(Some(s[0]), s[1..], p);
      MarkedStep(before, s, false, true, p);
      MarkedStep(before, s, true, true, p);
      var rest := Marked(Some(s[0]), s[1..], false, true, p);
      if HumpStarts(before, s, p) {
        MarkedOverUnderscore(before, s[0], rest, true, false, p);
      } else {
        NextLetter(s[0], s[1..], p);
        MarkedOverLetter(before, s[0], rest, true, false, p);
        assert "" + ([s[0]] + rest) == [s[0]] + rest;
      }
    }
  }

  /** What follows a capital is a small letter after marking exactly when it was before. */
  lemma NextLetter(c: char, s: string, p: char -> bool)
    requires HumpClass(p)
    ensures var m := Marked(Some(c), s, false, true, p);
            && (m != [] <==> s != [])
            && (IsUpper(c) && s != [] ==> m[0] == s[0])
  {
  }

  /** Both orders of the two passes put in the same underscores. */
  lemma PassesMarkWordBreaks(s: string)
    ensures SplitHumps(SplitAcronyms(s), IsLowerOrDigit) == WordBreaks(s, IsLowerOrDigit)
    ensures SplitAcronyms(SplitHumps(s, IsLower)) == WordBreaks(s, IsLower)
  {
    AcronymScanIsRule(None, s, IsLowerOrDigit);
    HumpScanIsRule(None, SplitAcronyms(s), IsLowerOrDigit);
    HumpsOverAcronyms(None, s, IsLowerOrDigit);
    HumpScanIsRule(None, s, IsLower);
    AcronymScanIsRule(None, SplitHumps(s, IsLower), IsLower);
    AcronymsOverHumps(None, s, IsLower);
  }

  // ---------- only underscores are put in ----------

  /** b is a with some underscores put in. */
  predicate OnlyInserts(a: string, b: string)
    decreases b
  {
    if b == [] then a == []
    else (a != [] && a[0] == b[0] && OnlyInserts(a[1..], b[1..])) || (b[0] == '_' && OnlyInserts(a, b[1..]))
  }

  lemma {:induction false} MarkedOnlyInserts(before: Option<char>, s: string, p: char -> bool)
    ensures OnlyInserts(ToLower(s), ToLower(Marked(before, s, true, true, p)))
    decreases s
  {
    if s != [] {
      MarkedOnlyInserts(Some(s[0]), s[1..], p);
      var rest := Marked(Some(s[0]), s[1..], true, true, p);
      var m := [s[0]] + rest;
      assert ToLower(s)[1..] == ToLower(s[1..]) && ToLower(m)[1..] == ToLower(rest);
      assert OnlyInserts(ToLower(s), ToLower(m));
      var u := "_" + m;
      assert ToLower(u)[1..] == ToLower(m) && ToLower(u)[0] == '_';
      assert "_" + [s[0]] + rest == u;
    }
  }

  /** The column rewriter changes the lower-cased input only by inserting underscores, at the word breaks. */
  lemma ColumnOnlyInserts(s: string)
    ensures ColumnSnakeCase(s) == ToLower(WordBreaks(s, IsLower))
    ensures OnlyInserts(ToLower(s), ColumnSnakeCase(s))
  {
    hide SplitHumps, SplitAcronyms;
    PassesMarkWordBreaks(s);
    MarkedOnlyInserts(None, s, IsLower);
  }

  predicate NoCapitals(s: string) { forall c :: c in s ==> !IsUpper(c) }

  lemma {:induction false} NoCapitalsUnmarked(before: Option<char>, s: string, p: char -> bool)
    requires NoCapitals(s)
    ensures Marked(before, s, true, true, p) == s
    decreases s
  {
    if s != [] {
      assert s[0] in s && s == [s[0]] + s[1..];
      NoCapitalsUnmarked(Some(s[0]), s[1..], p);
    }
  }

  lemma LowerHasNoCapitals(s: string)
    ensures NoCapitals(ToLower(s))
    ensures NoCapitals(s) <==> ToLower(s) == s
  {
    var t := ToLower(s);
    forall c | c in t ensures !IsUpper(c) {
      var i :| 0 <= i < |t| && t[i] == c;
      assert t[i] == LowerChar(s[i]);
    }
    if NoCapitals(s) {
      assert forall i :: 0 <= i < |s| ==> s[i] in s && t[i] == s[i];
    }
  }

  /** The fixed points are the strings without capitals, so rewriting twice is rewriting once. */
  lemma ColumnFixesIff(s: string)
    ensures ColumnSnakeCase(s) == s <==> NoCapitals(s)
    ensures ColumnSnakeCase(ColumnSnakeCase(s)) == ColumnSnakeCase(s)
  {
    hide ColumnSnakeCase, ToLower;
    ColumnOnlyInserts(s);
    LowerHasNoCapitals(WordBreaks(s, IsLower));
    LowerHasNoCapitals(s);
    if NoCapitals(s) {
      NoCapitalsUnmarked(None, s, IsLower);
    }
    var t := ColumnSnakeCase(s);
    ColumnOnlyInserts(t);
    NoCapitalsUnmarked(None, t, IsLower);
    LowerHasNoCapitals(t);
  }

  // ---------- the text rewriter ----------

  predicate IsAlnum(c: char) { IsLower(c) || IsUpper(c) || IsDigit(c) }

  /** The letters and digits of a string, in order. */
  function Alnum(s: string): string {
    if s == [] then [] else (if IsAlnum(s[0]) then [s[0]] else []) + Alnum(s[1..])
  }

  lemma {:induction false} MarkedKeepsAlnum(before: Option<char>, s: string, p: char -> bool)
    ensures Alnum(Marked(before, s, true, true, p)) == Alnum(s)
    decreases s
  {
    if s != [] {
      MarkedKeepsAlnum(Some(s[0]), s[1..], p);
      var rest := Marked(Some(s[0]), s[1..], true, true, p);
      var m := [s[0]] + rest;
      assert m[1..] == rest;
      assert ("_" + m)[1..] == m && "_" + [s[0]] + rest == "_" + m;
    }
  }

  lemma {:induction false} RunsKeepAlnum(s: string, p: char -> bool)
    requires forall c :: p(c) ==> !IsAlnum(c)
    ensures Alnum(ReplaceRuns(s, p, '_')) == Alnum(s)
    decreases |s|
  {
    if s != [] {
      if p(s[0]) {
        RunsKeepAlnum(s[RunLength(s, p)..], p);
        RunHasNoAlnum(s, p);
        var rest := ReplaceRuns(s[RunLength(s, p)..], p, '_');
        assert (['_'] + rest)[1..] == rest;
      } else {
        RunsKeepAlnum(s[1..], p);
        var rest := ReplaceRuns(s[1..], p, '_');
        assert ([s[0]] + rest)[1..] == rest;
      }
    }
  }

  lemma {:induction false} RunHasNoAlnum(s: string, p: char -> bool)
    requires forall c :: p(c) ==> !IsAlnum(c)
    ensures Alnum(s[RunLength(s, p)..]) == Alnum(s)
    decreases |s|
  {
    if s != [] && p(s[0]) {
      RunHasNoAlnum(s[1..], p);
      assert s[RunLength(s, p)..] == s[1..][RunLength(s[1..], p)..];
    }
  }

  lemma {:induction false} LowerAlnum(s: string)
    ensures Alnum(ToLower(s)) == ToLower(Alnum(s))
  {
    if s != [] {
      LowerAlnum(s[1..]);
      assert ToLower(s)[1..] == ToLower(s[1..]);
      if IsAlnum(s[0]) {
        assert ([s[0]] + Alnum(s[1..]))[1..] == Alnum(s[1..]);
      }
    }
  }

  lemma {:induction false} KeepKeepsAlnum(s: string)
    requires NoCapitals(s)
    ensures Alnum(KeepSnakeChars(s)) == Alnum(s)
    ensures forall c :: c in KeepSnakeChars(s) ==> IsSnakeChar(c)
  {
    if s != [] {
      assert s[0] in s && forall c :: c in s[1..] ==> c in s;
      KeepKeepsAlnum(s[1..]);
      var rest := KeepSnakeChars(s[1..]);
      assert !IsUpper(s[0]);
      if IsSnakeChar(s[0]) {
        assert KeepSnakeChars(s) == [s[0]] + rest && ([s[0]] + rest)[1..] == rest;
      } else {
        assert KeepSnakeChars(s) == rest;
      }
    }
  }

  predicate NoDoubleUnderscore(s: string) {
    forall i :: 0 <= i < |s| - 1 ==> !(s[i] == '_' && s[i + 1] == '_')
  }

  /** Snake form: small letters, digits and single underscores. */
  predicate SnakeForm(s: string) { (forall c :: c in s ==> IsSnakeChar(c)) && NoDoubleUnderscore(s) }

  lemma {:induction false} CollapseUnderscores(s: string)
    requires forall c :: c in s ==> IsSnakeChar(c)
    ensures var r := ReplaceRuns(s, IsUnderscore, '_');
            SnakeForm(r) && (r != [] <==> s != []) && (s != [] ==> (r[0] == '_' <==> s[0] == '_'))
    decreases |s|
  {
    if s != [] {
      assert s[0] in s;
      if s[0] == '_' {
        var rest := s[RunLength(s, IsUnderscore)..];
        RunEnds(s, IsUnderscore);
        CollapseUnderscores(rest);
      } else {
        CollapseUnderscores(s[1..]);
      }
    }
  }

  /**
   * The text rewriter keeps the letters and digits, lower-cased, in order, and puts nothing but
   * single underscores between them.
   */
  lemma TextKeepsContent(s: string)
    ensures Alnum(TextSnakeCase(s)) == ToLower(Alnum(s))
    ensures SnakeForm(TextSnakeCase(s))
  {
    if s != "" {
      hide SplitHumps, SplitAcronyms, Marked, ReplaceRuns, ToLower, KeepSnakeChars, Alnum, SnakeForm;
      PassesMarkWordBreaks(s);
      MarkedKeepsAlnum(None, s, IsLowerOrDigit);
      TailKeepsContent(WordBreaks(s, IsLowerOrDigit));
    } else {
      assert TextSnakeCase(s) == "" && ToLower(Alnum(s)) == "";
    }
  }

  /** The passes after the two scans. */
  lemma TailKeepsContent(split: string)
    ensures var r := ReplaceRuns(KeepSnakeChars(ToLower(ReplaceRuns(split, IsGap, '_'))), IsUnderscore, '_');
            Alnum(r) == ToLower(Alnum(split)) && SnakeForm(r)
  {
    hide ReplaceRuns, ToLower, KeepSnakeChars, Alnum, NoCapitals, SnakeForm;
    GapsHoldNoAlnum();
    RunsKeepAlnum(split, IsGap);
    var gaps := ReplaceRuns(split, IsGap, '_');
    LowerAlnum(gaps);
    LowerHasNoCapitals(gaps);
    KeepKeepsAlnum(ToLower(gaps));
    RunsKeepAlnum(KeepSnakeChars(ToLower(gaps)), IsUnderscore);
    CollapseUnderscores(KeepSnakeChars(ToLower(gaps)));
  }

  lemma GapsHoldNoAlnum()
    ensures forall c :: IsGap(c) || IsUnderscore(c) ==> !IsAlnum(c)
  {
  }

  /** A string whose runs of p are single underscores is left alone. */
  lemma {:induction false} NoRuns(s: string, p: char -> bool)
    requires forall i :: 0 <= i < |s| && p(s[i]) ==> s[i] == '_' && !(i + 1 < |s| && p(s[i + 1]))
    ensures ReplaceRuns(s, p, '_') == s
    decreases |s|
  {
    if s != [] {
      var rest := s[1..];
      forall i | 0 <= i < |rest| && p(rest[i]) ensures rest[i] == '_' && !(i + 1 < |rest| && p(rest[i + 1])) {
        assert p(s[i + 1]);
      }
      NoRuns(rest, p);
      if p(s[0]) {
        assert !(0 + 1 < |s| && p(s[0 + 1]));
        assert RunLength(rest, p) == 0;
        assert RunLength(s, p) == 1;
      }
      assert s == [s[0]] + rest;
    }
  }

  lemma {:induction false} KeepsAll(s: string)
    requires forall c :: c in s ==> IsSnakeChar(c)
    ensures KeepSnakeChars(s) == s
  {
    if s != [] {
      assert s[0] in s && s == [s[0]] + s[1..];
      KeepsAll(s[1..]);
    }
  }

  /** The fixed points are exactly the strings in snake form, so rewriting twice is rewriting once. */
  lemma TextFixesIff(s: string)
    ensures TextSnakeCase(s) == s <==> SnakeForm(s)
    ensures TextSnakeCase(TextSnakeCase(s)) == TextSnakeCase(s)
  {
    TextKeepsContent(s);
    if SnakeForm(s) {
      SnakeFormIsFixed(s);
    }
    SnakeFormIsFixed(TextSnakeCase(s));
  }

  lemma SnakeFormIsFixed(s: string)
    requires SnakeForm(s)
    ensures TextSnakeCase(s) == s
  {
    hide SplitHumps, SplitAcronyms, ReplaceRuns, KeepSnakeChars, ToLower, Marked, NoCapitals, NoDoubleUnderscore;
    SnakeFormHasNoRuns(s);
    PassesMarkWordBreaks(s);
    NoCapitalsUnmarked(None, s, IsLowerOrDigit);
    LowerHasNoCapitals(s);
    KeepsAll(s);
  }

  lemma SnakeFormHasNoRuns(s: string)
    requires SnakeForm(s)
    ensures NoCapitals(s) && ReplaceRuns(s, IsGap, '_') == s && ReplaceRuns(s, IsUnderscore, '_') == s
  {
    hide ReplaceRuns;
    assert forall i :: 0 <= i < |s| ==> s[i] in s;
    NoRuns(s, IsGap);
    NoRuns(s, IsUnderscore);
  }

  // ---------- the text rewriter in one pass ----------

  predicate SmallOrDigit(c: char) { c in SMALL_LETTERS || c in DIGITS }

  predicate IsLetterOrDigit(c: char) { c in CAPITALS || SmallOrDigit(c) }

  /**
   * One pass: letters and digits are kept in small letters, a run of dashes, underscores and white
   * space becomes one underscore, and everything else is left out, without ending the run.
   */
  function OnePass(s: string, inRun: bool): string {
    if s == [] then []
    else if s[0] == '_' || s[0] == '-' || IsSpace(s[0]) then (if inRun then "" else "_") + OnePass(s[1..], true)
    else if IsLetterOrDigit(s[0]) then [LowerChar(s[0])] + OnePass(s[1..], false)
    else OnePass(s[1..], inRun)
  }

  /** The whole text rewriter: mark the word breaks, then that one pass. */
  lemma TextIsOnePass(s: string)
    ensures TextSnakeCase(s) == OnePass(WordBreaks(s, SmallOrDigit), false)
  {
    hide OnePass, SplitHumps, SplitAcronyms, ReplaceRuns, KeepSnakeChars, ToLower, Marked;
    PassesMarkWordBreaks(s);
    forall c ensures IsLowerOrDigit(c) <==> SmallOrDigit(c) {
      AlphabetWrittenOut(c);
    }
    SameMarks(None, s, IsLowerOrDigit, SmallOrDigit);
    if s == "" {
      NothingToMark();
    } else {
      var split := WordBreaks(s, SmallOrDigit);
      RunsAreDropped(Tidied(split));
      TidiedOnePass(split, false);
    }
  }

  lemma NothingToMark()
    ensures OnePass(WordBreaks("", SmallOrDigit), false) == ""
  {
  }

  lemma {:induction false} SameMarks(before: Option<char>, s: string, p: char -> bool, q: char -> bool)
    requires forall c :: p(c) <==> q(c)
    ensures Marked(before, s, true, true, p) == Marked(before, s, true, true, q)
    decreases s
  {
    if s != [] {
      SameMarks(Some(s[0]), s[1..], p, q);
    }
  }

  /** The passes between the word breaks and the last one. */
  function Tidied(s: string): string { KeepSnakeChars(ToLower(ReplaceRuns(s, IsGap, '_'))) }

  function DropRuns(s: string, inRun: bool): string {
    if s == [] then []
    else if s[0] == '_' then (if inRun then "" else "_") + DropRuns(s[1..], true)
    else [s[0]] + DropRuns(s[1..], false)
  }

  lemma {:induction false} RunsAreDropped(s: string)
    ensures ReplaceRuns(s, IsUnderscore, '_') == DropRuns(s, false)
    decreases |s|
  {
    if s != [] {
      if s[0] == '_' {
        var rest := s[RunLength(s, IsUnderscore)..];
        RunsAreDropped(rest);
        RunEnds(s, IsUnderscore);
        SkipUnderscores(s[1..]);
        assert rest == s[1..][RunLength(s[1..], IsUnderscore)..];
        assert DropRuns(rest, true) == DropRuns(rest, false);
      } else {
        RunsAreDropped(s[1..]);
      }
    }
  }

  lemma {:induction false} SkipUnderscores(s: string)
    ensures DropRuns(s, true) == DropRuns(s[RunLength(s, IsUnderscore)..], true)
  {
    if s != [] && s[0] == '_' {
      SkipUnderscores(s[1..]);
      assert s[RunLength(s, IsUnderscore)..] == s[1..][RunLength(s[1..], IsUnderscore)..];
    }
  }

  lemma {:induction false} SkipGaps(s: string)
    ensures OnePass(s, true) == OnePass(s[RunLength(s, IsGap)..], true)
  {
    if s != [] && IsGap(s[0]) {
      SkipGaps(s[1..]);
      assert s[RunLength(s, IsGap)..] == s[1..][RunLength(s[1..], IsGap)..];
    }
  }

  /** How the passes in between take one character, and put the rest after it. */
  lemma TidiedStep(c: char, rest: string)
    ensures KeepSnakeChars(ToLower([c] + rest)) ==
            (if IsSnakeChar(LowerChar(c)) then [LowerChar(c)] else []) + KeepSnakeChars(ToLower(rest))
  {
    assert ([c] + rest)[1..] == rest;
    assert ToLower([c] + rest)[1..] == ToLower(rest);
  }

  lemma {:induction false} TidiedOnePass(s: string, inRun: bool)
    ensures DropRuns(Tidied(s), inRun) == OnePass(s, inRun)
    decreases |s|
  {
    if s != [] {
      if IsGap(s[0]) {
        var rest := s[RunLength(s, IsGap)..];
        TidiedOnePass(rest, true);
        TidiedStep('_', ReplaceRuns(rest, IsGap, '_'));
        SkipGaps(s[1..]);
        assert rest == s[1..][RunLength(s[1..], IsGap)..];
        assert Tidied(s) == ['_'] + Tidied(rest);
        assert (['_'] + Tidied(rest))[1..] == Tidied(rest);
      } else {
        TidiedOnePass(s[1..], true);
        TidiedOnePass(s[1..], false);
        TidiedStep(s[0], ReplaceRuns(s[1..], IsGap, '_'));
        AlphabetWrittenOut(s[0]);
        var c, tail := LowerChar(s[0]), Tidied(s[1..]);
        assert Tidied(s) == (if IsSnakeChar(c) then [c] else []) + tail;
        assert ([c] + tail)[1..] == tail && [] + tail == tail;
      }
    }
  }
}
