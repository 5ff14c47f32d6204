/** Resource names: the chain of rewrites in `normalizeName` and what it amounts to. */
module ResourceNames {
  import opened JsString

  predicate IsNameChar(c: char) { IsLower(c) || IsDigit(c) || c == '-' }

  function DashOther(c: char): char { if IsNameChar(c) then c else '-' }

  predicate IsDash(c: char) { c == '-' }

  function Dashes(s: string): nat { RunLength(s, IsDash) }

  /** `replace(/-+/g, '-')` */
  function CollapseDashes(s: string): string { ReplaceRuns(s, IsDash, '-') }

  function StripFront(s: string): string { if s != [] && s[0] == '-' then s[1..] else s }

  function StripBack(s: string): string { if s != [] && s[|s| - 1] == '-' then s[..|s| - 1] else s }

  /** `replace(/^-|-$/g, '')`: one dash off either end. */
  function StripEdges(s: string): string { StripBack(StripFront(s)) }

  function NormalizeName(s: string): string {
    StripEdges(CollapseDashes(Map(DashOther, ToLower(Trim(s)))))
  }

  function ResourceName(project: string, environment: string, suffix: string): string {
    NormalizeName(project + ("-" + (environment + ("-" + suffix))))
  }

  // ---------- the simple form: words joined by dashes ----------

  function NonEmpty(parts: seq<string>): seq<string> {
    if parts == [] then [] else (if parts[0] != "" then [parts[0]] else []) + NonEmpty(parts[1..])
  }

  /** The maximal runs of letters and digits, lower-cased. */
  function Words(s: string): seq<string> {
    NonEmpty(Split(Map(DashOther, ToLower(s)), '-'))
  }

  lemma {:induction false} NonEmptyConcat(a: seq<string>, b: seq<string>)
    ensures NonEmpty(a + b) == NonEmpty(a) + NonEmpty(b)
  {
    if a == [] {
      assert a + b == b;
    } else {
      NonEmptyConcat(a[1..], b);
      assert (a + b)[0] == a[0] && (a + b)[1..] == a[1..] + b;
      var head := if a[0] != "" then [a[0]] else [];
      assert head + (NonEmpty(a[1..]) + NonEmpty(b)) == (head + NonEmpty(a[1..])) + NonEmpty(b);
    }
  }

  lemma {:induction false} NonEmptyMembers(parts: seq<string>)
    ensures forall p :: p in NonEmpty(parts) <==> p in parts && p != ""
    ensures (forall p :: p in parts ==> p != "") ==> NonEmpty(parts) == parts
  {
    if parts != [] {
      NonEmptyMembers(parts[1..]);
      assert parts == [parts[0]] + parts[1..];
      assert forall p :: p in parts <==> p == parts[0] || p in parts[1..];
      assert parts[0] in parts;
      if forall p :: p in parts ==> p != "" {
        assert forall p :: p in parts[1..] ==> p in parts;
      }
    }
  }

  /** Words of a string joined by a dash from two halves. */
  lemma WordsConcat(a: string, b: string)
    ensures Words(a + ("-" + b)) == Words(a) + Words(b)
  {
    hide Map;
    MapConcat(LowerChar, "-", b);
    MapConcat(LowerChar, a, "-" + b);
    MapConcat(DashOther, ToLower("-"), ToLower(b));
    MapConcat(DashOther, ToLower(a), ToLower("-") + ToLower(b));
    var x, y := Map(DashOther, ToLower(a)), Map(DashOther, ToLower(b));
    assert Map(DashOther, ToLower("-")) == "-";
    SplitConcat(x, y, '-');
    NonEmptyConcat(Split(x, '-'), Split(y, '-'));
  }

  // ---------- trimming does not matter ----------

  lemma MappedSpace(c: char)
    requires IsSpace(c)
    ensures DashOther(LowerChar(c)) == '-'
  {
  }

  lemma {:induction false} DashFrontLosesNothing(s: string)
    ensures NonEmpty(Split("-" + s, '-')) == NonEmpty(Split(s, '-'))
    ensures NonEmpty(Split(s + "-", '-')) == NonEmpty(Split(s, '-'))
  {
    assert ("-" + s)[1..] == s;
    assert ([[]] + Split(s, '-'))[1..] == Split(s, '-');
    SplitConcat(s, [], '-');
    assert s + (['-'] + []) == s + "-";
    NonEmptyConcat(Split(s, '-'), [[]]);
    NonEmptyMembers([[]]);
  }

  /** The mapped form of a string with a space at one end has a dash there. */
  lemma MappedSpaces(front: string, c: char, back: string)
    requires IsSpace(c)
    ensures Map(DashOther, ToLower(front + [c])) == Map(DashOther, ToLower(front)) + "-"
    ensures Map(DashOther, ToLower([c] + back)) == "-" + Map(DashOther, ToLower(back))
  {
    hide DashOther, LowerChar, IsSpace;
    MappedSpace(c);
    MapConcat(LowerChar, front, [c]);
    MapConcat(LowerChar, [c], back);
    MapConcat(DashOther, ToLower(front), ToLower([c]));
    MapConcat(DashOther, ToLower([c]), ToLower(back));
    assert Map(DashOther, ToLower([c])) == "-";
  }

  lemma {:induction false} TrimStartKeepsWords(s: string)
    ensures Words(TrimStart(s)) == Words(s)
  {
    if s != [] && IsSpace(s[0]) {
      assert TrimStart(s) == TrimStart(s[1..]);
      TrimStartKeepsWords(s[1..]);
      hide Map, TrimStart, Split, NonEmpty, ToLower;
      assert s == [s[0]] + s[1..];
      MappedSpaces([], s[0], s[1..]);
      DashFrontLosesNothing(Map(DashOther, ToLower(s[1..])));
    }
  }

  lemma {:induction false} TrimEndKeepsWords(s: string)
    ensures Words(TrimEnd(s)) == Words(s)
  {
    if s != [] && IsSpace(s[|s| - 1]) {
      var front := s[..|s| - 1];
      assert TrimEnd(s) == TrimEnd(front);
      TrimEndKeepsWords(front);
      hide Map, TrimEnd, Split, NonEmpty, ToLower;
      assert s == front + [s[|s| - 1]];
      MappedSpaces(front, s[|s| - 1], []);
      DashFrontLosesNothing(Map(DashOther, ToLower(front)));
    }
  }

  // ---------- collapsing and stripping keep the words ----------

  lemma {:induction false} DropRun(s: string)
    ensures NonEmpty(Split(s[Dashes(s)..], '-')) == NonEmpty(Split(s, '-'))
    ensures s[Dashes(s)..] == [] || s[Dashes(s)..][0] != '-'
  {
    if s != [] && s[0] == '-' {
      var rest := s[1..];
      DropRun(rest);
      DashFrontLosesNothing(rest);
      assert s == "-" + rest && s[Dashes(s)..] == rest[Dashes(rest)..];
    }
  }

  lemma {:induction false} CollapseKeepsWords(s: string)
    ensures Split(CollapseDashes(s), '-')[0] == Split(s, '-')[0]
    ensures NonEmpty(Split(CollapseDashes(s), '-')[1..]) == NonEmpty(Split(s, '-')[1..])
    decreases |s|
  {
    if s != [] {
      if s[0] == '-' {
        var rest := s[Dashes(s)..];
        CollapseKeepsWords(rest);
        DropRun(s);
        DashFrontLosesNothing(s[1..]);
        DashFrontLosesNothing(CollapseDashes(rest));
        assert s == "-" + s[1..];
        assert Split(s, '-')[1..] == Split(s[1..], '-');
        assert ("-" + CollapseDashes(rest))[1..] == CollapseDashes(rest);
        assert Split(CollapseDashes(s), '-')[1..] == Split(CollapseDashes(rest), '-');
        SameParts(CollapseDashes(rest), rest);
      } else {
        CollapseKeepsWords(s[1..]);
        var c := CollapseDashes(s[1..]);
        assert ([s[0]] + c)[1..] == c;
      }
    }
  }

  lemma SameParts(a: string, b: string)
    requires Split(a, '-')[0] == Split(b, '-')[0]
    requires NonEmpty(Split(a, '-')[1..]) == NonEmpty(Split(b, '-')[1..])
    ensures NonEmpty(Split(a, '-')) == NonEmpty(Split(b, '-'))
  {
  }

  predicate NoDouble(s: string) {
    forall i :: 0 <= i < |s| - 1 ==> !(s[i] == '-' && s[i + 1] == '-')
  }

  lemma {:induction false} CollapseHasNoDouble(s: string)
    ensures NoDouble(CollapseDashes(s))
    ensures CollapseDashes(s) != [] <==> s != []
    ensures s != [] ==> (CollapseDashes(s)[0] == '-' <==> s[0] == '-')
    ensures forall c :: c in CollapseDashes(s) ==> c in s
    decreases |s|
  {
    if s != [] {
      if s[0] == '-' {
        DropRun(s);
        CollapseHasNoDouble(s[Dashes(s)..]);
      } else {
        CollapseHasNoDouble(s[1..]);
      }
    }
  }

  predicate NoEdge(s: string) { s == [] || (s[0] != '-' && s[|s| - 1] != '-') }

  lemma StripFrontIsClean(s: string)
    requires NoDouble(s)
    ensures var t := StripFront(s);
            && NoDouble(t) && (t == [] || t[0] != '-')
            && NonEmpty(Split(t, '-')) == NonEmpty(Split(s, '-'))
            && forall c :: c in t ==> c in s
  {
    if s != [] && s[0] == '-' {
      var t := s[1..];
      assert s == "-" + t;
      DashFrontLosesNothing(t);
      assert forall i :: 0 <= i < |t| ==> t[i] == s[i + 1];
    }
  }

  lemma StripBackIsClean(s: string)
    requires NoDouble(s) && (s == [] || s[0] != '-')
    ensures var t := StripBack(s);
            && NoDouble(t) && NoEdge(t)
            && NonEmpty(Split(t, '-')) == NonEmpty(Split(s, '-'))
            && forall c :: c in t ==> c in s
  {
    if s != [] && s[|s| - 1] == '-' {
      var t := s[..|s| - 1];
      assert s == t + "-";
      DashFrontLosesNothing(t);
    }
  }

  lemma StripIsClean(s: string)
    requires NoDouble(s)
    ensures NoDouble(StripEdges(s)) && NoEdge(StripEdges(s))
    ensures NonEmpty(Split(StripEdges(s), '-')) == NonEmpty(Split(s, '-'))
    ensures forall c :: c in StripEdges(s) ==> c in s
  {
    hide Split, NonEmpty;
    StripFrontIsClean(s);
    StripBackIsClean(StripFront(s));
  }

  lemma {:induction false} CleanParts(u: string)
    requires NoDouble(u) && (u != [] ==> u[|u| - 1] != '-')
    ensures forall p :: p in Split(u, '-')[1..] ==> p != ""
    ensures u != [] && u[0] != '-' ==> Split(u, '-')[0] != ""
  {
    if u != [] {
      var rest := u[1..];
      assert forall i :: 0 <= i < |rest| ==> rest[i] == u[i + 1];
      CleanParts(rest);
      var parts := Split(rest, '-');
      assert parts == [parts[0]] + parts[1..];
      if u[0] == '-' {
        assert rest != [] && rest[0] != '-';
        assert Split(u, '-')[1..] == parts;
      } else {
        assert Split(u, '-')[1..] == parts[1..];
      }
    }
  }

  /** A string without doubled or edge dashes is its words joined. */
  lemma CleanIsJoined(u: string)
    requires NoDouble(u) && NoEdge(u)
    ensures u == Join(NonEmpty(Split(u, '-')), '-')
  {
    CleanParts(u);
    JoinSplit(u, '-');
    NonEmptyMembers(Split(u, '-'));
    var parts := Split(u, '-');
    if u != [] {
      assert parts == [parts[0]] + parts[1..];
      assert forall p :: p in parts ==> p != "";
    } else {
      assert NonEmpty([[]]) == [] by {
        NonEmptyMembers([[]]);
      }
    }
  }

  // ---------- main results ----------

  /** A normal name: only `a-z0-9-`, no doubled dash, no dash at an edge. */
  predicate Normal(s: string) {
    (forall c :: c in s ==> IsNameChar(c)) && NoDouble(s) && NoEdge(s)
  }

  /** The whole chain is: take the words, join them with single dashes. */
  lemma NormalizeIsJoinedWords(s: string)
    ensures NormalizeName(s) == Join(Words(s), '-')
    ensures Normal(NormalizeName(s))
  {
    hide Split, Join, Trim, TrimStart, TrimEnd;
    var m := Map(DashOther, ToLower(Trim(s)));
    CollapseHasNoDouble(m);
    StripIsClean(CollapseDashes(m));
    var u := StripEdges(CollapseDashes(m));
    CleanIsJoined(u);
    CollapseKeepsWords(m);
    SameParts(CollapseDashes(m), m);
    assert Words(Trim(s)) == Words(s) by {
      TrimKeepsWords(s);
    }
    assert forall c :: c in m ==> IsNameChar(c);
  }

  lemma TrimKeepsWords(s: string)
    ensures Words(Trim(s)) == Words(s)
  {
    TrimStartKeepsWords(s);
    TrimEndKeepsWords(TrimStart(s));
  }

  lemma NormalIsFixed(s: string)
    requires Normal(s)
    ensures Map(DashOther, ToLower(s)) == s
  {
    forall i | 0 <= i < |s| ensures DashOther(LowerChar(s[i])) == s[i] {
      assert s[i] in s;
    }
  }

  /** The fixed points are exactly the normal names; so normalising twice is normalising once. */
  lemma NormalizeFixesIffNormal(s: string)
    ensures NormalizeName(s) == s <==> Normal(s)
    ensures NormalizeName(NormalizeName(s)) == NormalizeName(s)
  {
    hide NormalizeName, Normal;
    NormalizeIsJoinedWords(s);
    if Normal(s) {
      NormalIsJoined(s);
    }
    NormalIsJoined(NormalizeName(s));
    NormalizeIsJoinedWords(NormalizeName(s));
  }

  lemma NormalIsJoined(s: string)
    requires Normal(s)
    ensures s == Join(Words(s), '-')
  {
    CleanIsJoined(s);
    NormalIsFixed(s);
  }

  /** The first trim never changes the result. */
  lemma TrimIsIdle(s: string)
    ensures NormalizeName(s) == StripEdges(CollapseDashes(Map(DashOther, ToLower(s))))
  {
    hide Split, Join, Trim;
    NormalizeIsJoinedWords(s);
    var m := Map(DashOther, ToLower(s));
    CollapseHasNoDouble(m);
    StripIsClean(CollapseDashes(m));
    CleanIsJoined(StripEdges(CollapseDashes(m)));
    CollapseKeepsWords(m);
    SameParts(CollapseDashes(m), m);
  }

  predicate IsNameLetter(c: char) { c in SMALL_LETTERS || c in DIGITS }

  /** The small letters and digits of a string, in order. */
  function NameLetters(s: string): string {
    if s == [] then [] else (if IsNameLetter(s[0]) then [s[0]] else []) + NameLetters(s[1..])
  }

  /** Nothing but dashes is put in, and no letter or digit is lost. */
  lemma NormalizeKeepsLetters(s: string)
    ensures NameLetters(NormalizeName(s)) == NameLetters(ToLower(s))
    ensures forall c :: c in NormalizeName(s) ==> IsNameLetter(c) || c == '-'
  {
    hide Map, ToLower, NameLetters, NormalizeName, IsNameLetter;
    TrimIsIdle(s);
    var m := Map(DashOther, ToLower(s));
    MapKeepsLetters(ToLower(s));
    CollapseKeepsLetters(m);
    StripKeepsLetters(CollapseDashes(m));
    NormalizeIsJoinedWords(s);
    forall c | c in NormalizeName(s) ensures IsNameLetter(c) || c == '-' {
      NameCharWrittenOut(c);
    }
  }

  lemma NameCharWrittenOut(c: char)
    ensures IsNameChar(c) <==> IsNameLetter(c) || c == '-'
    ensures !IsNameLetter('-')
  {
    AlphabetWrittenOut(c);
    AlphabetWrittenOut('-');
  }

  lemma {:induction false} MapKeepsLetters(s: string)
    ensures NameLetters(Map(DashOther, s)) == NameLetters(s)
  {
    if s != [] {
      hide IsNameLetter;
      MapKeepsLetters(s[1..]);
      NameCharWrittenOut(s[0]);
      assert Map(DashOther, s)[1..] == Map(DashOther, s[1..]);
    }
  }

  lemma DashesCarryNothing(s: string)
    ensures NameLetters("-" + s) == NameLetters(s)
    ensures NameLetters(s + "-") == NameLetters(s)
  {
    hide IsNameLetter;
    NameCharWrittenOut('-');
    assert ("-" + s)[1..] == s;
    LettersConcat(s, "-");
    assert "-"[1..] == "";
  }

  lemma {:induction false} LettersConcat(a: string, b: string)
    ensures NameLetters(a + b) == NameLetters(a) + NameLetters(b)
  {
    hide IsNameLetter;
    if a == [] {
      assert a + b == b;
    } else {
      LettersConcat(a[1..], b);
      assert (a + b)[0] == a[0] && (a + b)[1..] == a[1..] + b;
      var head := if IsNameLetter(a[0]) then [a[0]] else [];
      assert head + (NameLetters(a[1..]) + NameLetters(b)) == (head + NameLetters(a[1..])) + NameLetters(b);
    }
  }

  lemma {:induction false} CollapseKeepsLetters(s: string)
    ensures NameLetters(CollapseDashes(s)) == NameLetters(s)
    decreases |s|
  {
    if s != [] {
      hide IsNameLetter;
      if s[0] == '-' {
        CollapseKeepsLetters(s[Dashes(s)..]);
        DashesCarryNothing(CollapseDashes(s[Dashes(s)..]));
        RunCarriesNothing(s);
      } else {
        CollapseKeepsLetters(s[1..]);
        assert ([s[0]] + CollapseDashes(s[1..]))[1..] == CollapseDashes(s[1..]);
      }
    }
  }

  lemma {:induction false} RunCarriesNothing(s: string)
    ensures NameLetters(s[Dashes(s)..]) == NameLetters(s)
  {
    if s != [] && s[0] == '-' {
      RunCarriesNothing(s[1..]);
      DashesCarryNothing(s[1..]);
      assert s == "-" + s[1..] && s[Dashes(s)..] == s[1..][Dashes(s[1..])..];
    }
  }

  lemma StripKeepsLetters(s: string)
    ensures NameLetters(StripEdges(s)) == NameLetters(s)
  {
    hide NameLetters;
    var t := StripFront(s);
    if s != [] && s[0] == '-' {
      DashesCarryNothing(t);
      assert s == "-" + t;
    }
    if t != [] && t[|t| - 1] == '-' {
      DashesCarryNothing(StripBack(t));
      assert t == StripBack(t) + "-";
    }
  }

  lemma WordsAreDashFree(s: string)
    ensures forall w :: w in Words(s) ==> w != "" && Free(w, '-')
  {
    var m := Map(DashOther, ToLower(s));
    JoinSplit(m, '-');
    NonEmptyMembers(Split(m, '-'));
  }

  lemma JoinedWordsInjective(a: seq<string>, b: seq<string>)
    requires forall w :: w in a ==> w != "" && Free(w, '-')
    requires forall w :: w in b ==> w != "" && Free(w, '-')
    requires Join(a, '-') == Join(b, '-')
    ensures a == b
  {
    assert a != [] ==> a[0] in a;
    assert b != [] ==> b[0] in b;
    if a != [] && b != [] {
      SplitJoin(a, '-');
      SplitJoin(b, '-');
    }
  }

  /** Normalising a dash join joins the normalised halves, leaving out an empty one. */
  lemma NormalizeSplits(a: string, b: string)
    ensures var x, y := NormalizeName(a), NormalizeName(b);
            NormalizeName(a + ("-" + b)) == if x == "" then y else if y == "" then x else x + ("-" + y)
  {
    hide NormalizeName, Words;
    NormalizeIsJoinedWords(a);
    NormalizeIsJoinedWords(b);
    NormalizeIsJoinedWords(a + ("-" + b));
    WordsConcat(a, b);
    WordsAreDashFree(a);
    WordsAreDashFree(b);
    JoinConcat(Words(a), Words(b));
  }

  lemma {:induction false} JoinConcat(a: seq<string>, b: seq<string>)
    requires forall w :: w in a ==> w != ""
    requires forall w :: w in b ==> w != ""
    ensures Join(a + b, '-') == if Join(a, '-') == "" then Join(b, '-') else if Join(b, '-') == "" then Join(a, '-')
                                else Join(a, '-') + ("-" + Join(b, '-'))
  {
    assert a != [] ==> a[0] in a;
    assert b != [] ==> b[0] in b;
    if a == [] {
      assert a + b == b;
    } else if b == [] {
      assert a + b == a;
    } else {
      assert (a + b)[0] == a[0] && (a + b)[1..] == a[1..] + b;
      assert forall w :: w in a[1..] ==> w in a;
      JoinConcat(a[1..], b);
      if |a| > 1 {
        assert a[1] in a;
      }
    }
  }

  /**
   * For one project and environment two suffixes get the same resource name exactly when they
   * normalise alike; on normal suffixes the name is injective.
   */
  lemma ResourceNameInjective(project: string, environment: string, s: string, t: string)
    ensures ResourceName(project, environment, s) == ResourceName(project, environment, t) <==>
            NormalizeName(s) == NormalizeName(t)
    ensures Normal(s) && Normal(t) ==>
              (ResourceName(project, environment, s) == ResourceName(project, environment, t) ==> s == t)
  {
    hide NormalizeName, Words, Join, Normal;
    NameWords(project, environment, s);
    NameWords(project, environment, t);
    NormalizeIsJoinedWords(s);
    NormalizeIsJoinedWords(t);
    WordsAreDashFree(s);
    WordsAreDashFree(t);
    var front := Words(project) + Words(environment);
    WordsAreDashFree(project);
    WordsAreDashFree(environment);
    if Join(front + Words(s), '-') == Join(front + Words(t), '-') {
      JoinedWordsInjective(front + Words(s), front + Words(t));
      assert Words(s) == (front + Words(s))[|front|..] && Words(t) == (front + Words(t))[|front|..];
    }
    if NormalizeName(s) == NormalizeName(t) {
      JoinedWordsInjective(Words(s), Words(t));
    }
    NormalizeFixesIffNormal(s);
    NormalizeFixesIffNormal(t);
  }

  lemma NameWords(project: string, environment: string, s: string)
    ensures ResourceName(project, environment, s) == Join(Words(project) + Words(environment) + Words(s), '-')
  {
    hide NormalizeName, Words;
    NormalizeIsJoinedWords(project + ("-" + (environment + ("-" + s))));
    WordsConcat(environment, s);
    WordsConcat(project, environment + ("-" + s));
    assert Words(project) + (Words(environment) + Words(s)) == Words(project) + Words(environment) + Words(s);
  }

  lemma NormalIffWords(s: string, t: string)
    ensures NormalizeName(s) == NormalizeName(t) <==> Words(s) == Words(t)
  {
    hide NormalizeName, Words, Join;
    NormalizeIsJoinedWords(s);
    NormalizeIsJoinedWords(t);
    WordsAreDashFree(s);
    WordsAreDashFree(t);
    if NormalizeName(s) == NormalizeName(t) {
      JoinedWordsInjective(Words(s), Words(t));
    }
  }

  /**
   * Across configurations: two projects and environments give one suffix the same name exactly
   * when they normalise alike joined by a dash, that is when their words in a row are the same,
   * however these are shared out; the suffix plays no part.
   */
  lemma ProjectsCollideIff(project: string, environment: string, project': string, environment': string, s: string)
    ensures ResourceName(project, environment, s) == ResourceName(project', environment', s) <==>
            NormalizeName(project + ("-" + environment)) == NormalizeName(project' + ("-" + environment'))
    ensures ResourceName(project, environment, s) == ResourceName(project', environment', s) <==>
            Words(project) + Words(environment) == Words(project') + Words(environment')
  {
    hide NormalizeName, Words, Join, ResourceName;
    NameWords(project, environment, s);
    NameWords(project', environment', s);
    WordsConcat(project, environment);
    WordsConcat(project', environment');
    NormalIffWords(project + ("-" + environment), project' + ("-" + environment'));
    var front, front' := Words(project) + Words(environment), Words(project') + Words(environment');
    WordsAreDashFree(project);
    WordsAreDashFree(environment);
    WordsAreDashFree(project');
    WordsAreDashFree(environment');
    WordsAreDashFree(s);
    if Join(front + Words(s), '-') == Join(front' + Words(s), '-') {
      JoinedWordsInjective(front + Words(s), front' + Words(s));
      SameFront(front, front', Words(s));
    }
  }

  lemma SameFront(a: seq<string>, b: seq<string>, c: seq<string>)
    requires a + c == b + c
    ensures a == b
  {
    assert |a + c| == |b + c|;
    assert a == (a + c)[..|a|] && b == (b + c)[..|b|];
  }

  /** Two configurations that collide: the dash between project and environment is not kept apart. */
  lemma ProjectsCanCollide(s: string)
    ensures ResourceName("a-b", "c", s) == ResourceName("a", "b-c", s)
  {
    assert "a-b" + ("-" + ("c" + ("-" + s))) == "a" + ("-" + ("b-c" + ("-" + s)));
  }
}
