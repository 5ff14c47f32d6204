/**
 * How the two stores read the text of a `like` filter: Mongo looks for the widened pattern
 * anywhere in the field, Postgres compares the whole column, both unaccented, by `ilike`.
 */
module LikeReadings {
  import opened Wrappers
  import opened JsString
  import opened RegexText
  import opened ListFilters
  import opened ListFilterAgreement

  /** `$regex` with option `i`, for the patterns that RegexText reads. */
  predicate PatternFinds(fold: char -> char, pattern: string, v: string) {
    Read(pattern, 0).Some? && Finds(fold, Read(pattern, 0).value, v)
  }

  /** `unaccent(v) ilike unaccent(p)`; `same` is what unaccenting and case folding make of a character. */
  predicate ILike(same: char -> char, p: string, v: string)
    decreases |p| + |v|
  {
    if p == [] then v == []
    else if p[0] == '%' then ILike(same, p[1..], v) || (v != [] && ILike(same, p, v[1..]))
    else if p[0] == '\\' && |p| > 1 then v != [] && same(v[0]) == same(p[1]) && ILike(same, p[2..], v[1..])
    else v != [] && (p[0] == '_' || same(v[0]) == same(p[0])) && ILike(same, p[1..], v[1..])
  }

  /** The leaf tests of the two stores on documents whose fields hold a text or nothing. */
  function StoreTests<D>(
    other: Tests<D>, read: (string, D) -> Option<string>, fold: char -> char, same: char -> char): Tests<D>
  {
    other.(matches := (field, pattern, d) => read(field, d).Some? && PatternFinds(fold, pattern, read(field, d).value),
           ilike := (field, text, d) => read(field, d).Some? && ILike(same, text, read(field, d).value))
  }

  /** Text that means itself in both stores. */
  predicate Ordinary(t: string) {
    && Plain(t) && Count(t, '(') <= 1 && Count(t, ')') <= 1
    && '%' !in t && '_' !in t
  }

  predicate SameThroughout(same: char -> char, t: string, v: string) {
    |t| == |v| && forall i :: 0 <= i < |t| ==> same(t[i]) == same(v[i])
  }

  /** Without wildcards `ilike` compares whole strings. */
  lemma {:induction false} ILikeIsWhole(same: char -> char, t: string, v: string)
    requires '%' !in t && '_' !in t && '\\' !in t
    ensures ILike(same, t, v) <==> SameThroughout(same, t, v)
    decreases |t|
  {
    if t != [] {
      assert t[0] in t && t[0] != '%' && t[0] != '_' && t[0] != '\\';
      if v != [] {
        assert forall c :: c in t[1..] ==> c in t;
        ILikeIsWhole(same, t[1..], v[1..]);
        assert t == [t[0]] + t[1..] && v == [v[0]] + v[1..];
      }
    }
  }

  /** The pattern accepts for c whatever `ilike` takes for c, as far as the characters of v go. */
  predicate ReachesFurther(fold: char -> char, same: char -> char, t: string, v: string) {
    forall c, x :: c in t && x in v && same(c) == same(x) ==> InFolded(fold, Accepted(c), x)
  }

  lemma OrdinaryFinds(fold: char -> char, t: string, v: string)
    requires Ordinary(t)
    ensures PatternFinds(fold, CreateRegexFilterText(t), v) <==> exists k :: 0 <= k <= |v| && FormsFrom(fold, t, v, k)
  {
    hide CreateRegexFilterText, Read, Balanced, Kept, Count, Finds;
    PatternIsRead(t);
    LikeFindsIff(fold, t, v);
  }

  /** Then what `ilike` finds, the pattern finds, at the start. */
  lemma PatternReachesFurther(fold: char -> char, same: char -> char, t: string, v: string)
    requires Ordinary(t) && ReachesFurther(fold, same, t, v) && ILike(same, t, v)
    ensures PatternFinds(fold, CreateRegexFilterText(t), v)
  {
    hide CreateRegexFilterText, PatternFinds, InFolded, ILike, Count, Accepted;
    assert '\\' !in t by {
      assert IsMeta('\\');
    }
    ILikeIsWhole(same, t, v);
    OrdinaryFinds(fold, t, v);
    forall i | 0 <= i < |t| ensures InFolded(fold, Accepted(t[i]), v[0 + i]) {
      assert t[i] in t && v[i] in v;
    }
    assert FormsFrom(fold, t, v, 0);
  }

  // ---------- ASCII ----------

  predicate IsAscii(s: string) { forall c :: c in s ==> c < '\U{80}' }

  /** Lower-cases ASCII; no listed accented form becomes ASCII. */
  predicate FoldsAscii(f: char -> char) {
    && (forall c :: c < '\U{80}' ==> f(c) == LowerChar(c))
    && (forall c, x :: Covered(c) && x in Listed(c) && x >= '\U{80}' ==> f(x) >= '\U{80}')
  }

  /** What a comma-free ASCII character must be to be accepted for another. */
  lemma AsciiAccepted(fold: char -> char, same: char -> char, c: char, x: char)
    requires FoldsAscii(fold) && FoldsAscii(same) && c < '\U{80}' && x < '\U{80}' && x != ','
    ensures InFolded(fold, Accepted(c), x) <==> same(c) == same(x)
  {
    if InFolded(fold, Accepted(c), x) {
      var y :| y in Accepted(c) && fold(y) == fold(x);
      if Covered(c) {
        assert y in Listed(c);
        assert y < '\U{80}';
        AsciiListed(c, y);
      }
    }
    if same(c) == same(x) {
      AcceptsItself(c);
    }
  }

  lemma AcceptsItself(c: char)
    ensures c in Accepted(c)
  {
    if Covered(c) {
      assert Listed(c)[0] == c;
    }
  }

  lemma AsciiListed(c: char, y: char)
    requires Covered(c) && y in Listed(c) && y < '\U{80}'
    ensures y == c || y == ','
  {
  }

  /**
   * On ASCII text and a comma-free ASCII field, `ilike` holds exactly when the pattern is found
   * and the lengths are equal: the stores part exactly on longer fields.
   */
  lemma AsciiReadings(fold: char -> char, same: char -> char, t: string, v: string)
    requires FoldsAscii(fold) && FoldsAscii(same) && Ordinary(t) && IsAscii(t) && IsAscii(v) && ',' !in v
    ensures ILike(same, t, v) <==> PatternFinds(fold, CreateRegexFilterText(t), v) && |v| == |t|
  {
    hide CreateRegexFilterText, PatternFinds, InFolded, ILike, Count, Accepted, FoldsAscii;
    assert '\\' !in t by {
      assert IsMeta('\\');
    }
    ILikeIsWhole(same, t, v);
    OrdinaryFinds(fold, t, v);
    if |v| == |t| {
      forall i | 0 <= i < |t| ensures InFolded(fold, Accepted(t[i]), v[0 + i]) <==> same(t[i]) == same(v[i]) {
        assert t[i] in t && v[i] in v;
        AsciiAccepted(fold, same, t[i], v[i]);
      }
      assert FormsFrom(fold, t, v, 0) <==> SameThroughout(same, t, v);
    }
  }

  // ---------- the selections of the two stores ----------

  /** Every requested `like` text is ordinary, and reaches further on the field it is asked of. */
  ghost predicate TextsReachFurther<D>(
    read: (string, D) -> Option<string>, fold: char -> char, same: char -> char,
    search: Search, allowed: seq<Allowed>, d: D)
  {
    forall a, text :: a in allowed && a.kind == Like && IsRequested(search, a, text) ==>
      Ordinary(text) && (read(Target(a), d).Some? ==> ReachesFurther(fold, same, text, read(Target(a), d).value))
  }

  /** In the stores as they are, such a search selects by TypeORM no more than by Mongo. */
  lemma StoresCompare<D>(
    parses: (Format, string) -> bool, search: Search, allowed: seq<Allowed>,
    other: Tests<D>, read: (string, D) -> Option<string>, fold: char -> char, same: char -> char, d: D)
    requires AsksNoId(search) && DistinctColumns(search, allowed) && ListsNonEmpty(search)
    requires ToTypeOrm(parses, search, allowed).Ok?
    requires TextsReachFurther(read, fold, same, search, allowed, d)
    ensures ToMongo(parses, search, allowed).Ok?
    ensures var t := StoreTests(other, read, fold, same);
            TypeOrmSelects(t, ToTypeOrm(parses, search, allowed).value, d) ==>
              MongoSelects(t, ToMongo(parses, search, allowed).value, d)
  {
    hide ToMongo, ToTypeOrm, MongoSelects, TypeOrmSelects, CreateRegexFilterText, PatternFinds, ILike;
    hide Ordinary, ReachesFurther, IsRequested, DistinctColumns;
    var t := StoreTests(other, read, fold, same);
    forall a, text | a in allowed && IsRequested(search, a, text) && SatisfiesColumn(t, a, text, d)
      ensures Satisfies(t, a, text, d)
    {
      if a.kind == Like {
        PatternReachesFurther(fold, same, text, read(Target(a), d).value);
      }
    }
    SelectionsCompare(parses, search, allowed, t, d);
  }

  /** One text that the stores read differently. */
  lemma ContainmentReadsApart(fold: char -> char, same: char -> char)
    ensures PatternFinds(fold, CreateRegexFilterText("a"), "cat") && !ILike(same, "a", "cat")
  {
    hide PatternFinds, CreateRegexFilterText, Accepted;
    assert Ordinary("a");
    OrdinaryFinds(fold, "a", "cat");
    AcceptsItself('a');
    assert FormsFrom(fold, "a", "cat", 1);
    ILikeIsWhole(same, "a", "cat");
  }

  /** The search `name:a` on a field that may be matched by `like`. */
  const SEARCH_A: Search := map["name" := One("a")]
  const NAME_LIKE: seq<Allowed> := [Allowed("name", None, Like, None)]

  /** Asked for `name:a`, Mongo selects the document whose text is `cat` and TypeORM does not. */
  lemma StoresPartOnContainment(
    parses: (Format, string) -> bool, other: Tests<string>, fold: char -> char, same: char -> char)
    requires other.live("cat")
    ensures var t := StoreTests(other, (_, d) => Some(d), fold, same);
            && ToMongo(parses, SEARCH_A, NAME_LIKE).Ok? && ToTypeOrm(parses, SEARCH_A, NAME_LIKE).Ok?
            && MongoSelects(t, ToMongo(parses, SEARCH_A, NAME_LIKE).value, "cat")
            && !TypeOrmSelects(t, ToTypeOrm(parses, SEARCH_A, NAME_LIKE).value, "cat")
  {
    hide ToMongo, ToTypeOrm, MongoSelects, TypeOrmSelects, CreateRegexFilterText, PatternFinds, ILike;
    var t := StoreTests(other, (_, d) => Some(d), fold, same);
    var a := NAME_LIKE[0];
    assert a in NAME_LIKE && IsSingle(SEARCH_A, a, "a");
    MongoAcceptsIff(parses, SEARCH_A, NAME_LIKE);
    BothAccept(parses, SEARCH_A, NAME_LIKE);
    MongoMeansWithoutId(parses, SEARCH_A, NAME_LIKE, t, "cat");
    TypeOrmMeansTheSearch(parses, SEARCH_A, NAME_LIKE, t, "cat");
    ContainmentReadsApart(fold, same);
    assert Satisfies(t, a, "a", "cat") && !SatisfiesColumn(t, a, "a", "cat");
  }
}
