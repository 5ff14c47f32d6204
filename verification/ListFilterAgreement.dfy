/** How the two translations of one search compare: which documents each selects. */
module ListFilterAgreement {
  import opened Wrappers
  import opened JsString
  import opened RegexText
  import opened ListFilters

  /** One text of one filter holds of the document, as TypeORM tests it. */
  predicate SatisfiesColumn<D>(t: Tests<D>, a: Allowed, text: string, d: D) {
    match a.kind
    case Equal => t.equal(Target(a), Value(a.format, text), d)
    case Like => t.ilike(Target(a), text, d)
  }

  /** On this document, what `ilike` finds of the requested texts the widened pattern finds too. */
  ghost predicate PatternsReachFurther<D>(t: Tests<D>, search: Search, allowed: seq<Allowed>, d: D) {
    forall a, text :: a in allowed && IsRequested(search, a, text) && SatisfiesColumn(t, a, text, d) ==>
      Satisfies(t, a, text, d)
  }

  /** On this document the two stores read the requested texts alike. */
  ghost predicate ReadAlike<D>(t: Tests<D>, search: Search, allowed: seq<Allowed>, d: D) {
    forall a, text :: a in allowed && IsRequested(search, a, text) ==>
      (SatisfiesColumn(t, a, text, d) <==> Satisfies(t, a, text, d))
  }

  /** Filters that are present write different columns. */
  predicate DistinctColumns(search: Search, allowed: seq<Allowed>) {
    forall i, j :: 0 <= i < j < |allowed| && IsAsked(search, allowed[i]) && IsAsked(search, allowed[j]) ==>
                     Target(allowed[i]) != Target(allowed[j])
  }

  predicate ListsNonEmpty(search: Search) {
    forall key :: key in search && search[key].Many? ==> search[key].texts != []
  }

  predicate AtMostOneList(search: Search, allowed: seq<Allowed>) {
    forall i, j :: 0 <= i < j < |allowed| ==> !(IsList(search, allowed[i]) && IsList(search, allowed[j]))
  }

  // ---------- what the where map holds ----------

  lemma LaterColumnsDiffer(search: Search, allowed: seq<Allowed>)
    requires DistinctColumns(search, allowed) && allowed != [] && IsAsked(search, allowed[0])
    ensures forall b :: b in allowed[1..] && IsAsked(search, b) ==> Target(b) != Target(allowed[0])
  {
    forall b | b in allowed[1..] && IsAsked(search, b) ensures Target(b) != Target(allowed[0]) {
      var j :| 0 <= j < |allowed[1..]| && allowed[1..][j] == b;
      assert allowed[j + 1] == b;
    }
  }

  /** When the loop goes through. */
  lemma {:induction false} ColumnsAcceptIff(
    parses: (Format, string) -> bool, search: Search, allowed: seq<Allowed>, acc: Where)
    ensures var r := Columns(parses, search, allowed, acc);
            && (r.Ok? <==> AllConvert(parses, search, allowed))
            && (r.Err? ==> r.error == BadValue)
    decreases allowed
  {
    hide ToOperator, ValuesConvert, Found, Convertible, IsRequested;
    if allowed != [] {
      var a, rest := allowed[0], allowed[1..];
      assert allowed == [a] + rest;
      ConvertSplits(parses, search, a, rest);
      var f := Found(search, a);
      if f.None? {
        NothingRequested(search, a);
        ColumnsAcceptIff(parses, search, rest, acc);
      } else {
        ValuesConvertIff(parses, search, a);
        if ValuesConvert(parses, f.value, a) {
          ColumnsAcceptIff(parses, search, rest, acc[a.Field() := ToOperator(a, f.value)]);
        }
      }
    }
  }

  /** The translation refuses exactly a field outside the allow-list, or a text not of its format. */
  lemma TypeOrmAcceptsIff(parses: (Format, string) -> bool, search: Search, allowed: seq<Allowed>)
    ensures var r := ToTypeOrm(parses, search, allowed);
            var outside := exists key :: key in search && !IsNamed(allowed, key);
            && (r == Err(NotAllowed) <==> outside)
            && (r == Err(BadValue) <==> !outside && !AllConvert(parses, search, allowed))
            && (r.Ok? <==> !outside && AllConvert(parses, search, allowed))
  {
    hide Columns, AllConvert;
    ColumnsAcceptIff(parses, search, allowed, map[]);
    if !AllNamesAllowed(search, allowed) {
      var key :| key in search && !exists a :: a in allowed && a.name == key;
      assert !IsNamed(allowed, key);
    }
  }

  /** With distinct columns no write is lost: each asked column holds what was found for it. */
  lemma {:induction false} ColumnsHold(
    parses: (Format, string) -> bool, search: Search, allowed: seq<Allowed>, acc: Where)
    requires DistinctColumns(search, allowed) && Columns(parses, search, allowed, acc).Ok?
    requires forall a :: a in allowed && IsAsked(search, a) ==> Target(a) !in acc
    ensures var r := Columns(parses, search, allowed, acc).value;
            && (forall f :: f in acc ==> f in r && r[f] == acc[f])
            && (forall a :: a in allowed && IsAsked(search, a) ==>
                  Found(search, a).Some? && Target(a) in r && r[Target(a)] == ToOperator(a, Found(search, a).value))
            && (forall f :: f in r ==> f in acc || exists a :: a in allowed && IsAsked(search, a) && Target(a) == f)
    decreases allowed
  {
    hide ToOperator, ValuesConvert, Found, IsAsked;
    if allowed != [] {
      var a, rest := allowed[0], allowed[1..];
      assert allowed == [a] + rest;
      assert forall i :: 0 <= i < |rest| ==> rest[i] == allowed[i + 1];
      FoundIsRequested(search, a);
      assert Target(a) == a.Field();
      var f := Found(search, a);
      if f.None? {
        ColumnsHold(parses, search, rest, acc);
      } else {
        LaterColumnsDiffer(search, allowed);
        ColumnsHold(parses, search, rest, acc[Target(a) := ToOperator(a, f.value)]);
      }
    }
  }

  /** A row passes the filter of an entry: its text, or one of its alternatives. */
  ghost predicate Passes<D>(t: Tests<D>, search: Search, a: Allowed, d: D) {
    && (forall text :: IsSingle(search, a, text) ==> SatisfiesColumn(t, a, text, d))
    && (IsList(search, a) ==> exists text :: IsAlternative(search, a, text) && SatisfiesColumn(t, a, text, d))
  }

  lemma OperatorMeans<D>(t: Tests<D>, search: Search, a: Allowed, d: D)
    requires Found(search, a).Some?
    ensures OperatorHolds(t, Target(a), ToOperator(a, Found(search, a).value), d) <==> Passes(t, search, a, d)
  {
    hide Found;
    FoundIsRequested(search, a);
    var f := Found(search, a).value;
    match f
    case One(text) =>
      assert IsSingle(search, a, text);
    case Many(texts) =>
      if a.kind == Equal {
        ValuesMembers(a, texts);
        if text :| text in texts && SatisfiesColumn(t, a, text, d) {
          assert Value(a.format, text) in Values(a, texts);
        }
      }
  }

  /**
   * The where map selects the live rows that satisfy every filter, list or not, in TypeORM's own
   * leaf tests.
   */
  lemma TypeOrmMeansTheSearch<D>(
    parses: (Format, string) -> bool, search: Search, allowed: seq<Allowed>, t: Tests<D>, d: D)
    requires DistinctColumns(search, allowed)
    requires ToTypeOrm(parses, search, allowed).Ok?
    ensures TypeOrmSelects(t, ToTypeOrm(parses, search, allowed).value, d) <==>
            && t.live(d)
            && (forall a, text :: a in allowed && IsSingle(search, a, text) ==> SatisfiesColumn(t, a, text, d))
            && (forall a :: a in allowed && IsList(search, a) ==>
                  exists text :: IsAlternative(search, a, text) && SatisfiesColumn(t, a, text, d))
  {
    hide ToOperator, OperatorHolds, SatisfiesColumn, Found;
    ColumnsHold(parses, search, allowed, map[]);
    var where := ToTypeOrm(parses, search, allowed).value;
    forall a | a in allowed && IsAsked(search, a)
      ensures OperatorHolds(t, Target(a), where[Target(a)], d) <==> Passes(t, search, a, d)
    {
      OperatorMeans(t, search, a, d);
    }
  }

  // ---------- comparing the selections ----------

  /** No id is asked for, so the Mongo translation reads the same entries as the other. */
  predicate AsksNoId(search: Search) { "id" in search ==> search["id"] == One("") }

  lemma BesideId(search: Search, allowed: seq<Allowed>, a: Allowed)
    requires AsksNoId(search) && a in allowed && a !in OtherThanId(allowed)
    ensures forall text :: !IsRequested(search, a, text)
  {
    OtherThanIdMembers(allowed);
  }

  /** The Mongo query of such a search, over the whole allow-list. */
  lemma MongoMeansWithoutId<D>(
    parses: (Format, string) -> bool, search: Search, allowed: seq<Allowed>, t: Tests<D>, d: D)
    requires AsksNoId(search) && ToMongo(parses, search, allowed).Ok?
    ensures MongoSelects(t, ToMongo(parses, search, allowed).value, d) <==>
            && t.live(d)
            && (forall a, text :: a in allowed && IsSingle(search, a, text) ==> Satisfies(t, a, text, d))
            && (AnyAlternative(search, allowed) ==>
                  exists a, text :: a in allowed && IsAlternative(search, a, text) && Satisfies(t, a, text, d))
  {
    hide ToMongo, MongoSelects, Satisfies, OtherThanId, IsSingle, IsAlternative, AnyAlternative;
    MongoMeansTheSearch(parses, search, allowed, t, d);
    RequestsBesideId(search, allowed, t, d);
    assert WithoutId(search) == search;
  }

  lemma BothAccept(parses: (Format, string) -> bool, search: Search, allowed: seq<Allowed>)
    requires AsksNoId(search)
    ensures ToMongo(parses, search, allowed).Ok? <==> ToTypeOrm(parses, search, allowed).Ok?
  {
    hide Convertible, IsRequested, OtherThanId;
    MongoAcceptsIff(parses, search, allowed);
    TypeOrmAcceptsIff(parses, search, allowed);
    OtherThanIdMembers(allowed);
    forall a | a in allowed && a !in OtherThanId(allowed) ensures forall text :: !IsRequested(search, a, text) {
      BesideId(search, allowed, a);
    }
  }

  /**
   * Where the patterns reach at least as far as `ilike`, TypeORM selects no more than Mongo; where
   * the requested texts are read alike and at most one filter is a list, they select the same.
   */
  lemma SelectionsCompare<D>(
    parses: (Format, string) -> bool, search: Search, allowed: seq<Allowed>, t: Tests<D>, d: D)
    requires AsksNoId(search) && DistinctColumns(search, allowed) && ListsNonEmpty(search)
    requires ToTypeOrm(parses, search, allowed).Ok?
    ensures ToMongo(parses, search, allowed).Ok?
    ensures var mongo := MongoSelects(t, ToMongo(parses, search, allowed).value, d);
            var typeOrm := TypeOrmSelects(t, ToTypeOrm(parses, search, allowed).value, d);
            && (PatternsReachFurther(t, search, allowed, d) ==> (typeOrm ==> mongo))
            && (ReadAlike(t, search, allowed, d) && AtMostOneList(search, allowed) ==> (typeOrm <==> mongo))
  {
    hide ToMongo, ToTypeOrm, MongoSelects, TypeOrmSelects, Satisfies, SatisfiesColumn, DistinctColumns, OtherThanId;
    BothAccept(parses, search, allowed);
    MongoMeansWithoutId(parses, search, allowed, t, d);
    TypeOrmMeansTheSearch(parses, search, allowed, t, d);
    if AtMostOneList(search, allowed) && AnyAlternative(search, allowed)
      && MongoSelects(t, ToMongo(parses, search, allowed).value, d) {
      var a, text :| a in allowed && IsAlternative(search, a, text) && Satisfies(t, a, text, d);
      forall b | b in allowed && IsList(search, b) ensures b == a {
        var i :| 0 <= i < |allowed| && allowed[i] == a;
        var j :| 0 <= j < |allowed| && allowed[j] == b;
        assert i == j;
      }
    }
  }

  /** Leaf tests under which a document passes everything except the tests of one column. */
  function AllBut(column: string): Tests<()> {
    Tests(_ => true, (_, _) => true,
          (field, _, _) => field != column,
          (field, _, _) => field != column,
          (field, _, _) => field != column)
  }

  /**
   * With two list filters the translations really differ: there are leaf tests and a document
   * that Mongo selects, by an alternative of one list, and TypeORM, wanting both lists, does not.
   */
  lemma TwoListsDisagree(parses: (Format, string) -> bool, search: Search, allowed: seq<Allowed>) returns (t: Tests<()>)
    requires AsksNoId(search) && DistinctColumns(search, allowed) && ListsNonEmpty(search)
    requires ToTypeOrm(parses, search, allowed).Ok? && !AtMostOneList(search, allowed)
    ensures ReadAlike(t, search, allowed, ()) && ToMongo(parses, search, allowed).Ok?
    ensures MongoSelects(t, ToMongo(parses, search, allowed).value, ())
    ensures !TypeOrmSelects(t, ToTypeOrm(parses, search, allowed).value, ())
  {
    hide ToMongo, ToTypeOrm, MongoSelects, TypeOrmSelects, Satisfies, SatisfiesColumn, CreateRegexFilterText;
    var i, j :| 0 <= i < j < |allowed| && IsList(search, allowed[i]) && IsList(search, allowed[j]);
    var a, b := allowed[i], allowed[j];
    t := AllBut(Target(b));
    BothAccept(parses, search, allowed);
    MongoMeansWithoutId(parses, search, allowed, t, ());
    TypeOrmMeansTheSearch(parses, search, allowed, t, ());
    var text := search[a.name].texts[0];
    AllButSatisfies(Target(b), a, text);
    assert IsAlternative(search, a, text);
    forall c, text
      ensures Satisfies(t, c, text, ()) <==> Target(c) != Target(b)
      ensures SatisfiesColumn(t, c, text, ()) <==> Target(c) != Target(b)
    {
      AllButSatisfies(Target(b), c, text);
    }
    forall c, text | c in allowed && IsSingle(search, c, text) ensures Satisfies(t, c, text, ()) {
      var k :| 0 <= k < |allowed| && allowed[k] == c;
      assert k != j;
    }
  }

  lemma AllButSatisfies(column: string, a: Allowed, text: string)
    ensures Satisfies(AllBut(column), a, text, ()) <==> Target(a) != column
    ensures SatisfiesColumn(AllBut(column), a, text, ()) <==> Target(a) != column
  {
  }

  // ---------- the decorators, as they rewrite the call's argument ----------

  datatype Argument = Absent | Asked(search: Search) | MongoWhere(query: MongoQuery) | TypeOrmWhere(columns: Where)

  class ListInput {
    var search: Argument

    constructor (search: Argument)
      ensures this.search == search
    {
      this.search := search;
    }
  }

  function Requested(a: Argument): Search { if a.Asked? then a.search else map[] }

  method ConvertMongooseFilter(
    parses: (Format, string) -> bool, allowed: seq<Allowed>, input: ListInput) returns (error: Option<Error>)
    requires input.search.Absent? || input.search.Asked?
    modifies input
    ensures match ToMongo(parses, Requested(old(input.search)), allowed)
            case Ok(q) => error == None && input.search == MongoWhere(q)
            case Err(e) => error == Some(e) && Requested(input.search) ==
                             if e == IdNotText || AsksNoId(Requested(old(input.search)))
                               then Requested(old(input.search))
                             else Requested(old(input.search)) - {"id"}
  {
    hide Trim, MongoLeaf, MongoLeaves, ValuesConvert;
    var where := Lists([], []);
    var id: Option<string> := None;
    if input.search.Asked? && HasId(input.search.search) {
      if input.search.search["id"].Many? {
        return Some(IdNotText);
      }
      id := Some(Trim(input.search.search["id"].text));
      input.search := Asked(input.search.search - {"id"});
    }
    var search := Requested(input.search);
    assert search == WithoutId(Requested(old(input.search)));
    if exists key :: key in search && !exists a :: a in allowed && a.name == key {
      return Some(NotAllowed);
    }
    for i := 0 to |allowed|
      invariant Collect(parses, search, allowed[i..], where) == Collect(parses, search, allowed, Lists([], []))
      invariant Requested(input.search) == search
    {
      var a := allowed[i];
      assert allowed[i..][0] == a && allowed[i..][1..] == allowed[i + 1..];
      if a.name !in search || search[a.name] == One("") {
        continue;
      }
      var filter := search[a.name];
      if !ValuesConvert(parses, filter, a) {
        return Some(BadValue);
      }
      match filter
      case One(text) => where := where.(allOf := where.allOf + [MongoLeaf(a, text)]);
      case Many(texts) => where := where.(anyOf := where.anyOf + MongoLeaves(a, texts));
    }
    var anyOf := if where.anyOf == [] then None else Some(where.anyOf);
    var allOf := if where.allOf == [] then None else Some(where.allOf);
    input.search := MongoWhere(MongoQuery(id, anyOf, allOf));
    return None;
  }

  method ConvertTypeOrmFilter(
    parses: (Format, string) -> bool, allowed: seq<Allowed>, input: ListInput) returns (error: Option<Error>)
    requires input.search.Absent? || input.search.Asked?
    modifies input
    ensures match ToTypeOrm(parses, Requested(old(input.search)), allowed)
            case Ok(w) => error == None && input.search == TypeOrmWhere(w)
            case Err(e) => error == Some(e) && input.search == old(input.search)
  {
    var where: Where := map[];
    var search := Requested(input.search);
    if exists key :: key in search && !exists a :: a in allowed && a.name == key {
      return Some(NotAllowed);
    }
    for i := 0 to |allowed|
      invariant Columns(parses, search, allowed[i..], where) == Columns(parses, search, allowed, map[])
      invariant input.search == old(input.search)
    {
      var a := allowed[i];
      assert allowed[i..][0] == a && allowed[i..][1..] == allowed[i + 1..];
      if a.name !in search || search[a.name] == One("") {
        continue;
      }
      if !ValuesConvert(parses, search[a.name], a) {
        return Some(BadValue);
      }
      where := where[a.Field() := ToOperator(a, search[a.name])];
    }
    input.search := TypeOrmWhere(where);
    return None;
  }
}
