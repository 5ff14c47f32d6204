/**
 * A list request's search and its two translations: a Mongo query document and a TypeORM where
 * map, built from the same allow-list.
 */
module ListFilters {
  import opened Wrappers
  import opened JsString
  import opened RegexText

  // ---------- the request ----------

  /** A search value: one text, or a list of alternatives. */
  datatype Filter = One(text: string) | Many(texts: seq<string>)

  type Search = map<string, Filter>

  datatype Kind = Like | Equal

  datatype Format = StringFormat | NumberFormat | DateFormat | DateIsoFormat | BooleanFormat | ObjectIdFormat

  datatype Allowed = Allowed(name: string, column: Option<string>, kind: Kind, format: Option<Format>) {
    function Field(): string { if column.Some? then column.value else name }
  }

  datatype Error = IdNotText | NotAllowed | BadValue

  /** A text converted under a format; the leaf tests give it its meaning. */
  datatype Value = Value(format: Option<Format>, text: string)

  /** Whether conversion succeeds; the date and object-id parsers are the parameter `parses`. */
  predicate Converts(parses: (Format, string) -> bool, format: Option<Format>, text: string) {
    match format
    case Some(BooleanFormat) => text == "true" || text == "false"
    case Some(DateFormat) => parses(DateFormat, text)
    case Some(DateIsoFormat) => parses(DateIsoFormat, text)
    case Some(ObjectIdFormat) => parses(ObjectIdFormat, text)
    case _ => true
  }

  /** The filter an allowed entry finds in the search; an empty text counts as no filter. */
  function Found(search: Search, a: Allowed): Option<Filter> {
    if a.name in search && search[a.name] != One("") then Some(search[a.name]) else None
  }

  predicate AllNamesAllowed(search: Search, allowed: seq<Allowed>) {
    forall key :: key in search ==> exists a :: a in allowed && a.name == key
  }

  /** Only `equal` filters convert their values. */
  predicate ValuesConvert(parses: (Format, string) -> bool, f: Filter, a: Allowed) {
    a.kind == Equal ==>
      match f
      case One(text) => Converts(parses, a.format, text)
      case Many(texts) => forall t :: t in texts ==> Converts(parses, a.format, t)
  }

  // ---------- the Mongo translation ----------

  datatype Leaf = EqualTo(field: string, value: Value) | Pattern(field: string, pattern: string)

  /** `_id`, `$or` and `$and` when present; `deletedAt: null` is always part of the query. */
  datatype MongoQuery = MongoQuery(id: Option<string>, anyOf: Option<seq<Leaf>>, allOf: Option<seq<Leaf>>)

  function MongoLeaf(a: Allowed, text: string): Leaf {
    match a.kind
    case Equal => EqualTo(a.Field(), Value(a.format, text))
    case Like => Pattern(a.Field(), CreateRegexFilterText(text))
  }

  function MongoLeaves(a: Allowed, texts: seq<string>): seq<Leaf> {
    if texts == [] then [] else [MongoLeaf(a, texts[0])] + MongoLeaves(a, texts[1..])
  }

  datatype Lists = Lists(anyOf: seq<Leaf>, allOf: seq<Leaf>)

  function Push(lists: Lists, a: Allowed, f: Filter): Lists {
    match f
    case One(text) => lists.(allOf := lists.allOf + [MongoLeaf(a, text)])
    case Many(texts) => lists.(anyOf := lists.anyOf + MongoLeaves(a, texts))
  }

  function Collect(
    parses: (Format, string) -> bool, search: Search, allowed: seq<Allowed>, lists: Lists): Result<Lists, Error>
    decreases allowed
  {
    if allowed == [] then Ok(lists)
    else
      var f := Found(search, allowed[0]);
      if f.None? then Collect(parses, search, allowed[1..], lists)
      else if !ValuesConvert(parses, f.value, allowed[0]) then Err(BadValue)
      else Collect(parses, search, allowed[1..], Push(lists, allowed[0], f.value))
  }

  function NonEmpty(leaves: seq<Leaf>): Option<seq<Leaf>> {
    if leaves == [] then None else Some(leaves)
  }

  predicate HasId(search: Search) { "id" in search && search["id"] != One("") }

  function WithoutId(search: Search): Search { if HasId(search) then search - {"id"} else search }

  function ToMongo(parses: (Format, string) -> bool, search: Search, allowed: seq<Allowed>): Result<MongoQuery, Error> {
    if HasId(search) && search["id"].Many? then Err(IdNotText)
    else
      var id := if HasId(search) then Some(Trim(search["id"].text)) else None;
      var rest := WithoutId(search);
      if !AllNamesAllowed(rest, allowed) then Err(NotAllowed)
      else
        match Collect(parses, rest, allowed, Lists([], []))
        case Err(e) => Err(e)
        case Ok(lists) => Ok(MongoQuery(id, NonEmpty(lists.anyOf), NonEmpty(lists.allOf)))
  }

  // ---------- the TypeORM translation ----------

  datatype Operator = Is(value: Value) | In(values: seq<Value>) | ILike(text: string) | ILikeAny(texts: seq<string>)

  type Where = map<string, Operator>

  function ToOperator(a: Allowed, f: Filter): Operator {
    match (a.kind, f)
    case (Equal, One(text)) => Is(Value(a.format, text))
    case (Equal, Many(texts)) => In(Values(a, texts))
    case (Like, One(text)) => ILike(text)
    case (Like, Many(texts)) => ILikeAny(texts)
  }

  function Values(a: Allowed, texts: seq<string>): seq<Value> {
    if texts == [] then [] else [Value(a.format, texts[0])] + Values(a, texts[1..])
  }

  function Columns(
    parses: (Format, string) -> bool, search: Search, allowed: seq<Allowed>, acc: Where): Result<Where, Error>
    decreases allowed
  {
    if allowed == [] then Ok(acc)
    else
      var f := Found(search, allowed[0]);
      if f.None? then Columns(parses, search, allowed[1..], acc)
      else if !ValuesConvert(parses, f.value, allowed[0]) then Err(BadValue)
      else Columns(parses, search, allowed[1..], acc[allowed[0].Field() := ToOperator(allowed[0], f.value)])
  }

  function ToTypeOrm(parses: (Format, string) -> bool, search: Search, allowed: seq<Allowed>): Result<Where, Error> {
    if !AllNamesAllowed(search, allowed) then Err(NotAllowed)
    else Columns(parses, search, allowed, map[])
  }

  // ---------- meaning ----------

  /** The leaf tests on documents, left open. */
  datatype Tests<!D> = Tests(
    live: D -> bool,
    hasId: (string, D) -> bool,
    equal: (string, Value, D) -> bool,
    matches: (string, string, D) -> bool,
    ilike: (string, string, D) -> bool)

  predicate LeafHolds<D>(t: Tests<D>, leaf: Leaf, d: D) {
    match leaf
    case EqualTo(field, value) => t.equal(field, value, d)
    case Pattern(field, pattern) => t.matches(field, pattern, d)
  }

  /** The driver refuses an empty `$or` or `$and`. */
  predicate WellFormed(q: MongoQuery) {
    (q.anyOf.Some? ==> q.anyOf.value != []) && (q.allOf.Some? ==> q.allOf.value != [])
  }

  predicate MongoSelects<D>(t: Tests<D>, q: MongoQuery, d: D) {
    && t.live(d)
    && (q.id.Some? ==> t.hasId(q.id.value, d))
    && (q.anyOf.Some? ==> exists leaf :: leaf in q.anyOf.value && LeafHolds(t, leaf, d))
    && (q.allOf.Some? ==> forall leaf :: leaf in q.allOf.value ==> LeafHolds(t, leaf, d))
  }

  predicate OperatorHolds<D>(t: Tests<D>, field: string, op: Operator, d: D) {
    match op
    case Is(value) => t.equal(field, value, d)
    case In(values) => exists v :: v in values && t.equal(field, v, d)
    case ILike(text) => t.ilike(field, text, d)
    case ILikeAny(texts) => exists text :: text in texts && t.ilike(field, text, d)
  }

  /** A read skips deleted rows by itself. */
  predicate TypeOrmSelects<D>(t: Tests<D>, where: Where, d: D) {
    t.live(d) && forall field :: field in where ==> OperatorHolds(t, field, where[field], d)
  }

  // ---------- the requests the loops accept ----------

  /** The entry's field was given one text; an empty text asks nothing. */
  predicate IsSingle(search: Search, a: Allowed, text: string) {
    a.name in search && search[a.name] == One(text) && text != ""
  }

  /** The entry's field was given a list, and this text is in it. */
  predicate IsAlternative(search: Search, a: Allowed, text: string) {
    a.name in search && search[a.name].Many? && text in search[a.name].texts
  }

  predicate IsRequested(search: Search, a: Allowed, text: string) {
    IsSingle(search, a, text) || IsAlternative(search, a, text)
  }

  predicate IsAsked(search: Search, a: Allowed) { a.name in search && search[a.name] != One("") }

  predicate IsList(search: Search, a: Allowed) { a.name in search && search[a.name].Many? }

  /** What the loops find in the search is what was requested. */
  lemma FoundIsRequested(search: Search, a: Allowed)
    ensures Found(search, a).Some? <==> IsAsked(search, a)
    ensures forall text :: Found(search, a) == Some(One(text)) <==> IsSingle(search, a, text)
    ensures Found(search, a).Some? && Found(search, a).value.Many? <==> IsList(search, a)
    ensures IsList(search, a) ==> forall text :: text in Found(search, a).value.texts <==>
            IsAlternative(search, a, text)
  {
  }

  /** The texts a format stands for; numbers and strings are taken as they come. */
  predicate Convertible(parses: (Format, string) -> bool, a: Allowed, text: string) {
    && (a.format == Some(BooleanFormat) ==> text in ["true", "false"])
    && (a.format.Some? && a.format.value in {DateFormat, DateIsoFormat, ObjectIdFormat} ==>
          parses(a.format.value, text))
  }

  /** Every requested text of an `equal` entry is one of its format. */
  ghost predicate AllConvert(parses: (Format, string) -> bool, search: Search, allowed: seq<Allowed>) {
    forall a, text :: a in allowed && a.kind == Equal && IsRequested(search, a, text) ==> Convertible(parses, a, text)
  }

  lemma ValuesConvertIff(parses: (Format, string) -> bool, search: Search, a: Allowed)
    requires Found(search, a).Some?
    ensures ValuesConvert(parses, Found(search, a).value, a) <==>
            (a.kind == Equal ==> forall text :: IsRequested(search, a, text) ==> Convertible(parses, a, text))
  {
    FoundIsRequested(search, a);
    forall text ensures Converts(parses, a.format, text) <==> Convertible(parses, a, text) {
    }
    if Found(search, a).value.One? {
      assert IsSingle(search, a, Found(search, a).value.text);
    }
  }

  /** The document field or column an entry filters on. */
  function Target(a: Allowed): string {
    match a.column
    case Some(column) => column
    case None => a.name
  }

  lemma MongoLeavesMembers(a: Allowed, texts: seq<string>)
    ensures forall leaf :: leaf in MongoLeaves(a, texts) <==> exists text :: text in texts && leaf == MongoLeaf(a, text)
  {
    if texts != [] {
      MongoLeavesMembers(a, texts[1..]);
      assert texts == [texts[0]] + texts[1..];
    }
  }

  lemma {:induction false} ValuesMembers(a: Allowed, texts: seq<string>)
    ensures forall v :: v in Values(a, texts) <==> exists text :: text in texts && v == Value(a.format, text)
  {
    if texts != [] {
      ValuesMembers(a, texts[1..]);
      assert texts == [texts[0]] + texts[1..];
    }
  }

  /** Some alternative of some list-valued filter was asked for, and this is the leaf it became. */
  ghost predicate Alternative(search: Search, allowed: seq<Allowed>, leaf: Leaf) {
    exists a, text :: a in allowed && IsAlternative(search, a, text) && leaf == MongoLeaf(a, text)
  }

  ghost predicate Requirement(search: Search, allowed: seq<Allowed>, leaf: Leaf) {
    exists a, text :: a in allowed && IsSingle(search, a, text) && leaf == MongoLeaf(a, text)
  }

  /** What the loop pushes: exactly the alternatives, and exactly the single filters. */
  lemma {:induction false} CollectGathers(
    parses: (Format, string) -> bool, search: Search, allowed: seq<Allowed>, lists: Lists)
    ensures var r := Collect(parses, search, allowed, lists);
            && (r.Ok? <==> AllConvert(parses, search, allowed))
            && (r.Err? ==> r.error == BadValue)
            && (r.Ok? ==> forall leaf :: leaf in r.value.anyOf <==>
                  leaf in lists.anyOf || Alternative(search, allowed, leaf))
            && (r.Ok? ==> forall leaf :: leaf in r.value.allOf <==>
                  leaf in lists.allOf || Requirement(search, allowed, leaf))
    decreases allowed
  {
    hide MongoLeaf, ValuesConvert, Convertible, Found, IsRequested;
    if allowed != [] {
      var a, rest := allowed[0], allowed[1..];
      assert allowed == [a] + rest;
      ConvertSplits(parses, search, a, rest);
      FoundIsRequested(search, a);
      SplitHead(search, a, rest);
      var f := Found(search, a);
      if f.None? {
        NothingRequested(search, a);
        CollectGathers(parses, search, rest, lists);
      } else {
        ValuesConvertIff(parses, search, a);
        if ValuesConvert(parses, f.value, a) {
          CollectGathers(parses, search, rest, Push(lists, a, f.value));
          PushAdds(search, a, lists);
        }
      }
    }
  }

  lemma NothingRequested(search: Search, a: Allowed)
    requires Found(search, a).None?
    ensures forall text :: !IsSingle(search, a, text)
    ensures forall text :: !IsAlternative(search, a, text)
    ensures forall text :: !IsRequested(search, a, text)
  {
  }

  lemma ConvertSplits(parses: (Format, string) -> bool, search: Search, a: Allowed, rest: seq<Allowed>)
    ensures AllConvert(parses, search, [a] + rest) <==>
            && (a.kind == Equal ==> forall text :: IsRequested(search, a, text) ==> Convertible(parses, a, text))
            && AllConvert(parses, search, rest)
  {
    hide Convertible, IsRequested;
    assert forall x :: x in [a] + rest <==> x == a || x in rest;
  }

  lemma PushAdds(search: Search, a: Allowed, lists: Lists)
    requires Found(search, a).Some?
    ensures var next := Push(lists, a, Found(search, a).value);
            && (forall leaf :: leaf in next.anyOf <==>
                  leaf in lists.anyOf || exists text :: IsAlternative(search, a, text) && leaf == MongoLeaf(a, text))
            && (forall leaf :: leaf in next.allOf <==>
                  leaf in lists.allOf || exists text :: IsSingle(search, a, text) && leaf == MongoLeaf(a, text))
  {
    hide MongoLeaf, Found;
    FoundIsRequested(search, a);
    var f := Found(search, a).value;
    if f.Many? {
      MongoLeavesMembers(a, f.texts);
    } else {
      assert IsSingle(search, a, f.text);
    }
  }

  lemma SplitHead(search: Search, a: Allowed, rest: seq<Allowed>)
    ensures forall leaf :: Alternative(search, [a] + rest, leaf) <==>
                           || Alternative(search, rest, leaf)
                           || exists text :: IsAlternative(search, a, text) && leaf == MongoLeaf(a, text)
    ensures forall leaf :: Requirement(search, [a] + rest, leaf) <==>
                           || Requirement(search, rest, leaf)
                           || exists text :: IsSingle(search, a, text) && leaf == MongoLeaf(a, text)
  {
    hide MongoLeaf, IsAlternative, IsSingle;
    assert forall x :: x in [a] + rest <==> x == a || x in rest;
  }

  // ---------- main result: the Mongo query means what was asked ----------

  predicate AnyAlternative(search: Search, allowed: seq<Allowed>) {
    exists a :: a in allowed && IsList(search, a) && search[a.name].texts != []
  }

  /** One text of one filter holds of the document, as Mongo tests it. */
  predicate Satisfies<D>(t: Tests<D>, a: Allowed, text: string, d: D) {
    match a.kind
    case Equal => t.equal(Target(a), Value(a.format, text), d)
    case Like => t.matches(Target(a), CreateRegexFilterText(text), d)
  }

  predicate IsNamed(allowed: seq<Allowed>, key: string) { exists a :: a in allowed && a.name == key }

  /** The allow-list without the entries named `id`, which the Mongo translation takes out first. */
  function OtherThanId(allowed: seq<Allowed>): seq<Allowed> {
    if allowed == [] then []
    else (if allowed[0].name != "id" then [allowed[0]] else []) + OtherThanId(allowed[1..])
  }

  lemma {:induction false} OtherThanIdMembers(allowed: seq<Allowed>)
    ensures forall a :: a in OtherThanId(allowed) <==> a in allowed && a.name != "id"
  {
    if allowed != [] {
      OtherThanIdMembers(allowed[1..]);
      assert allowed == [allowed[0]] + allowed[1..];
    }
  }

  /** Taking the id out leaves the requests to the other entries, and no request to an entry named `id`. */
  lemma WithoutIdRequests(search: Search, a: Allowed, text: string)
    requires "id" in search ==> search["id"].One?
    ensures IsSingle(WithoutId(search), a, text) <==> a.name != "id" && IsSingle(search, a, text)
    ensures IsAlternative(WithoutId(search), a, text) <==> a.name != "id" && IsAlternative(search, a, text)
    ensures IsList(WithoutId(search), a) <==> a.name != "id" && IsList(search, a)
  {
  }

  /**
   * The translation refuses exactly a listed id, a field outside the allow-list, or a text that
   * is not of its field's format, in this order.
   */
  lemma MongoAcceptsIff(parses: (Format, string) -> bool, search: Search, allowed: seq<Allowed>)
    ensures var r := ToMongo(parses, search, allowed);
            var listedId := "id" in search && search["id"].Many?;
            var outside := exists key ::
              key in search && !IsNamed(allowed, key) && !(key == "id" && search[key] != One(""));
            && (r == Err(IdNotText) <==> listedId)
            && (r == Err(NotAllowed) <==> !listedId && outside)
            && (r == Err(BadValue) <==> !listedId && !outside && !AllConvert(parses, search, OtherThanId(allowed)))
            && (r.Ok? <==> !listedId && !outside && AllConvert(parses, search, OtherThanId(allowed)))
  {
    hide Collect, Convertible, Trim;
    if !("id" in search && search["id"].Many?) {
      CollectGathers(parses, WithoutId(search), allowed, Lists([], []));
      OtherThanIdMembers(allowed);
      forall a, text
        ensures IsRequested(WithoutId(search), a, text) <==> a.name != "id" && IsRequested(search, a, text)
      {
        WithoutIdRequests(search, a, text);
      }
      KeysOutside(search, allowed);
    }
  }

  lemma KeysOutside(search: Search, allowed: seq<Allowed>)
    ensures AllNamesAllowed(WithoutId(search), allowed) <==>
            !exists key :: key in search && !IsNamed(allowed, key) && !(key == "id" && search[key] != One(""))
  {
    var rest := WithoutId(search);
    forall key ensures key in rest <==> key in search && !(key == "id" && search[key] != One("")) {
    }
    if !AllNamesAllowed(rest, allowed) {
      var key :| key in rest && !exists a :: a in allowed && a.name == key;
      assert !IsNamed(allowed, key);
    }
  }

  /**
   * The query built from an accepted search selects a document exactly when it is not deleted,
   * has the requested id, satisfies every single-valued filter, and, if any alternative was
   * given, satisfies one from the pooled list; no empty list is left in it.
   */
  lemma MongoMeansTheSearch<D>(
    parses: (Format, string) -> bool, search: Search, allowed: seq<Allowed>, t: Tests<D>, d: D)
    requires ToMongo(parses, search, allowed).Ok?
    ensures var q, others := ToMongo(parses, search, allowed).value, OtherThanId(allowed);
            && WellFormed(q)
            && (MongoSelects(t, q, d) <==>
                && t.live(d)
                && ("id" in search && search["id"] != One("") ==>
                      search["id"].One? && t.hasId(Trim(search["id"].text), d))
                && (forall a, text :: a in others && IsSingle(search, a, text) ==> Satisfies(t, a, text, d))
                && (AnyAlternative(search, others) ==>
                      exists a, text :: a in others && IsAlternative(search, a, text) && Satisfies(t, a, text, d)))
  {
    hide Trim, CreateRegexFilterText, Collect, OtherThanId;
    var q := ToMongo(parses, search, allowed).value;
    var rest := WithoutId(search);
    CollectGathers(parses, rest, allowed, Lists([], []));
    var lists := Collect(parses, rest, allowed, Lists([], [])).value;
    forall a, text ensures LeafHolds(t, MongoLeaf(a, text), d) <==> Satisfies(t, a, text, d) {
    }
    AllOfMeans(rest, allowed, lists.allOf, t, d);
    AnyOfMeans(rest, allowed, lists.anyOf, t, d);
    RequestsBesideId(search, allowed, t, d);
  }

  /** The requests left after the id is out are those to the entries of other names. */
  lemma RequestsBesideId<D>(search: Search, allowed: seq<Allowed>, t: Tests<D>, d: D)
    requires "id" in search ==> search["id"].One?
    ensures var rest, others := WithoutId(search), OtherThanId(allowed);
            && ((forall a, text :: a in allowed && IsSingle(rest, a, text) ==> Satisfies(t, a, text, d)) <==>
                forall a, text :: a in others && IsSingle(search, a, text) ==> Satisfies(t, a, text, d))
            && ((exists a, text :: a in allowed && IsAlternative(rest, a, text) && Satisfies(t, a, text, d)) <==>
                exists a, text :: a in others && IsAlternative(search, a, text) && Satisfies(t, a, text, d))
            && (AnyAlternative(rest, allowed) <==> AnyAlternative(search, others))
  {
    hide Satisfies, OtherThanId, WithoutId;
    OtherThanIdMembers(allowed);
    var rest, others := WithoutId(search), OtherThanId(allowed);
    forall a, text
      ensures IsSingle(rest, a, text) <==> a.name != "id" && IsSingle(search, a, text)
      ensures IsAlternative(rest, a, text) <==> a.name != "id" && IsAlternative(search, a, text)
      ensures IsList(rest, a) <==> a.name != "id" && IsList(search, a)
    {
      WithoutIdRequests(search, a, text);
    }
    hide IsSingle, IsAlternative;
    forall a | IsList(rest, a) ensures IsList(search, a) && rest[a.name] == search[a.name] {
      WithoutIdKeeps(search, a.name);
    }
    if AnyAlternative(search, others) {
      var a :| a in others && IsList(search, a) && search[a.name].texts != [];
      WithoutIdRequests(search, a, "");
      assert IsList(rest, a);
    }
  }

  lemma WithoutIdKeeps(search: Search, key: string)
    ensures key in WithoutId(search) ==> key in search && WithoutId(search)[key] == search[key]
  {
  }

  lemma AllOfMeans<D>(search: Search, allowed: seq<Allowed>, allOf: seq<Leaf>, t: Tests<D>, d: D)
    requires forall leaf :: leaf in allOf <==> Requirement(search, allowed, leaf)
    ensures (forall leaf :: leaf in allOf ==> LeafHolds(t, leaf, d)) <==>
            forall a, text :: a in allowed && IsSingle(search, a, text) ==> Satisfies(t, a, text, d)
  {
    hide CreateRegexFilterText, IsSingle;
    if forall leaf :: leaf in allOf ==> LeafHolds(t, leaf, d) {
      forall a, text | a in allowed && IsSingle(search, a, text) ensures Satisfies(t, a, text, d) {
        assert Requirement(search, allowed, MongoLeaf(a, text));
        assert LeafHolds(t, MongoLeaf(a, text), d);
      }
    }
  }

  lemma AnyOfMeans<D>(search: Search, allowed: seq<Allowed>, anyOf: seq<Leaf>, t: Tests<D>, d: D)
    requires forall leaf :: leaf in anyOf <==> Alternative(search, allowed, leaf)
    ensures (exists leaf :: leaf in anyOf && LeafHolds(t, leaf, d)) <==>
            exists a, text :: a in allowed && IsAlternative(search, a, text) && Satisfies(t, a, text, d)
    ensures anyOf != [] <==> AnyAlternative(search, allowed)
  {
    hide CreateRegexFilterText;
    if a, text :| a in allowed && IsAlternative(search, a, text) && Satisfies(t, a, text, d) {
      assert Alternative(search, allowed, MongoLeaf(a, text));
      assert MongoLeaf(a, text) in anyOf && LeafHolds(t, MongoLeaf(a, text), d);
    }
    if AnyAlternative(search, allowed) {
      var a :| a in allowed && IsList(search, a) && search[a.name].texts != [];
      assert IsAlternative(search, a, search[a.name].texts[0]);
      assert Alternative(search, allowed, MongoLeaf(a, search[a.name].texts[0]));
    }
    if anyOf != [] {
      assert Alternative(search, allowed, anyOf[0]);
    }
  }
}
