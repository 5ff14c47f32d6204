/** Operator queries built from a list of commands, and the grouping that validates the list. */
module CommandFilters {
  import opened Wrappers

  datatype Command = EqualTo | NotEqualTo | NotContains | Contains

  datatype FilterCommand = FilterCommand(property: string, values: seq<string>, command: Command)

  // ---------- grouping ----------

  type Groups = map<string, seq<FilterCommand>>

  /** The sublist of one property, in the order of the list. */
  function OfProperty(list: seq<FilterCommand>, property: string): seq<FilterCommand> {
    if list == [] then []
    else (if list[0].property == property then [list[0]] else []) + OfProperty(list[1..], property)
  }

  /**
   * `groupBy`: every item goes to the end of its property's group, so each group is the sublist
   * of its property and there are no empty groups.
   */
  method GroupBy(list: seq<FilterCommand>) returns (groups: Groups)
    ensures forall p :: p in groups <==> exists c :: c in list && c.property == p
    ensures forall p :: p in groups ==> groups[p] == OfProperty(list, p)
  {
    groups := map[];
    for i := 0 to |list|
      invariant forall p :: p in groups <==> exists c :: c in list[..i] && c.property == p
      invariant forall p :: p in groups ==> groups[p] == OfProperty(list[..i], p)
    {
      var c := list[i];
      var key := c.property;
      assert list[..i + 1] == list[..i] + [c];
      forall p ensures OfProperty(list[..i + 1], p) == OfProperty(list[..i], p) + if p == key then [c] else [] {
        OfPropertySnoc(list[..i], c, p);
      }
      if key !in groups {
        NoneOfProperty(list[..i], key);
        groups := groups[key := []];
      }
      groups := groups[key := groups[key] + [c]];
    }
    assert list[..|list|] == list;
  }

  lemma {:induction false} OfPropertySnoc(list: seq<FilterCommand>, c: FilterCommand, p: string)
    ensures OfProperty(list + [c], p) == OfProperty(list, p) + if c.property == p then [c] else []
  {
    if list != [] {
      OfPropertySnoc(list[1..], c, p);
      assert (list + [c])[1..] == list[1..] + [c];
    } else {
      assert [c][1..] == [];
    }
  }

  lemma {:induction false} NoneOfProperty(list: seq<FilterCommand>, p: string)
    requires forall c :: c in list ==> c.property != p
    ensures OfProperty(list, p) == []
  {
    if list != [] {
      NoneOfProperty(list[1..], p);
    }
  }

  // ---------- validation ----------

  predicate IsLike(c: Command) { c == Contains || c == NotContains }

  function CountLike(list: seq<FilterCommand>): nat {
    if list == [] then 0 else (if IsLike(list[0].command) then 1 else 0) + CountLike(list[1..])
  }

  /** Two like commands, or two equality commands, on one property; exactly two. */
  predicate Conflicts(group: seq<FilterCommand>) {
    CountLike(group) == 2 || |group| - CountLike(group) == 2
  }

  predicate Accepted(list: seq<FilterCommand>) {
    forall c :: c in list ==> !Conflicts(OfProperty(list, c.property))
  }

  method ValidateFindByCommandsFilter(list: seq<FilterCommand>) returns (ok: bool)
    ensures ok <==> Accepted(list)
  {
    var groups := GroupBy(list);
    var keys := groups.Keys;
    while keys != {}
      invariant keys <= groups.Keys
      invariant forall p :: p in groups && p !in keys ==> !Conflicts(groups[p])
      decreases keys
    {
      var p :| p in keys;
      keys := keys - {p};
      var like, equal := CountKinds(groups[p]);
      if like == 2 || equal == 2 {
        var c :| c in list && c.property == p;
        return false;
      }
    }
    return true;
  }

  /** The two filters over one group's commands. */
  method CountKinds(group: seq<FilterCommand>) returns (like: nat, equal: nat)
    ensures like == CountLike(group) && equal == |group| - CountLike(group)
  {
    like, equal := 0, 0;
    for i := 0 to |group|
      invariant like == CountLike(group[..i]) && equal == i - CountLike(group[..i])
    {
      assert group[..i + 1] == group[..i] + [group[i]];
      CountLikeSnoc(group[..i], group[i]);
      if group[i].command == Contains || group[i].command == NotContains {
        like := like + 1;
      }
      if group[i].command == EqualTo || group[i].command == NotEqualTo {
        equal := equal + 1;
      }
    }
    assert group[..|group|] == group;
  }

  lemma {:induction false} CountLikeSnoc(list: seq<FilterCommand>, c: FilterCommand)
    ensures CountLike(list + [c]) == CountLike(list) + if IsLike(c.command) then 1 else 0
  {
    if list != [] {
      CountLikeSnoc(list[1..], c);
      assert (list + [c])[1..] == list[1..] + [c];
    } else {
      assert [c][1..] == [];
    }
  }

  // ---------- the query ----------

  /** One bound field: a value in or not in a list, tested whole or by prefix pattern. */
  datatype Condition = Condition(negated: bool, byPattern: bool, values: seq<string>) | IsNull

  type Query = map<string, Condition>

  function MongoField(property: string): string { if property == "id" then "_id" else property }

  function ToCondition(c: FilterCommand): Condition {
    Condition(c.command == NotEqualTo || c.command == NotContains, IsLike(c.command), c.values)
  }

  /** The last command on a field. */
  function LastOn(list: seq<FilterCommand>, field: string): Option<FilterCommand> {
    if list == [] then None
    else if MongoField(list[|list| - 1].property) == field then Some(list[|list| - 1])
    else LastOn(list[..|list| - 1], field)
  }

  /** `deletedAt` is bound to null whatever was asked; every other field to its last command. */
  ghost predicate BindsLast(q: Query, list: seq<FilterCommand>) {
    && (forall field :: field in q <==> field == "deletedAt" || LastOn(list, field).Some?)
    && q["deletedAt"] == IsNull
    && (forall field :: field in q && field != "deletedAt" ==> q[field] == ToCondition(LastOn(list, field).value))
  }

  method BuildCommandFilter(list: seq<FilterCommand>) returns (r: Result<Query, ()>)
    ensures r.Ok? <==> Accepted(list)
    ensures r.Ok? ==> BindsLast(r.value, list)
  {
    var searchList: Query := map[];
    var ok := ValidateFindByCommandsFilter(list);
    if !ok {
      return Err(());
    }
    for i := 0 to |list|
      invariant forall field :: field in searchList <==> LastOn(list[..i], field).Some?
      invariant forall field :: field in searchList ==> searchList[field] == ToCondition(LastOn(list[..i], field).value)
    {
      var filter := list[i];
      assert list[..i + 1][..i] == list[..i];
      var negated := filter.command == NotEqualTo || filter.command == NotContains;
      if filter.command == Contains || filter.command == NotContains {
        searchList := searchList[MongoField(filter.property) := Condition(negated, true, filter.values)];
        continue;
      }
      searchList := searchList[MongoField(filter.property) := Condition(negated, false, filter.values)];
    }
    assert list[..|list|] == list;
    searchList := searchList["deletedAt" := IsNull];
    return Ok(searchList);
  }

  // ---------- what the query selects ----------

  /** The leaf tests: equality with a value, a prefix pattern match, and being null. */
  datatype Tests<!D> = Tests(
    equal: (string, string, D) -> bool,
    startsWith: (string, string, D) -> bool,
    isNull: (string, D) -> bool)

  predicate Listed<D>(t: Tests<D>, field: string, byPattern: bool, values: seq<string>, d: D) {
    exists v :: v in values && if byPattern then t.startsWith(field, v, d) else t.equal(field, v, d)
  }

  predicate Holds<D>(t: Tests<D>, field: string, c: Condition, d: D) {
    match c
    case IsNull => t.isNull(field, d)
    case Condition(negated, byPattern, values) => Listed(t, field, byPattern, values, d) != negated
  }

  predicate Selects<D>(t: Tests<D>, q: Query, d: D) {
    forall field :: field in q ==> Holds(t, field, q[field], d)
  }

  /** A document meets a command on its own field. */
  predicate Meets<D>(t: Tests<D>, c: FilterCommand, d: D) {
    match c.command
    case EqualTo => Listed(t, MongoField(c.property), false, c.values, d)
    case NotEqualTo => !Listed(t, MongoField(c.property), false, c.values, d)
    case Contains => Listed(t, MongoField(c.property), true, c.values, d)
    case NotContains => !Listed(t, MongoField(c.property), true, c.values, d)
  }

  /** No later command is on the same field. */
  predicate IsLastOn(list: seq<FilterCommand>, i: nat)
    requires i < |list|
  {
    forall j :: i < j < |list| ==> MongoField(list[j].property) != MongoField(list[i].property)
  }

  lemma LastOnIsLast(list: seq<FilterCommand>, field: string)
    ensures LastOn(list, field).Some? ==>
              exists i :: 0 <= i < |list| && list[i] == LastOn(list, field).value
                && MongoField(list[i].property) == field && IsLastOn(list, i)
    ensures forall i :: 0 <= i < |list| && MongoField(list[i].property) == field && IsLastOn(list, i) ==>
            LastOn(list, field) == Some(list[i])
  {
    hide *;
    if LastOn(list, field).Some? {
      var i := LastAt(list, field);
    }
    forall i | 0 <= i < |list| && MongoField(list[i].property) == field && IsLastOn(list, i)
      ensures LastOn(list, field) == Some(list[i])
    {
      LastIsFound(list, field, i);
    }
  }

  lemma {:induction false} LastAt(list: seq<FilterCommand>, field: string) returns (i: nat)
    requires LastOn(list, field).Some?
    ensures i < |list| && list[i] == LastOn(list, field).value
    ensures MongoField(list[i].property) == field && IsLastOn(list, i)
  {
    hide MongoField;
    i := |list| - 1;
    if MongoField(list[i].property) != field {
      var front := list[..i];
      i := LastAt(front, field);
      assert forall j :: i < j < |front| ==> list[j] == front[j];
    }
  }

  lemma {:induction false} LastIsFound(list: seq<FilterCommand>, field: string, i: nat)
    requires i < |list| && MongoField(list[i].property) == field && IsLastOn(list, i)
    ensures LastOn(list, field) == Some(list[i])
    decreases |list|
  {
    hide MongoField;
    if i < |list| - 1 {
      var front := list[..|list| - 1];
      assert forall j :: 0 <= j < |front| ==> front[j] == list[j];
      LastIsFound(front, field, i);
    }
  }

  /**
   * The built query selects a document exactly when it is not deleted and meets, for every field
   * but the deletion mark, the last command on it.
   */
  lemma QueryMeansLastCommands<D>(q: Query, list: seq<FilterCommand>, t: Tests<D>, d: D)
    requires BindsLast(q, list)
    ensures Selects(t, q, d) <==>
            && t.isNull("deletedAt", d)
            && forall i ::
                 0 <= i < |list| && IsLastOn(list, i) && MongoField(list[i].property) != "deletedAt" ==>
                   Meets(t, list[i], d)
  {
    hide LastOn, Listed;
    forall c: FilterCommand ensures Holds(t, MongoField(c.property), ToCondition(c), d) <==> Meets(t, c, d) {
    }
    if Selects(t, q, d) {
      assert Holds(t, "deletedAt", q["deletedAt"], d);
      forall i | 0 <= i < |list| && IsLastOn(list, i) && MongoField(list[i].property) != "deletedAt"
        ensures Meets(t, list[i], d)
      {
        var field := MongoField(list[i].property);
        LastOnIsLast(list, field);
        assert Holds(t, field, q[field], d);
      }
    } else {
      var field :| field in q && !Holds(t, field, q[field], d);
      if field != "deletedAt" {
        LastOnIsLast(list, field);
        var i :| 0 <= i < |list| && list[i] == LastOn(list, field).value
          && MongoField(list[i].property) == field && IsLastOn(list, i);
        assert !Meets(t, list[i], d);
      }
    }
  }

  /** With distinct fields, none the deletion mark, it is the live documents meeting every command. */
  lemma QueryMeansAllCommands<D>(q: Query, list: seq<FilterCommand>, t: Tests<D>, d: D)
    requires BindsLast(q, list)
    requires forall i, j :: 0 <= i < j < |list| ==> MongoField(list[i].property) != MongoField(list[j].property)
    requires forall c :: c in list ==> MongoField(c.property) != "deletedAt"
    ensures Selects(t, q, d) <==> t.isNull("deletedAt", d) && forall c :: c in list ==> Meets(t, c, d)
  {
    hide Meets, Selects;
    QueryMeansLastCommands(q, list, t, d);
    assert forall i :: 0 <= i < |list| ==> IsLastOn(list, i) && list[i] in list;
  }

  /** A command on `id` binds `_id`, never `id`; any other property is a field of its own name. */
  lemma QueryFields(q: Query, list: seq<FilterCommand>, field: string)
    requires BindsLast(q, list)
    ensures "id" !in q
    ensures "_id" in q <==> exists c :: c in list && (c.property == "id" || c.property == "_id")
    ensures field != "id" && field != "_id" ==>
              (field in q <==> field == "deletedAt" || exists c :: c in list && c.property == field)
  {
    LastOnSomeIff(list, "id");
    LastOnSomeIff(list, "_id");
    LastOnSomeIff(list, field);
    assert forall c: FilterCommand :: MongoField(c.property) != "id";
    assert forall c: FilterCommand :: MongoField(c.property) == "_id" <==> c.property == "id" || c.property == "_id";
  }

  lemma {:induction false} LastOnSomeIff(list: seq<FilterCommand>, field: string)
    ensures LastOn(list, field).Some? <==> exists c :: c in list && MongoField(c.property) == field
  {
    if list != [] {
      var front, last := list[..|list| - 1], list[|list| - 1];
      assert list == front + [last];
      LastOnSomeIff(front, field);
    }
  }

  // ---------- what the check lets through ----------

  /** The positions of one kind of command on one property. */
  function Positions(list: seq<FilterCommand>, property: string, like: bool): set<nat> {
    set i: nat | i < |list| && list[i].property == property && IsLike(list[i].command) == like
  }

  function Number(list: seq<FilterCommand>, property: string, like: bool): nat { |Positions(list, property, like)| }

  /** The counts the check takes from a group are the numbers of commands in the list. */
  lemma {:induction false} GroupCounts(list: seq<FilterCommand>, p: string)
    ensures CountLike(OfProperty(list, p)) == Number(list, p, true)
    ensures |OfProperty(list, p)| - CountLike(OfProperty(list, p)) == Number(list, p, false)
  {
    if list != [] {
      var front, c := list[..|list| - 1], list[|list| - 1];
      assert list == front + [c];
      GroupCounts(front, p);
      OfPropertySnoc(front, c, p);
      CountLikeSnoc(OfProperty(front, p), c);
      assert OfProperty(list, p) == if c.property == p then OfProperty(front, p) + [c] else OfProperty(front, p);
      NumberSnoc(front, c, p, true);
      NumberSnoc(front, c, p, false);
    } else {
      assert Positions(list, p, true) == {} && Positions(list, p, false) == {};
    }
  }

  lemma NumberSnoc(front: seq<FilterCommand>, c: FilterCommand, p: string, like: bool)
    ensures Number(front + [c], p, like) ==
            Number(front, p, like) + if c.property == p && IsLike(c.command) == like then 1 else 0
  {
    var before, after := Positions(front, p, like), Positions(front + [c], p, like);
    if c.property == p && IsLike(c.command) == like {
      assert after == before + {|front|};
    } else {
      assert after == before;
    }
  }

  /** What the error message speaks of: no property with two commands of one kind. */
  predicate OneOfEachKind(list: seq<FilterCommand>) {
    forall c, like :: c in list ==> Number(list, c.property, like) <= 1
  }

  predicate ExactlyTwoSomewhere(list: seq<FilterCommand>) {
    exists c, like :: c in list && Number(list, c.property, like) == 2
  }

  /** The check refuses a list exactly when some property has exactly two commands of one kind. */
  lemma RefusesExactlyTwo(list: seq<FilterCommand>)
    ensures Accepted(list) <==> !ExactlyTwoSomewhere(list)
  {
    hide OfProperty, CountLike, Number;
    forall p ensures Conflicts(OfProperty(list, p)) <==> Number(list, p, true) == 2 || Number(list, p, false) == 2 {
      GroupCounts(list, p);
    }
  }

  /**
   * So a list with two or more commands of one kind on some property gets through exactly when
   * the numbers above one are all above two; and every list free of such properties does.
   */
  lemma ConflictGetsThroughIff(list: seq<FilterCommand>)
    ensures OneOfEachKind(list) ==> Accepted(list)
    ensures Accepted(list) && !OneOfEachKind(list) <==>
            && (exists c, like :: c in list && Number(list, c.property, like) >= 3)
            && forall c, like :: c in list && Number(list, c.property, like) >= 2 ==>
              Number(list, c.property, like) >= 3
  {
    hide Accepted, Number;
    RefusesExactlyTwo(list);
  }

  /** The smallest such list: two like commands are refused, three are accepted. */
  lemma ThreeGetThrough(c: FilterCommand)
    requires IsLike(c.command)
    ensures !Accepted([c, c]) && Accepted([c, c, c])
  {
    hide Accepted;
    var p := c.property;
    assert Positions([c, c], p, true) == {0, 1} && Positions([c, c, c], p, true) == {0, 1, 2};
    assert Positions([c, c, c], p, false) == {};
    assert c in [c, c] && Number([c, c], p, true) == 2;
    RefusesExactlyTwo([c, c]);
    RefusesExactlyTwo([c, c, c]);
  }
}
