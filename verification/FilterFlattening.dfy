/** Nested repository filters flattened into dotted keys, once and twice. */
module FilterFlattening {
  import opened Wrappers
  import opened JsString

  // ---------- filters ----------

  /** Values the flattening does not open: null, primitives (by truth value) and arrays. */
  datatype Leaf = Null | Primitive(text: string, truthy: bool) | Array(items: seq<string>)

  /** A filter value; an object lists its own keys in order. */
  datatype Node = Value(leaf: Leaf) | Object(entries: seq<Entry>)
  datatype Entry = Entry(key: string, node: Node)

  type Flat = map<string, Leaf>

  function FullKey(prefix: string, key: string): string {
    if prefix == "" then key else prefix + "." + key
  }

  /** Flattening: every leaf is written at its dotted key, in key order, last write wins. */
  function Flatten(entries: seq<Entry>, target: Flat, prefix: string): Flat
    decreases entries
  {
    if entries == [] then target
    else
      var e := entries[0];
      var full := FullKey(prefix, e.key);
      var target' := match e.node
                     case Value(leaf) => target[full := leaf]
                     case Object(inner) => Flatten(inner, target, full);
      Flatten(entries[1..], target', prefix)
  }

  class Target {
    var keys: Flat

    constructor ()
      ensures keys == map[]
    {
      keys := map[];
    }
  }

  method FlattenKeys(entries: seq<Entry>, target: Target, prefix: string)
    modifies target
    ensures target.keys == Flatten(entries, old(target.keys), prefix)
    decreases entries
  {
    for i := 0 to |entries|
      invariant Flatten(entries[i..], target.keys, prefix) == Flatten(entries, old(target.keys), prefix)
    {
      var e := entries[i];
      assert entries[i..][0] == e && entries[i..][1..] == entries[i + 1..];
      var fullKey := FullKey(prefix, e.key);
      match e.node
      case Object(inner) => FlattenKeys(inner, target, fullKey);
      case Value(leaf) => target.keys := target.keys[fullKey := leaf];
    }
  }

  // ---------- what a filter says: its leaves by path ----------

  type Paths = map<seq<string>, Leaf>

  /** The leaves of a filter by path: a filter up to key order and empty sub-objects. */
  function Leaves(entries: seq<Entry>, path: seq<string>): Paths
    decreases entries
  {
    if entries == [] then map[]
    else
      var e := entries[0];
      var here := match e.node
                  case Value(leaf) => map[path + [e.key] := leaf]
                  case Object(inner) => Leaves(inner, path + [e.key]);
      here + Leaves(entries[1..], path)
  }

  /** The leaves under one entry. */
  function LeavesOf(e: Entry, path: seq<string>): Paths {
    match e.node
    case Value(leaf) => map[path + [e.key] := leaf]
    case Object(inner) => Leaves(inner, path + [e.key])
  }

  predicate PlainKey(key: string) { key != "" && Free(key, '.') }

  /** Non-empty dot-free keys, distinct within each object. */
  predicate PlainKeys(entries: seq<Entry>)
    decreases entries
  {
    && (forall i, j :: 0 <= i < j < |entries| ==> entries[i].key != entries[j].key)
    && (forall e :: e in entries ==> PlainKey(e.key) && (e.node.Object? ==> PlainKeys(e.node.entries)))
  }

  predicate PlainPath(path: seq<string>) { forall p :: p in path ==> PlainKey(p) }

  function Dotted(path: seq<string>): string { Join(path, '.') }

  lemma {:induction false} DottedExtends(path: seq<string>, key: string)
    requires PlainPath(path) && PlainKey(key)
    ensures FullKey(Dotted(path), key) == Dotted(path + [key])
    ensures path != [] ==> Dotted(path) != ""
  {
    if |path| == 1 {
      assert path[0] in path;
      assert (path + [key])[1..] == [key] && (path + [key])[0] == path[0];
      assert Dotted([key]) == key;
    } else if |path| > 1 {
      assert path[0] in path && forall p :: p in path[1..] ==> p in path;
      DottedExtends(path[1..], key);
      assert (path + [key])[1..] == path[1..] + [key];
    }
  }

  lemma DottedInjective(p: seq<string>, q: seq<string>)
    requires PlainPath(p) && PlainPath(q) && p != [] && q != [] && Dotted(p) == Dotted(q)
    ensures p == q
  {
    SplitJoin(p, '.');
    SplitJoin(q, '.');
  }

  ghost predicate Extends(path: seq<string>, p: seq<string>) {
    |path| < |p| && p[..|path|] == path
  }

  lemma {:induction false} LeavesBelow(entries: seq<Entry>, path: seq<string>)
    requires PlainKeys(entries) && PlainPath(path)
    ensures forall p :: p in Leaves(entries, path) ==>
              Extends(path, p) && PlainPath(p) && exists e :: e in entries && p[|path|] == e.key
    decreases entries
  {
    if entries != [] {
      var e, rest := entries[0], entries[1..];
      PlainTail(entries);
      LeavesBelow(rest, path);
      if e.node.Object? {
        LeavesBelow(e.node.entries, path + [e.key]);
        forall p | p in Leaves(e.node.entries, path + [e.key]) ensures Extends(path, p) && p[|path|] == e.key {
          assert p[..|path|] == p[..|path| + 1][..|path|];
        }
      }
      forall p | p in Leaves(entries, path) ensures exists x :: x in entries && p[|path|] == x.key {
        assert e in entries && forall x :: x in rest ==> x in entries;
      }
    }
  }

  lemma PlainTail(entries: seq<Entry>)
    requires PlainKeys(entries) && entries != []
    ensures PlainKeys(entries[1..])
    ensures PlainKey(entries[0].key) && (entries[0].node.Object? ==> PlainKeys(entries[0].node.entries))
    ensures forall e :: e in entries[1..] ==> e.key != entries[0].key
  {
    assert forall i :: 0 <= i < |entries[1..]| ==> entries[1..][i] == entries[i + 1];
    assert entries[0] in entries;
  }

  /** The flat map says of every plain path what the leaves say, and nothing else is written. */
  ghost predicate Renders(flat: Flat, before: Flat, leaves: Paths) {
    && (forall p :: p in leaves ==> Dotted(p) in flat && flat[Dotted(p)] == leaves[p])
    && (forall k :: k in flat ==> k in before || exists p :: p in leaves && Dotted(p) == k)
    && (forall k :: k in before && (forall p :: p in leaves ==> Dotted(p) != k) ==> k in flat && flat[k] == before[k])
  }

  lemma {:induction false} FlattenRenders(entries: seq<Entry>, target: Flat, path: seq<string>)
    requires PlainKeys(entries) && PlainPath(path)
    ensures Renders(Flatten(entries, target, Dotted(path)), target, Leaves(entries, path))
    decreases entries
  {
    if entries != [] {
      var e, rest := entries[0], entries[1..];
      PlainTail(entries);
      DottedExtends(path, e.key);
      var full := FullKey(Dotted(path), e.key);
      var here := LeavesOf(e, path);
      var mid := match e.node
                 case Value(leaf) => target[full := leaf]
                 case Object(inner) => Flatten(inner, target, full);
      assert PlainPath(path + [e.key]);
      if e.node.Object? {
        FlattenRenders(e.node.entries, target, path + [e.key]);
        LeavesBelow(e.node.entries, path + [e.key]);
      }
      assert Renders(mid, target, here);
      FlattenRenders(rest, mid, path);
      LeavesBelow(rest, path);
      var later := Leaves(rest, path);
      forall p, q | p in here && q in later ensures Dotted(p) != Dotted(q) {
        HereIsBelow(e, path, p);
        if Dotted(p) == Dotted(q) {
          DottedInjective(p, q);
        }
      }
      RendersCompose(target, mid, Flatten(rest, mid, Dotted(path)), here, later);
    }
  }

  lemma HereIsBelow(e: Entry, path: seq<string>, p: seq<string>)
    requires PlainKey(e.key) && PlainPath(path) && (e.node.Object? ==> PlainKeys(e.node.entries))
    requires p in LeavesOf(e, path)
    ensures |p| > |path| && p[|path|] == e.key && PlainPath(p)
  {
    assert PlainPath(path + [e.key]);
    if e.node.Object? {
      hide PlainKeys;
      LeavesBelow(e.node.entries, path + [e.key]);
      assert p[..|path| + 1] == path + [e.key];
    }
  }

  lemma RendersCompose(before: Flat, mid: Flat, after: Flat, here: Paths, later: Paths)
    requires Renders(mid, before, here) && Renders(after, mid, later)
    requires forall p, q :: p in here && q in later ==> Dotted(p) != Dotted(q)
    ensures Renders(after, before, here + later)
  {
    hide Dotted;
    var all := here + later;
    forall p | p in all ensures Dotted(p) in after && after[Dotted(p)] == all[p] {
      if p !in later {
        assert Dotted(p) in mid && mid[Dotted(p)] == here[p];
      }
    }
    forall k | k in after && k !in before ensures exists p :: p in all && Dotted(p) == k {
      if k in mid {
        var p :| p in here && Dotted(p) == k;
        assert p in all;
      } else {
        var p :| p in later && Dotted(p) == k;
        assert p in all;
      }
    }
    forall k | k in before && (forall p :: p in all ==> Dotted(p) != k) ensures k in after && after[k] == before[k] {
      assert forall p :: p in here ==> p in all;
      assert forall p :: p in later ==> p in all;
      assert k in mid && mid[k] == before[k];
    }
  }

  /** One entry per leaf, at the leaf's dotted path, and no other entry. */
  ghost predicate OneEntryPerLeaf(flat: Flat, leaves: Paths) {
    && (forall p :: p in leaves ==> Dotted(p) in flat && flat[Dotted(p)] == leaves[p])
    && (forall k :: k in flat ==> exists p :: p in leaves && Dotted(p) == k)
    && (forall p, q :: p in leaves && q in leaves && Dotted(p) == Dotted(q) ==> p == q)
  }

  lemma FlattenIsExact(entries: seq<Entry>)
    requires PlainKeys(entries)
    ensures OneEntryPerLeaf(Flatten(entries, map[], ""), Leaves(entries, []))
  {
    var leaves := Leaves(entries, []);
    FlattenRenders(entries, map[], []);
    LeavesArePlain(entries);
    forall p, q | p in leaves && q in leaves && Dotted(p) == Dotted(q) ensures p == q {
      DottedInjective(p, q);
    }
  }

  ghost predicate PlainPaths(leaves: Paths) { forall p :: p in leaves ==> p != [] && PlainPath(p) }

  lemma LeavesArePlain(entries: seq<Entry>)
    requires PlainKeys(entries)
    ensures PlainPaths(Leaves(entries, []))
  {
    LeavesBelow(entries, []);
    forall p | p in Leaves(entries, []) ensures p != [] && PlainPath(p) {
      assert Extends([], p);
    }
  }

  // ---------- unflattening ----------

  /** Reading the dotted keys back into paths. */
  function Unflatten(flat: Flat): Paths {
    var paths := set k | k in flat :: Split(k, '.');
    map p | p in paths && Dotted(p) in flat :: flat[Dotted(p)]
  }

  /** Unflattening recovers the filter up to key order and empty sub-objects. */
  lemma UnflattenInverts(entries: seq<Entry>)
    requires PlainKeys(entries)
    ensures Unflatten(Flatten(entries, map[], "")) == Leaves(entries, [])
  {
    hide *;
    FlattenIsExact(entries);
    LeavesArePlain(entries);
    ReadsBack(Flatten(entries, map[], ""), Leaves(entries, []));
  }

  lemma ReadsBack(flat: Flat, leaves: Paths)
    requires PlainPaths(leaves) && OneEntryPerLeaf(flat, leaves)
    ensures Unflatten(flat) == leaves
  {
    hide Dotted, PlainPath, Split;
    forall p | p in leaves ensures Split(Dotted(p), '.') == p {
      PathReadsBack(p);
    }
    var paths := set k | k in flat :: Split(k, '.');
    forall p | p in leaves ensures p in paths {
      assert Dotted(p) in flat;
    }
    forall p | p in paths ensures p in leaves {
      var k :| k in flat && Split(k, '.') == p;
      var q :| q in leaves && Dotted(q) == k;
    }
    assert Unflatten(flat).Keys == leaves.Keys;
  }

  lemma PathReadsBack(p: seq<string>)
    requires p != [] && PlainPath(p)
    ensures Split(Dotted(p), '.') == p
  {
    SplitJoin(p, '.');
  }

  // ---------- converting once and twice ----------

  predicate IsTruthyLeaf(leaf: Leaf) { leaf.Array? || (leaf.Primitive? && leaf.truthy) }

  predicate IsTruthy(n: Node) { n.Object? || IsTruthyLeaf(n.leaf) }

  predicate DistinctKeys(entries: seq<Entry>) {
    forall i, j :: 0 <= i < j < |entries| ==> entries[i].key != entries[j].key
  }

  predicate HasKey(entries: seq<Entry>, key: string) { exists e :: e in entries && e.key == key }

  function Get(entries: seq<Entry>, key: string): Option<Node> {
    if entries == [] then None
    else if entries[0].key == key then Some(entries[0].node)
    else Get(entries[1..], key)
  }

  /** Assigning a property: in place if it exists, at the end if not. */
  function Set(entries: seq<Entry>, key: string, node: Node): seq<Entry> {
    if entries == [] then [Entry(key, node)]
    else if entries[0].key == key then [Entry(key, node)] + entries[1..]
    else [entries[0]] + Set(entries[1..], key, node)
  }

  function Delete(entries: seq<Entry>, key: string): seq<Entry> {
    if entries == [] then []
    else if entries[0].key == key then entries[1..]
    else [entries[0]] + Delete(entries[1..], key)
  }

  /** What the decorator does to the filter object itself. */
  function Rewrite(entries: seq<Entry>): seq<Entry> {
    var live := Set(entries, "deletedAt", Value(Null));
    var id := Get(live, "id");
    if id.Some? && IsTruthy(id.value) then Delete(Set(live, "_id", id.value), "id") else live
  }

  function Convert(entries: seq<Entry>): Flat { Flatten(Rewrite(entries), map[], "") }

  class FilterInput {
    var entries: seq<Entry>

    constructor (entries: seq<Entry>)
      ensures this.entries == entries
    {
      this.entries := entries;
    }
  }

  method ConvertFilterToMongo(input: FilterInput) returns (flat: Flat)
    modifies input
    ensures input.entries == Rewrite(old(input.entries))
    ensures flat == Convert(old(input.entries))
  {
    input.entries := Set(input.entries, "deletedAt", Value(Null));
    var id := Get(input.entries, "id");
    if id.Some? && IsTruthy(id.value) {
      input.entries := Set(input.entries, "_id", id.value);
      input.entries := Delete(input.entries, "id");
    }
    var target := new Target();
    FlattenKeys(input.entries, target, "");
    flat := target.keys;
  }

  // ---------- what one conversion does, leaf by leaf ----------

  /** The filter has an id that JavaScript takes for true: any object or array, a true primitive. */
  ghost predicate MovesId(entries: seq<Entry>) {
    exists e :: e in entries && e.key == "id" && IsTrue(e.node)
  }

  predicate IsTrue(n: Node) {
    match n
    case Object(_) => true
    case Value(Null) => false
    case Value(Primitive(_, truthy)) => truthy
    case Value(Array(_)) => true
  }

  /** Where a leaf of the caller's filter is looked for: under `_id` if the id moved. */
  function Moved(p: seq<string>, moves: bool): seq<string> {
    if moves && p != [] && p[0] == "id" then ["_id"] + p[1..] else p
  }

  /** The caller's own mark is overwritten, and so is an `_id` beside an id that moves. */
  predicate Survives(p: seq<string>, moves: bool) {
    p != [] && p[0] != "deletedAt" && !(moves && p[0] == "_id")
  }

  /**
   * Converting binds the deletion mark to null, keeps every other leaf at its dotted path, or
   * under `_id` for an id taken for true, and binds nothing else.
   */
  lemma ConvertMeans(entries: seq<Entry>)
    requires PlainKeys(entries)
    ensures var flat, leaves, moves := Convert(entries), Leaves(entries, []), MovesId(entries);
            && "deletedAt" in flat && flat["deletedAt"] == Null
            && (forall p :: p in leaves && Survives(p, moves) ==>
                  Dotted(Moved(p, moves)) in flat && flat[Dotted(Moved(p, moves))] == leaves[p])
            && (forall k :: k in flat ==>
                  k == "deletedAt" || exists p :: p in leaves && Survives(p, moves) && Dotted(Moved(p, moves)) == k)
  {
    hide Flatten, Leaves, Rewrite, PlainKeys, Dotted, Survives, Moved, MovesId;
    var out, moves := Rewrite(entries), MovesId(entries);
    var leaves, after := Leaves(entries, []), Leaves(out, []);
    RewriteIsPlain(entries);
    FlattenIsExact(out);
    MarkIsALeaf(entries);
    forall p | p in leaves && Survives(p, moves)
      ensures Moved(p, moves) in after && after[Moved(p, moves)] == leaves[p]
    {
      LeafMoves(entries, p);
    }
    forall q | q in after && q != ["deletedAt"]
      ensures exists p :: p in leaves && Survives(p, moves) && Moved(p, moves) == q
    {
      LeafCameFrom(entries, q);
    }
    DottedMark();
  }

  lemma MarkIsALeaf(entries: seq<Entry>)
    requires PlainKeys(entries)
    ensures var after := Leaves(Rewrite(entries), []);
            ["deletedAt"] in after && after[["deletedAt"]] == Null
  {
    hide Rewrite, Leaves, MovesId;
    RewriteHas(entries);
    RewriteIsPlain(entries);
    LeavesByEntry(Rewrite(entries), []);
    var mark := Entry("deletedAt", Value(Null));
    assert [] + ["deletedAt"] == ["deletedAt"];
    assert mark in Rewrite(entries) && ["deletedAt"] in LeavesOf(mark, []);
  }

  /** A leaf of a node under one key is a leaf of it under another. */
  lemma OtherKey(node: Node, key: string, key': string, p: seq<string>)
    requires p in LeavesOf(Entry(key, node), [])
    ensures p != [] && p[0] == key
    ensures var there, q := LeavesOf(Entry(key', node), []), [key'] + p[1..];
            q in there && there[q] == LeavesOf(Entry(key, node), [])[p]
  {
    EntryStart(Entry(key, node));
    EntryStart(Entry(key', node));
    hide *;
    match node
    case Value(_) =>
      assert p == [key] && [key'] + p[1..] == [key'];
    case Object(inner) =>
      var near, far, from := Leaves(inner, [key]), Leaves(inner, [key']), Leaves(inner, []);
      LeavesElsewhere(inner, [key]);
      LeavesElsewhere(inner, [key']);
      BelowAt(near, from, [key], p);
      FromAt(near, from, [key], p[1..]);
      FromAt(far, from, [key'], p[1..]);
      assert p == [key] + p[1..];
  }

  lemma EntryStart(e: Entry)
    ensures LeavesOf(e, []) == match e.node
                               case Value(leaf) => map[[e.key] := leaf]
                               case Object(inner) => Leaves(inner, [e.key])
  {
    assert [] + [e.key] == [e.key];
  }

  lemma LeafMoves(entries: seq<Entry>, p: seq<string>)
    requires PlainKeys(entries) && p in Leaves(entries, []) && Survives(p, MovesId(entries))
    ensures var after, q := Leaves(Rewrite(entries), []), Moved(p, MovesId(entries));
            q in after && after[q] == Leaves(entries, [])[p]
  {
    hide Rewrite, Leaves, LeavesOf, MovesId, PlainKeys;
    RewriteIsPlain(entries);
    LeavesByEntry(entries, []);
    LeavesByEntry(Rewrite(entries), []);
    var e :| e in entries && p in LeavesOf(e, []);
    EntryIsPlain(entries, e);
    HereIsBelow(e, [], p);
    RewriteHas(entries);
    if MovesId(entries) && e.key == "id" {
      assert e == Entry("id", e.node);
      OtherKey(e.node, "id", "_id", p);
      assert Entry("_id", e.node) in Rewrite(entries);
    } else {
      assert e in Rewrite(entries);
    }
  }

  lemma EntryIsPlain(entries: seq<Entry>, e: Entry)
    requires PlainKeys(entries) && e in entries
    ensures PlainKey(e.key) && (e.node.Object? ==> PlainKeys(e.node.entries)) && DistinctKeys(entries)
  {
  }

  lemma LeafCameFrom(entries: seq<Entry>, q: seq<string>)
    requires PlainKeys(entries) && q in Leaves(Rewrite(entries), []) && q != ["deletedAt"]
    ensures exists p :: p in Leaves(entries, []) && Survives(p, MovesId(entries)) && Moved(p, MovesId(entries)) == q
  {
    hide *;
    RewriteIsPlain(entries);
    NothingIsPlain();
    LeavesByEntry(Rewrite(entries), []);
    var e :| e in Rewrite(entries) && q in LeavesOf(e, []);
    EntryIsPlain(Rewrite(entries), e);
    HereIsBelow(e, [], q);
    var p := EntryCameFrom(entries, e, q);
  }

  lemma EntryCameFrom(entries: seq<Entry>, e: Entry, q: seq<string>) returns (p: seq<string>)
    requires PlainKeys(entries) && e in Rewrite(entries) && q in LeavesOf(e, [])
    requires q != [] && q[0] == e.key && q != ["deletedAt"]
    ensures p in Leaves(entries, []) && Survives(p, MovesId(entries)) && Moved(p, MovesId(entries)) == q
  {
    hide *;
    NothingIsPlain();
    LeavesByEntry(entries, []);
    PlainIsDistinct(entries);
    RewriteHas(entries);
    MarkAlone(q);
    if MovesId(entries) && e.key == "_id" {
      assert Entry("id", e.node) in entries && e == Entry("_id", e.node);
      OtherKey(e.node, "_id", "id", q);
      IdCameFrom(q);
      p := ["id"] + q[1..];
    } else {
      assert e in entries;
      StayedPut(q, MovesId(entries));
      p := q;
    }
  }

  lemma NothingIsPlain()
    ensures PlainPath([])
  {
  }

  lemma IdCameFrom(q: seq<string>)
    requires q != [] && q[0] == "_id"
    ensures var p := ["id"] + q[1..]; Survives(p, true) && Moved(p, true) == q
  {
    assert q == ["_id"] + q[1..];
  }

  lemma StayedPut(q: seq<string>, moves: bool)
    requires q != [] && q[0] != "deletedAt" && (moves ==> q[0] != "id" && q[0] != "_id")
    ensures Survives(q, moves) && Moved(q, moves) == q
  {
  }

  lemma PlainIsDistinct(entries: seq<Entry>)
    requires PlainKeys(entries)
    ensures DistinctKeys(entries)
  {
  }

  lemma MarkAlone(q: seq<string>)
    requires q != ["deletedAt"]
    ensures q !in LeavesOf(Entry("deletedAt", Value(Null)), [])
  {
    assert [] + ["deletedAt"] == ["deletedAt"];
  }

  lemma DottedMark()
    ensures Dotted(["deletedAt"]) == "deletedAt"
  {
  }

  /** The entries of the rewritten filter. */
  lemma RewriteHas(entries: seq<Entry>)
    requires DistinctKeys(entries)
    ensures var out, moves := Rewrite(entries), MovesId(entries);
            && DistinctKeys(out)
            && forall e :: e in out <==>
                 || e == Entry("deletedAt", Value(Null))
                 || (moves && e.key == "_id" && Entry("id", e.node) in entries)
                 || (e in entries && e.key != "deletedAt" && !(moves && (e.key == "id" || e.key == "_id")))
  {
    hide Set, Get, Delete;
    var live := Set(entries, "deletedAt", Value(Null));
    SetMembers(entries, "deletedAt", Value(Null));
    GetFinds(live, "id");
    var id := Get(live, "id");
    if id.Some? {
      SetMembers(live, "_id", id.value);
      DeleteMembers(Set(live, "_id", id.value), "id");
      var top :| top in live && top.key == "id";
      assert top in entries && top == Entry("id", id.value);
      assert forall e :: e in entries && e.key == "id" ==> e == top;
      assert IsTrue(id.value) <==> IsTruthy(id.value);
    } else {
      assert forall e :: e in entries ==> e.key != "id";
    }
  }

  lemma RewriteIsPlain(entries: seq<Entry>)
    requires PlainKeys(entries)
    ensures PlainKeys(Rewrite(entries))
  {
    hide Rewrite, MovesId;
    RewriteHas(entries);
    var out := Rewrite(entries);
    forall e | e in out ensures PlainKey(e.key) && (e.node.Object? ==> PlainKeys(e.node.entries)) {
      if e !in entries && e.key == "_id" {
        assert Entry("id", e.node) in entries;
      }
    }
  }

  /** A leaf is a leaf of one entry. */
  lemma {:induction false} LeavesByEntry(entries: seq<Entry>, path: seq<string>)
    requires PlainKeys(entries) && PlainPath(path)
    ensures forall p :: p in Leaves(entries, path) ==> exists e :: e in entries && p in LeavesOf(e, path)
    ensures forall e, p :: e in entries && p in LeavesOf(e, path) ==>
              p in Leaves(entries, path) && Leaves(entries, path)[p] == LeavesOf(e, path)[p]
    decreases entries
  {
    if entries != [] {
      var first, rest := entries[0], entries[1..];
      PlainTail(entries);
      assert forall e :: e in entries <==> e == first || e in rest;
      LeavesByEntry(rest, path);
      LeavesBelow(rest, path);
      assert Leaves(entries, path) == LeavesOf(first, path) + Leaves(rest, path);
      hide Leaves, LeavesOf, PlainKeys;
      forall p | p in LeavesOf(first, path) ensures p !in Leaves(rest, path) {
        HereIsBelow(first, path, p);
      }
    }
  }

  /** The leaves below a path are those below any other, put there. */
  lemma {:induction false} LeavesElsewhere(entries: seq<Entry>, path: seq<string>)
    ensures PutBelow(Leaves(entries, path), Leaves(entries, []), path)
    decreases entries
  {
    if entries != [] {
      var e, rest := entries[0], entries[1..];
      LeavesSplit(entries, path);
      LeavesSplit(entries, []);
      LeavesElsewhere(rest, path);
      EntryElsewhere(e, path);
      hide Leaves, LeavesOf, PutBelow;
      PutBelowJoins(LeavesOf(e, path), Leaves(rest, path), LeavesOf(e, []), Leaves(rest, []), path);
    }
  }

  lemma LeavesSplit(entries: seq<Entry>, path: seq<string>)
    requires entries != []
    ensures Leaves(entries, path) == LeavesOf(entries[0], path) + Leaves(entries[1..], path)
  {
  }

  lemma PutBelowJoins(here: Paths, later: Paths, from: Paths, laterFrom: Paths, path: seq<string>)
    requires PutBelow(here, from, path) && PutBelow(later, laterFrom, path)
    ensures PutBelow(here + later, from + laterFrom, path)
  {
    forall q | q in from + laterFrom
      ensures path + q in here + later && (here + later)[path + q] == (from + laterFrom)[q]
    {
      assert (path + q)[|path|..] == q;
    }
  }

  lemma {:induction false} EntryElsewhere(e: Entry, path: seq<string>)
    ensures PutBelow(LeavesOf(e, path), LeavesOf(e, []), path)
    decreases e, 1
  {
    match e.node
    case Value(leaf) =>
      assert (path + [e.key])[|path|..] == [e.key];
      assert [] + [e.key] == [e.key];
    case Object(inner) =>
      LeavesElsewhere(inner, path + [e.key]);
      LeavesElsewhere(inner, [e.key]);
      EntryStart(e);
      hide Leaves;
      PathsShift(Leaves(inner, path + [e.key]), Leaves(inner, [e.key]), Leaves(inner, []), path, [e.key]);
  }

  /** The leaves there are those of `from`, put below the path. */
  ghost predicate PutBelow(there: Paths, from: Paths, path: seq<string>) {
    && (forall p :: p in there ==> path <= p && p[|path|..] in from)
    && (forall q :: q in from ==> path + q in there && there[path + q] == from[q])
  }

  lemma PathsShift(far: Paths, near: Paths, from: Paths, path: seq<string>, step: seq<string>)
    requires PutBelow(far, from, path + step) && PutBelow(near, from, step)
    ensures PutBelow(far, near, path)
  {
    forall p | p in far ensures path <= p && p[|path|..] in near {
      OneFar(far, near, from, path, step, p);
    }
    forall r | r in near ensures path + r in far && far[path + r] == near[r] {
      OneNear(far, near, from, path, step, r);
    }
  }

  lemma OneFar(far: Paths, near: Paths, from: Paths, path: seq<string>, step: seq<string>, p: seq<string>)
    requires PutBelow(far, from, path + step) && PutBelow(near, from, step) && p in far
    ensures path <= p && p[|path|..] in near
  {
    var q := p[|path + step|..];
    hide *;
    assert q in from && step + q in near && path + step <= p by {
      BelowAt(far, from, path + step, p);
      FromAt(near, from, step, q);
    }
    assert p[|path|..] == step + q;
  }

  lemma OneNear(far: Paths, near: Paths, from: Paths, path: seq<string>, step: seq<string>, r: seq<string>)
    requires PutBelow(far, from, path + step) && PutBelow(near, from, step) && r in near
    ensures path + r in far && far[path + r] == near[r]
  {
    hide *;
    BelowAt(near, from, step, r);
    var q := r[|step|..];
    FromAt(far, from, path + step, q);
    FromAt(near, from, step, q);
    assert r == step + q && path + r == (path + step) + q;
  }

  lemma BelowAt(there: Paths, from: Paths, path: seq<string>, p: seq<string>)
    requires PutBelow(there, from, path) && p in there
    ensures path <= p && p[|path|..] in from
  {
  }

  lemma FromAt(there: Paths, from: Paths, path: seq<string>, q: seq<string>)
    requires PutBelow(there, from, path) && q in from
    ensures path + q in there && there[path + q] == from[q]
  {
  }

  /** The entries of a flat map, in some order. */
  predicate Listing(entries: seq<Entry>, flat: Flat) {
    && DistinctKeys(entries)
    && (forall e :: e in entries ==> e.node.Value? && e.key in flat && flat[e.key] == e.node.leaf)
    && (forall k :: k in flat ==> HasKey(entries, k))
  }

  lemma {:induction false} FlattenListing(entries: seq<Entry>, target: Flat)
    requires DistinctKeys(entries) && forall e :: e in entries ==> e.node.Value?
    ensures var r := Flatten(entries, target, "");
            && (forall e :: e in entries ==> e.key in r && r[e.key] == e.node.leaf)
            && (forall k :: k in r ==> k in target || HasKey(entries, k))
            && (forall k :: k in target && !HasKey(entries, k) ==> k in r && r[k] == target[k])
    decreases entries
  {
    if entries != [] {
      var e, rest := entries[0], entries[1..];
      assert forall i :: 0 <= i < |rest| ==> rest[i] == entries[i + 1];
      assert forall x :: x in entries <==> x == e || x in rest;
      assert !HasKey(rest, e.key);
      FlattenListing(rest, target[e.key := e.node.leaf]);
    }
  }

  lemma {:induction false} GetFinds(entries: seq<Entry>, key: string)
    requires DistinctKeys(entries)
    ensures Get(entries, key).Some? <==> HasKey(entries, key)
    ensures forall e :: e in entries && e.key == key ==> Get(entries, key) == Some(e.node)
  {
    if entries != [] {
      assert forall i :: 0 <= i < |entries[1..]| ==> entries[1..][i] == entries[i + 1];
      assert forall x :: x in entries <==> x == entries[0] || x in entries[1..];
      GetFinds(entries[1..], key);
    }
  }

  lemma DistinctCons(e: Entry, rest: seq<Entry>)
    requires DistinctKeys(rest) && forall x :: x in rest ==> x.key != e.key
    ensures DistinctKeys([e] + rest)
    ensures forall x :: x in [e] + rest <==> x == e || x in rest
  {
  }

  lemma {:induction false} SetMembers(entries: seq<Entry>, key: string, node: Node)
    requires DistinctKeys(entries)
    ensures DistinctKeys(Set(entries, key, node))
    ensures forall e :: e in Set(entries, key, node) <==> e == Entry(key, node) || (e in entries && e.key != key)
  {
    if entries != [] {
      var first, rest := entries[0], entries[1..];
      DistinctTail(entries);
      if first.key == key {
        DistinctCons(Entry(key, node), rest);
      } else {
        SetMembers(rest, key, node);
        DistinctCons(first, Set(rest, key, node));
      }
    }
  }

  lemma {:induction false} DeleteMembers(entries: seq<Entry>, key: string)
    requires DistinctKeys(entries)
    ensures DistinctKeys(Delete(entries, key))
    ensures forall e :: e in Delete(entries, key) <==> e in entries && e.key != key
  {
    if entries != [] {
      var first, rest := entries[0], entries[1..];
      DistinctTail(entries);
      if first.key != key {
        DeleteMembers(rest, key);
        DistinctCons(first, Delete(rest, key));
      }
    }
  }

  /** What converting does to an already flat filter. */
  function Again(flat: Flat): Flat {
    var live := flat["deletedAt" := Null];
    if "id" in live && IsTruthyLeaf(live["id"]) then live["_id" := live["id"]] - {"id"} else live
  }

  lemma ConvertListing(entries: seq<Entry>, flat: Flat)
    requires Listing(entries, flat)
    ensures Convert(entries) == Again(flat)
  {
    hide Flatten, Listing, Set, Get, Delete;
    var live := Set(entries, "deletedAt", Value(Null));
    var mid := flat["deletedAt" := Null];
    ListingSet(entries, flat, "deletedAt", Null);
    ListingGet(live, mid, "id");
    if "id" in mid && IsTruthyLeaf(mid["id"]) {
      var moved := mid["_id" := mid["id"]];
      ListingSet(live, mid, "_id", mid["id"]);
      ListingDelete(Set(live, "_id", Value(mid["id"])), moved, "id");
    }
    ListingFlattens(Rewrite(entries), Again(flat));
  }

  lemma ListingGet(entries: seq<Entry>, flat: Flat, key: string)
    requires Listing(entries, flat)
    ensures Get(entries, key) == if key in flat then Some(Value(flat[key])) else None
  {
    GetFinds(entries, key);
    if key in flat {
      var e :| e in entries && e.key == key;
    }
  }

  lemma ListingDelete(entries: seq<Entry>, flat: Flat, key: string)
    requires Listing(entries, flat)
    ensures Listing(Delete(entries, key), flat - {key})
  {
    DeleteMembers(entries, key);
    forall k | k in flat - {key} ensures HasKey(Delete(entries, key), k) {
      var e :| e in entries && e.key == k;
      assert e in Delete(entries, key);
    }
  }

  lemma ListingSet(entries: seq<Entry>, flat: Flat, key: string, leaf: Leaf)
    requires Listing(entries, flat)
    ensures Listing(Set(entries, key, Value(leaf)), flat[key := leaf])
  {
    SetMembers(entries, key, Value(leaf));
    var after := Set(entries, key, Value(leaf));
    assert Entry(key, Value(leaf)) in after;
    forall k | k in flat[key := leaf] ensures HasKey(after, k) {
      if k != key {
        var e :| e in entries && e.key == k;
        assert e in after;
      }
    }
  }

  lemma ListingFlattens(entries: seq<Entry>, flat: Flat)
    requires Listing(entries, flat)
    ensures Flatten(entries, map[], "") == flat
  {
    FlattenListing(entries, map[]);
    var r := Flatten(entries, map[], "");
    forall k | k in flat ensures k in r && r[k] == flat[k] {
      var e :| e in entries && e.key == k;
    }
  }

  /**
   * The last leaf that lands on a name without a dot: of that name at the top, or inside objects
   * whose own key is empty, since an empty prefix adds nothing.
   */
  function LastAt(entries: seq<Entry>, name: string): Option<Leaf>
    decreases entries
  {
    if entries == [] then None
    else
      var later := LastAt(entries[1..], name);
      if later.Some? then later
      else
        match entries[0].node
        case Value(leaf) => if entries[0].key == name then Some(leaf) else None
        case Object(inner) => if entries[0].key == "" then LastAt(inner, name) else None
  }

  lemma {:induction false} FlattenAt(entries: seq<Entry>, target: Flat, prefix: string, name: string)
    requires PlainKey(name)
    ensures var r := Flatten(entries, target, prefix);
            if prefix == "" && LastAt(entries, name).Some? then name in r && r[name] == LastAt(entries, name).value
            else (name in r <==> name in target) && (name in r ==> r[name] == target[name])
    decreases entries
  {
    if entries != [] {
      var e := entries[0];
      var full := FullKey(prefix, e.key);
      if prefix != "" {
        assert full[|prefix|] == '.';
        assert full != name;
      }
      match e.node
      case Value(leaf) =>
        FlattenAt(entries[1..], target[full := leaf], prefix, name);
      case Object(inner) =>
        FlattenAt(inner, target, full, name);
        FlattenAt(entries[1..], Flatten(inner, target, full), prefix, name);
    }
  }

  /** Nothing under an empty key undoes what the rewriting just did. */
  predicate SurfaceSettled(entries: seq<Entry>) {
    && LastAt(Rewrite(entries), "deletedAt") == Some(Null)
    && !(LastAt(Rewrite(entries), "id").Some? && IsTruthyLeaf(LastAt(Rewrite(entries), "id").value))
  }

  /** The entry is an object under the empty key, so its own keys surface as keys of the filter. */
  predicate Surfaces(e: Entry) { e.key == "" && e.node.Object? }

  /** An id that surfaces after the one at the top was looked at, and is not covered by a later one. */
  predicate BringsId(entries: seq<Entry>, i: nat) {
    && i < |entries| && Surfaces(entries[i])
    && Brings(entries[i], "id")
    && IsTruthyLeaf(LastAt(entries[i].node.entries, "id").value)
    && !FalsyIdAfter(entries, i)
  }

  predicate FalsyIdAfter(entries: seq<Entry>, i: nat) {
    exists j :: i < j < |entries| && entries[j].key == "id" && !IsTruthy(entries[j].node)
  }

  /** A deletion mark that surfaces over the one set at the top. */
  predicate BringsMark(entries: seq<Entry>, i: nat) {
    && i < |entries| && Surfaces(entries[i])
    && Brings(entries[i], "deletedAt")
    && LastAt(entries[i].node.entries, "deletedAt").value != Null
    && exists j :: 0 <= j < i && entries[j].key == "deletedAt"
  }

  predicate Brings(e: Entry, name: string)
    requires e.node.Object?
  {
    LastAt(e.node.entries, name).Some?
  }

  /**
   * Converting the converted filter changes something exactly when the caller's filter has an
   * object under an empty key that brings up a truthy id, no falsy top-level id coming later, or
   * brings up a deletion mark other than null, the top-level mark coming earlier.
   */
  lemma ConvertTwiceIff(entries: seq<Entry>, flatEntries: seq<Entry>)
    requires DistinctKeys(entries)
    requires Listing(flatEntries, Convert(entries))
    ensures Convert(flatEntries) == Convert(entries) <==>
            !exists i: nat :: BringsId(entries, i) || BringsMark(entries, i)
  {
    hide *;
    SettledIffStable(entries, flatEntries);
    MarkSettledIff(entries);
    IdSettledIff(entries);
    SettledMeans(entries);
  }

  lemma SettledMeans(entries: seq<Entry>)
    ensures SurfaceSettled(entries) <==> MarkSettled(entries) && !IdSurfaces(entries)
  {
    hide LastAt, Rewrite;
  }

  predicate MarkSettled(entries: seq<Entry>) { LastAt(Rewrite(entries), "deletedAt") == Some(Null) }

  predicate IdSurfaces(entries: seq<Entry>) { TruthyAt(Rewrite(entries), "id") }

  predicate TruthyAt(entries: seq<Entry>, name: string) {
    LastAt(entries, name).Some? && IsTruthyLeaf(LastAt(entries, name).value)
  }

  lemma SettledIffStable(entries: seq<Entry>, flatEntries: seq<Entry>)
    requires DistinctKeys(entries)
    requires Listing(flatEntries, Convert(entries))
    ensures Convert(flatEntries) == Convert(entries) <==> SurfaceSettled(entries)
  {
    hide Rewrite, Flatten, LastAt;
    var flat := Convert(entries);
    ConvertListing(flatEntries, flat);
    FlattenAt(Rewrite(entries), map[], "", "id");
    FlattenAt(Rewrite(entries), map[], "", "deletedAt");
    RewriteHasMark(entries);
    if "id" in flat && IsTruthyLeaf(flat["id"]) {
      assert "id" !in Again(flat);
    }
  }

  lemma {:induction false} LastAtSome(entries: seq<Entry>, name: string)
    requires exists e :: e in entries && e.key == name && e.node.Value?
    ensures LastAt(entries, name).Some?
  {
    var e :| e in entries && e.key == name && e.node.Value?;
    if e in entries[1..] {
      LastAtSome(entries[1..], name);
    }
  }

  lemma RewriteMembers(entries: seq<Entry>)
    requires DistinctKeys(entries)
    ensures var out := Rewrite(entries);
            && Entry("deletedAt", Value(Null)) in out && DistinctKeys(out)
            && (forall e :: e in out && e.key == "id" ==> e in entries && !IsTruthy(e.node))
            && (forall e: Entry :: e.key == "" ==> (e in out <==> e in entries))
  {
    hide Set, Get, Delete;
    var live := Set(entries, "deletedAt", Value(Null));
    SetMembers(entries, "deletedAt", Value(Null));
    GetFinds(live, "id");
    var id := Get(live, "id");
    if id.Some? {
      SetMembers(live, "_id", id.value);
      DeleteMembers(Set(live, "_id", id.value), "id");
    }
  }

  lemma RewriteHasMark(entries: seq<Entry>)
    requires DistinctKeys(entries)
    ensures LastAt(Rewrite(entries), "deletedAt").Some?
  {
    hide Rewrite;
    RewriteMembers(entries);
    LastAtSome(Rewrite(entries), "deletedAt");
  }

  // ---------- the surface, read off the caller's filter ----------

  /** Writing or deleting another non-empty key does not change what lands on a name. */
  lemma {:induction false} SetElsewhere(entries: seq<Entry>, key: string, node: Node, name: string)
    requires key != "" && key != name
    ensures LastAt(Set(entries, key, node), name) == LastAt(entries, name)
  {
    if entries != [] && entries[0].key != key {
      SetElsewhere(entries[1..], key, node, name);
    }
  }

  lemma {:induction false} DeleteElsewhere(entries: seq<Entry>, key: string, name: string)
    requires key != "" && key != name
    ensures LastAt(Delete(entries, key), name) == LastAt(entries, name)
  {
    if entries != [] && entries[0].key != key {
      DeleteElsewhere(entries[1..], key, name);
    }
  }

  /** Without the name at the top, what lands on it comes from under the empty key. */
  lemma {:induction false} OnlySurfaced(entries: seq<Entry>, name: string, leaf: Leaf)
    requires DistinctKeys(entries) && name != "" && forall e :: e in entries ==> e.key != name
    ensures LastAt(entries, name) == Some(leaf) <==>
            exists e :: e in entries && Surfaces(e) && LastAt(e.node.entries, name) == Some(leaf)
  {
    if entries != [] {
      var rest := entries[1..];
      DistinctTail(entries);
      OnlySurfaced(rest, name, leaf);
      if LastAt(rest, name).Some? {
        OnlySurfaced(rest, name, LastAt(rest, name).value);
      }
    }
  }

  lemma DistinctTail(entries: seq<Entry>)
    requires DistinctKeys(entries) && entries != []
    ensures DistinctKeys(entries[1..])
    ensures forall x :: x in entries <==> x == entries[0] || x in entries[1..]
    ensures forall x :: x in entries[1..] ==> x.key != entries[0].key
  {
    assert forall i :: 0 <= i < |entries[1..]| ==> entries[1..][i] == entries[i + 1];
  }

  lemma MarkSettledIff(entries: seq<Entry>)
    requires DistinctKeys(entries)
    ensures MarkSettled(entries) <==> !exists i: nat :: BringsMark(entries, i)
  {
    hide LastAt, Set, Delete;
    var live := Set(entries, "deletedAt", Value(Null));
    var id := Get(live, "id");
    if id.Some? {
      SetElsewhere(live, "_id", id.value, "deletedAt");
      DeleteElsewhere(Set(live, "_id", id.value), "id", "deletedAt");
    }
    MarkedLast(entries);
  }

  lemma {:induction false} MarkedLast(entries: seq<Entry>)
    requires DistinctKeys(entries)
    ensures LastAt(Set(entries, "deletedAt", Value(Null)), "deletedAt").Some?
    ensures LastAt(Set(entries, "deletedAt", Value(Null)), "deletedAt") == Some(Null) <==>
            !exists i: nat :: BringsMark(entries, i)
  {
    if entries != [] {
      var e, rest := entries[0], entries[1..];
      DistinctTail(entries);
      if e.key == "deletedAt" {
        var landed := LastAt(rest, "deletedAt");
        if landed.Some? {
          OnlySurfaced(rest, "deletedAt", landed.value);
        }
        forall i: nat | i < |rest| && Surfaces(rest[i])
          ensures LastAt(rest[i].node.entries, "deletedAt").Some? ==>
                  LastAt(rest[i].node.entries, "deletedAt") == landed
        {
          if LastAt(rest[i].node.entries, "deletedAt").Some? {
            OnlySurfaced(rest, "deletedAt", LastAt(rest[i].node.entries, "deletedAt").value);
          }
        }
        MarkAtFront(entries);
      } else {
        MarkedLast(rest);
        MarkShifts(entries);
      }
    }
  }

  /** After a mark at the front, any surfacing mark counts. */
  lemma MarkAtFront(entries: seq<Entry>)
    requires entries != [] && entries[0].key == "deletedAt"
    ensures (exists i: nat :: BringsMark(entries, i)) <==>
            exists e :: e in entries[1..] && Surfaces(e) && Brings(e, "deletedAt")
              && LastAt(e.node.entries, "deletedAt").value != Null
  {
    hide LastAt;
    var rest := entries[1..];
    if e :| e in rest && Surfaces(e) && Brings(e, "deletedAt") && LastAt(e.node.entries, "deletedAt").value != Null {
      var k :| 0 <= k < |rest| && rest[k] == e;
      assert entries[k + 1] == e && entries[0].key == "deletedAt";
      assert BringsMark(entries, k + 1);
    }
    if i: nat :| BringsMark(entries, i) {
      assert entries[i] == rest[i - 1];
    }
  }

  lemma MarkShifts(entries: seq<Entry>)
    requires entries != [] && entries[0].key != "deletedAt"
    ensures (exists i: nat :: BringsMark(entries, i)) <==> exists i: nat :: BringsMark(entries[1..], i)
  {
    hide LastAt;
    var rest := entries[1..];
    assert forall k :: 0 <= k < |rest| ==> rest[k] == entries[k + 1];
    if i: nat :| BringsMark(rest, i) {
      var j :| 0 <= j < i && rest[j].key == "deletedAt";
      assert entries[j + 1].key == "deletedAt";
      assert BringsMark(entries, i + 1);
    }
    if i: nat :| BringsMark(entries, i) {
      var j :| 0 <= j < i && entries[j].key == "deletedAt";
      assert rest[j - 1].key == "deletedAt";
      assert BringsMark(rest, i - 1);
    }
  }

  lemma IdSettledIff(entries: seq<Entry>)
    requires DistinctKeys(entries)
    ensures IdSurfaces(entries) <==> exists i: nat :: BringsId(entries, i)
  {
    hide LastAt, Set, Delete, Get;
    var live := Set(entries, "deletedAt", Value(Null));
    var id := Get(live, "id");
    SetMembers(entries, "deletedAt", Value(Null));
    GetFinds(live, "id");
    GetFinds(entries, "id");
    SetElsewhere(entries, "deletedAt", Value(Null), "id");
    if id.Some? && IsTruthy(id.value) {
      var top :| top in entries && top.key == "id";
      assert forall e :: e in entries && e.key == "id" ==> IsTruthy(e.node);
      IdMovedAway(entries);
    } else {
      assert forall e :: e in entries && e.key == "id" ==> !IsTruthy(e.node);
      FalsyIdStays(entries);
    }
  }

  /** A truthy id has left the top, so any surfacing id shows. */
  lemma IdMovedAway(entries: seq<Entry>)
    requires DistinctKeys(entries) && HasKey(entries, "id")
    requires forall e :: e in entries && e.key == "id" ==> IsTruthy(e.node)
    ensures IdSurfaces(entries) <==> exists i: nat :: BringsId(entries, i)
  {
    hide LastAt, Rewrite;
    var out := Rewrite(entries);
    RewriteMembers(entries);
    var landed := LastAt(out, "id");
    if landed.Some? {
      OnlySurfaced(out, "id", landed.value);
    }
    if TruthyAt(out, "id") {
      var e :| e in out && Surfaces(e) && LastAt(e.node.entries, "id") == landed;
      var i :| 0 <= i < |entries| && entries[i] == e;
      assert BringsId(entries, i);
    }
    if i: nat :| BringsId(entries, i) {
      assert entries[i] in out;
      OnlySurfaced(out, "id", LastAt(entries[i].node.entries, "id").value);
    }
  }

  /** A falsy id stays in its place, and covers what surfaces before it. */
  lemma {:induction false} FalsyIdStays(entries: seq<Entry>)
    requires DistinctKeys(entries) && forall e :: e in entries && e.key == "id" ==> !IsTruthy(e.node)
    ensures TruthyAt(entries, "id") <==> exists i: nat :: BringsId(entries, i)
  {
    if entries != [] {
      var e, rest := entries[0], entries[1..];
      DistinctTail(entries);
      FalsyIdStays(rest);
      IdShifts(entries);
      if Surfaces(e) {
        NothingSurfaces(rest, "id");
        IdAtFront(entries);
      }
    }
  }

  /** Without an object under an empty key only the top lands on a name. */
  lemma {:induction false} NothingSurfaces(entries: seq<Entry>, name: string)
    requires forall e :: e in entries ==> !Surfaces(e)
    ensures LastAt(entries, name).Some? <==> exists e :: e in entries && e.key == name && e.node.Value?
    ensures LastAt(entries, name).Some? ==>
            exists e :: e in entries && e.key == name && e.node == Value(LastAt(entries, name).value)
  {
    if entries != [] {
      var e, rest := entries[0], entries[1..];
      assert forall x :: x in entries <==> x == e || x in rest;
      NothingSurfaces(rest, name);
      assert e in entries && !Surfaces(e);
    }
  }

  lemma IdShifts(entries: seq<Entry>)
    requires entries != []
    ensures (exists i: nat :: BringsId(entries, i)) <==>
            BringsId(entries, 0) || exists i: nat :: BringsId(entries[1..], i)
  {
    hide LastAt;
    var rest := entries[1..];
    assert forall k :: 0 <= k < |rest| ==> rest[k] == entries[k + 1];
    if i: nat :| BringsId(rest, i) {
      FalsyIdShifts(entries, i);
      assert BringsId(entries, i + 1);
    }
    if i: nat :| i > 0 && BringsId(entries, i) {
      FalsyIdShifts(entries, i - 1);
      assert BringsId(rest, i - 1);
    }
  }

  lemma FalsyIdShifts(entries: seq<Entry>, i: nat)
    requires entries != []
    ensures FalsyIdAfter(entries, i + 1) <==> FalsyIdAfter(entries[1..], i)
  {
    var rest := entries[1..];
    if j :| i < j < |rest| && rest[j].key == "id" && !IsTruthy(rest[j].node) {
      assert entries[j + 1] == rest[j];
    }
    if j :| i + 1 < j < |entries| && entries[j].key == "id" && !IsTruthy(entries[j].node) {
      assert rest[j - 1] == entries[j];
    }
  }

  lemma IdAtFront(entries: seq<Entry>)
    requires entries != [] && Surfaces(entries[0])
    requires forall e :: e in entries && e.key == "id" ==> !IsTruthy(e.node)
    ensures BringsId(entries, 0) <==>
            TruthyAt(entries[0].node.entries, "id") && !exists e :: e in entries[1..] && e.key == "id"
  {
    hide LastAt;
    var rest := entries[1..];
    assert forall k :: 0 <= k < |rest| ==> rest[k] == entries[k + 1];
    if e :| e in rest && e.key == "id" {
      var k :| 0 <= k < |rest| && rest[k] == e;
      assert entries[k + 1] in entries;
    }
    if j :| 0 < j < |entries| && entries[j].key == "id" {
      assert rest[j - 1] in rest;
    }
  }

  /** A filter that keeps no object under an empty key converts to the same once and twice. */
  lemma NoEmptyKeySettles(entries: seq<Entry>, flatEntries: seq<Entry>)
    requires DistinctKeys(entries) && Listing(flatEntries, Convert(entries))
    requires forall e :: e in entries ==> !Surfaces(e)
    ensures Convert(flatEntries) == Convert(entries)
  {
    hide Convert, Listing, DistinctKeys;
    ConvertTwiceIff(entries, flatEntries);
  }

  /** An id under an empty key: `{ "": { id: "5" } }`. */
  const ID_UNDER_EMPTY_KEY: seq<Entry> := [Entry("", Object([Entry("id", Value(Primitive("5", true)))]))]

  /** Its id surfaces on the first conversion and is moved by the second. */
  lemma EmptyKeyConvertsTwice(flatEntries: seq<Entry>)
    requires Listing(flatEntries, Convert(ID_UNDER_EMPTY_KEY))
    ensures Convert(ID_UNDER_EMPTY_KEY) == map["id" := Primitive("5", true), "deletedAt" := Null]
    ensures Convert(flatEntries) == map["_id" := Primitive("5", true), "deletedAt" := Null]
  {
    hide *;
    EmptyKeyConversions();
    ConvertListing(flatEntries, Convert(ID_UNDER_EMPTY_KEY));
  }

  lemma EmptyKeyConversions()
    ensures Convert(ID_UNDER_EMPTY_KEY) == map["id" := Primitive("5", true), "deletedAt" := Null]
    ensures Again(Convert(ID_UNDER_EMPTY_KEY)) == map["_id" := Primitive("5", true), "deletedAt" := Null]
  {
    var five := Primitive("5", true);
    var entries := ID_UNDER_EMPTY_KEY;
    var mark := Entry("deletedAt", Value(Null));
    var live := [entries[0], mark];
    assert entries[1..] == [] && live[1..] == [mark] && [mark][1..] == [];
    assert Set(entries, "deletedAt", Value(Null)) == [entries[0]] + Set([], "deletedAt", Value(Null)) == live;
    assert Get(live, "id") == Get([mark], "id") == Get([], "id") == None;
    assert Rewrite(entries) == live;
    var inner := entries[0].node.entries;
    assert inner[1..] == [];
    assert Flatten(inner, map[], "") == Flatten([], map["id" := five], "") == map["id" := five];
    assert Flatten(live, map[], "") == Flatten([mark], map["id" := five], "");
    assert Flatten([mark], map["id" := five], "") == Flatten([], map["id" := five]["deletedAt" := Null], "");
  }
}
