/** Sorting by a key with the missing keys last in either direction. */
module NullLastSort {
  import opened JsString

  /** A key is missing, a number, or a string. */
  datatype Key = Null | Num(n: real) | Str(s: string)

  datatype Direction = Asc | Desc

  /** A list item: its sort key and the rest of it. */
  datatype Item = Item(key: Key, payload: int)

  /** The program's lists: all present keys are numbers, or all are strings. */
  predicate OneKind(items: seq<Item>) {
    || (forall x :: x in items ==> !x.key.Str?)
    || (forall x :: x in items ==> !x.key.Num?)
  }

  predicate SameKind(a: Key, b: Key) { a.Null? || b.Null? || (a.Num? <==> b.Num?) }

  predicate KeyLess(a: Key, b: Key) {
    match (a, b)
    case (Num(m), Num(n)) => m < n
    case (Str(s), Str(t)) => Less(s, t)
    case _ => false
  }

  /** The comparator passed to `sort`. */
  function Compare(a: Item, b: Item, dir: Direction): int {
    if a.key == b.key then 0
    else if a.key.Null? then 1
    else if b.key.Null? then -1
    else if dir == Asc then (if KeyLess(a.key, b.key) then -1 else 1)
    else if KeyLess(a.key, b.key) then 1 else -1
  }

  predicate Leq(a: Item, b: Item, dir: Direction) { Compare(a, b, dir) <= 0 }

  /** On keys of one kind the comparator is a total preorder whose ties are exactly equal keys. */
  lemma CompareIsPreorder(a: Item, b: Item, c: Item, dir: Direction)
    requires SameKind(a.key, b.key) && SameKind(b.key, c.key) && SameKind(a.key, c.key)
    ensures Compare(a, b, dir) == -Compare(b, a, dir)
    ensures Leq(a, b, dir) && Leq(b, c, dir) ==> Leq(a, c, dir)
    ensures Compare(a, b, dir) == 0 <==> a.key == b.key
  {
    if a.key.Str? && b.key.Str? {
      LessTotal(a.key.s, b.key.s);
    }
    if b.key.Str? && c.key.Str? {
      LessTotal(b.key.s, c.key.s);
    }
    if a.key.Str? && c.key.Str? {
      LessTotal(a.key.s, c.key.s);
    }
    if a.key.Str? && b.key.Str? && c.key.Str? {
      var x, y, z := a.key.s, b.key.s, c.key.s;
      if Less(x, y) && Less(y, z) {
        LessTransitive(x, y, z);
      }
      if Less(z, y) && Less(y, x) {
        LessTransitive(z, y, x);
      }
    }
  }

  // ---------- what a stable sort is ----------

  predicate Sorted(items: seq<Item>, dir: Direction) {
    forall i, j :: 0 <= i < j < |items| ==> Leq(items[i], items[j], dir)
  }

  /** The items that tie with a key, in order. */
  function Ties(items: seq<Item>, key: Key): seq<Item> {
    if items == [] then []
    else (if items[0].key == key then [items[0]] else []) + Ties(items[1..], key)
  }

  /**
   * Section 23.1.3.30 of ECMA-262: sorted by the comparator, and items that tie keep the order
   * they had. Equal ties for every key also make the result a permutation.
   */
  ghost predicate StableSortOf(result: seq<Item>, items: seq<Item>, dir: Direction) {
    Sorted(result, dir) && forall key :: Ties(result, key) == Ties(items, key)
  }

  // ---------- one exists ----------

  function Insert(x: Item, sorted: seq<Item>, dir: Direction): seq<Item> {
    if sorted == [] || Leq(x, sorted[0], dir) then [x] + sorted
    else [sorted[0]] + Insert(x, sorted[1..], dir)
  }

  /** The result of `sort` on a copy: each item goes in front of the later ones it ties with. */
  function SortNullLast(items: seq<Item>, dir: Direction): seq<Item> {
    if items == [] then [] else Insert(items[0], SortNullLast(items[1..], dir), dir)
  }

  lemma {:induction false} InsertMembers(x: Item, sorted: seq<Item>, dir: Direction)
    ensures forall y :: y in Insert(x, sorted, dir) <==> y == x || y in sorted
  {
    if sorted != [] && !Leq(x, sorted[0], dir) {
      InsertMembers(x, sorted[1..], dir);
      assert sorted == [sorted[0]] + sorted[1..];
    }
  }

  predicate KindWith(items: seq<Item>) {
    forall x, y :: x in items && y in items ==> SameKind(x.key, y.key)
  }

  lemma {:induction false} InsertKeepsTies(x: Item, sorted: seq<Item>, dir: Direction)
    ensures forall key :: Ties(Insert(x, sorted, dir), key) == (if x.key == key then [x] else []) + Ties(sorted, key)
  {
    if sorted == [] || Leq(x, sorted[0], dir) {
      assert ([x] + sorted)[1..] == sorted;
    } else {
      var head, r := sorted[0], Insert(x, sorted[1..], dir);
      InsertKeepsTies(x, sorted[1..], dir);
      assert ([head] + r)[1..] == r;
    }
  }

  lemma {:induction false} InsertIsSorted(x: Item, sorted: seq<Item>, dir: Direction)
    requires Sorted(sorted, dir) && KindWith([x] + sorted)
    ensures Sorted(Insert(x, sorted, dir), dir)
  {
    if sorted == [] || Leq(x, sorted[0], dir) {
      forall j | 0 <= j < |sorted| ensures Leq(x, sorted[j], dir) {
        InOne(x, sorted, sorted[0]);
        InOne(x, sorted, sorted[j]);
        CompareIsPreorder(x, sorted[0], sorted[j], dir);
        assert j > 0 ==> Leq(sorted[0], sorted[j], dir);
      }
      SortedCons(x, sorted, dir);
    } else {
      var head, rest := sorted[0], sorted[1..];
      assert forall y :: y in [x] + rest ==> y in [x] + sorted;
      InsertIsSorted(x, rest, dir);
      var r := Insert(x, rest, dir);
      InsertMembers(x, rest, dir);
      InOne(x, sorted, head);
      CompareIsPreorder(x, head, x, dir);
      forall j | 0 <= j < |r| ensures Leq(head, r[j], dir) {
        assert r[j] in r;
        if r[j] in rest {
          var k :| 0 <= k < |rest| && rest[k] == r[j];
          assert sorted[k + 1] == r[j];
        }
      }
      SortedCons(head, r, dir);
    }
  }

  lemma SortedCons(x: Item, sorted: seq<Item>, dir: Direction)
    requires Sorted(sorted, dir) && forall j :: 0 <= j < |sorted| ==> Leq(x, sorted[j], dir)
    ensures Sorted([x] + sorted, dir)
  {
  }

  lemma InOne(x: Item, sorted: seq<Item>, y: Item)
    requires y in sorted && KindWith([x] + sorted)
    ensures SameKind(x.key, y.key)
    ensures forall z :: z in sorted ==> SameKind(z.key, y.key)
  {
    assert x in [x] + sorted && y in [x] + sorted;
    assert forall z :: z in sorted ==> z in [x] + sorted;
  }

  lemma {:induction false} SortMembers(items: seq<Item>, dir: Direction)
    ensures forall y :: y in SortNullLast(items, dir) <==> y in items
  {
    if items != [] {
      SortMembers(items[1..], dir);
      InsertMembers(items[0], SortNullLast(items[1..], dir), dir);
      assert items == [items[0]] + items[1..];
    }
  }

  /** The sort is a stable sort of its input. */
  lemma {:induction false} SortIsStable(items: seq<Item>, dir: Direction)
    requires OneKind(items)
    ensures StableSortOf(SortNullLast(items, dir), items, dir)
  {
    if items != [] {
      var x, rest := items[0], items[1..];
      assert forall y :: y in rest ==> y in items;
      SortIsStable(rest, dir);
      SortMembers(rest, dir);
      assert forall y :: y in [x] + SortNullLast(rest, dir) ==> y in items;
      InsertIsSorted(x, SortNullLast(rest, dir), dir);
      InsertKeepsTies(x, SortNullLast(rest, dir), dir);
    }
  }

  // ---------- and only one ----------

  lemma {:induction false} TiesFind(items: seq<Item>, x: Item)
    ensures x in items <==> x in Ties(items, x.key)
  {
    if items != [] {
      TiesFind(items[1..], x);
      assert items == [items[0]] + items[1..];
    }
  }

  /** Two sorted lists with the same ties are the same list. */
  lemma {:induction false} StableSortUnique(r: seq<Item>, q: seq<Item>, dir: Direction)
    requires Sorted(r, dir) && Sorted(q, dir) && KindWith(r + q)
    requires forall key :: Ties(r, key) == Ties(q, key)
    ensures r == q
  {
    if r == [] || q == [] {
      if r != [] {
        assert r[0] in r;
        TiesFind(r, r[0]);
        TiesFind(q, r[0]);
      }
      if q != [] {
        assert q[0] in q;
        TiesFind(q, q[0]);
        TiesFind(r, q[0]);
      }
    } else {
      HeadsTie(r, q, dir);
      assert Ties(r, r[0].key)[0] == r[0] && Ties(q, q[0].key)[0] == q[0];
      forall key ensures Ties(r[1..], key) == Ties(q[1..], key) {
        var head := if r[0].key == key then [r[0]] else [];
        assert Ties(r, key) == head + Ties(r[1..], key);
        assert Ties(q, key) == head + Ties(q[1..], key);
        assert Ties(r[1..], key) == Ties(r, key)[|head|..];
        assert Ties(q[1..], key) == Ties(q, key)[|head|..];
      }
      assert forall y :: y in r[1..] + q[1..] ==> y in r + q;
      StableSortUnique(r[1..], q[1..], dir);
      assert r == [r[0]] + r[1..] && q == [q[0]] + q[1..];
    }
  }

  lemma HeadsTie(r: seq<Item>, q: seq<Item>, dir: Direction)
    requires r != [] && q != []
    requires Sorted(r, dir) && Sorted(q, dir) && KindWith(r + q)
    requires forall key :: Ties(r, key) == Ties(q, key)
    ensures r[0].key == q[0].key
  {
    assert r[0] in r && q[0] in q;
    TiesFind(r, r[0]);
    TiesFind(q, r[0]);
    TiesFind(r, q[0]);
    TiesFind(q, q[0]);
    var i :| 0 <= i < |q| && q[i] == r[0];
    var j :| 0 <= j < |r| && r[j] == q[0];
    assert r[0] in r + q && q[0] in r + q;
    CompareIsPreorder(r[0], q[0], r[0], dir);
    assert i > 0 ==> Leq(q[0], q[i], dir);
    assert j > 0 ==> Leq(r[0], r[j], dir);
  }

  lemma {:induction false} TiesKeepKind(r: seq<Item>, items: seq<Item>)
    requires forall key :: Ties(r, key) == Ties(items, key)
    ensures forall x :: x in r <==> x in items
  {
    forall x ensures x in r <==> x in items {
      TiesFind(r, x);
      TiesFind(items, x);
    }
  }

  /** The sort is the one stable sort there is: whatever the engine does, the list is this list. */
  lemma SortIsTheStableSort(result: seq<Item>, items: seq<Item>, dir: Direction)
    requires OneKind(items)
    ensures StableSortOf(result, items, dir) <==> result == SortNullLast(items, dir)
  {
    SortIsStable(items, dir);
    if StableSortOf(result, items, dir) {
      TiesKeepKind(result, items);
      SortMembers(items, dir);
      assert forall x :: x in result + SortNullLast(items, dir) ==> x in items;
      StableSortUnique(result, SortNullLast(items, dir), dir);
    }
  }

  /** Ascending means rising keys, descending falling ones: numbers by size, strings by `<`. */
  lemma DirectionIsMeant(items: seq<Item>, dir: Direction, i: nat, j: nat)
    requires OneKind(items) && i < j < |SortNullLast(items, dir)|
    ensures match (SortNullLast(items, dir)[i].key, SortNullLast(items, dir)[j].key)
            case (Num(m), Num(n)) => if dir == Asc then m <= n else m >= n
            case (Str(s), Str(t)) => if dir == Asc then !Less(t, s) else !Less(s, t)
            case _ => true
  {
    SortIsStable(items, dir);
    var a, b := SortNullLast(items, dir)[i], SortNullLast(items, dir)[j];
    assert Leq(a, b, dir);
    if a.key.Str? && b.key.Str? {
      LessTotal(a.key.s, b.key.s);
    }
  }

  // ---------- the missing keys ----------

  function Present(items: seq<Item>): seq<Item> {
    if items == [] then [] else (if !items[0].key.Null? then [items[0]] else []) + Present(items[1..])
  }

  /**
   * In either direction the items without a key come last, in their original order, after the
   * sorted items with one.
   */
  lemma {:induction false} MissingKeysLast(items: seq<Item>, dir: Direction)
    ensures SortNullLast(items, dir) == SortNullLast(Present(items), dir) + Ties(items, Null)
  {
    if items != [] {
      var x, rest := items[0], items[1..];
      MissingKeysLast(rest, dir);
      var front, back := SortNullLast(Present(rest), dir), Ties(rest, Null);
      AllMissing(rest);
      PresentOnly(rest);
      SortMembers(Present(rest), dir);
      if x.key.Null? {
        InsertMissing(x, front, back, dir);
        assert Present(items) == Present(rest) && Ties(items, Null) == [x] + back;
      } else {
        InsertPresent(x, front, back, dir);
        assert ([x] + Present(rest))[1..] == Present(rest);
      }
    }
  }

  lemma {:induction false} AllMissing(items: seq<Item>)
    ensures forall x :: x in Ties(items, Null) ==> x.key.Null?
  {
    if items != [] {
      AllMissing(items[1..]);
    }
  }

  lemma {:induction false} PresentOnly(items: seq<Item>)
    ensures forall x :: x in Present(items) ==> !x.key.Null?
  {
    if items != [] {
      PresentOnly(items[1..]);
    }
  }

  lemma {:induction false} InsertMissing(x: Item, front: seq<Item>, back: seq<Item>, dir: Direction)
    requires x.key.Null? && (forall y :: y in front ==> !y.key.Null?) && forall y :: y in back ==> y.key.Null?
    ensures Insert(x, front + back, dir) == front + ([x] + back)
  {
    if front == [] {
      assert front + back == back;
    } else {
      assert front[0] in front;
      InsertMissing(x, front[1..], back, dir);
      assert (front + back)[0] == front[0] && (front + back)[1..] == front[1..] + back;
      var tail := [x] + back;
      assert Insert(x, front + back, dir) == [front[0]] + (front[1..] + tail);
      assert [front[0]] + (front[1..] + tail) == front + tail;
    }
  }

  lemma {:induction false} InsertPresent(x: Item, front: seq<Item>, back: seq<Item>, dir: Direction)
    requires !x.key.Null? && forall y :: y in back ==> y.key.Null?
    ensures Insert(x, front + back, dir) == Insert(x, front, dir) + back
  {
    if front == [] {
      assert front + back == back;
    } else if !Leq(x, front[0], dir) {
      InsertPresent(x, front[1..], back, dir);
      assert (front + back)[1..] == front[1..] + back;
    }
  }
}
