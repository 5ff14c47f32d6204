/** Page numbers and limits as normalised, and what taking pages by skip and limit covers. */
module Paging {
  import opened Wrappers

  // ---------- normalisation ----------

  /** What `Number(x)` gives: the text `Infinity` is a number too. */
  datatype Numeric = Finite(value: real) | PlusInfinity | MinusInfinity | NaN

  datatype PageError = InvalidInteger

  datatype Page = Page(page: int, limit: int)

  predicate IsPositive(x: Numeric) { x.PlusInfinity? || (x.Finite? && x.value > 0.0) }

  function MaxLimit(limit: Numeric): Numeric {
    if limit.PlusInfinity? || (limit.Finite? && limit.value > 100.0) then Finite(100.0) else limit
  }

  /** `Number.isInteger` */
  predicate IsInteger(x: Numeric) { x.Finite? && x.value.Floor as real == x.value }

  /** The schema's transform and its two integer checks; an infinite page is refused, an infinite limit cut down. */
  method Normalise(rawPage: Numeric, rawLimit: Numeric) returns (r: Result<Page, PageError>)
    ensures r.Ok? ==> r.value.page >= 1 && 1 <= r.value.limit <= 100
    ensures r.Ok? <==>
            && (IsPositive(rawPage) ==> IsInteger(rawPage))
            && (rawLimit.Finite? && 0.0 < rawLimit.value <= 100.0 ==> IsInteger(rawLimit))
    ensures r.Ok? ==> (if IsPositive(rawPage) then rawPage == Finite(r.value.page as real) else r.value.page == 1)
    ensures r.Ok? ==>
              match rawLimit
              case NaN | MinusInfinity => r.value.limit == 10
              case PlusInfinity => r.value.limit == 100
              case Finite(x) => r.value.limit as real == (if x <= 0.0 then 10.0 else if x > 100.0 then 100.0 else x)
  {
    var limit := if rawLimit.NaN? then Finite(10.0) else rawLimit;
    var page := if rawPage.NaN? then Finite(1.0) else rawPage;
    page := if IsPositive(page) then page else Finite(1.0);
    limit := if IsPositive(limit) then MaxLimit(limit) else Finite(10.0);
    if !IsInteger(page) || !IsInteger(limit) {
      return Err(InvalidInteger);
    }
    return Ok(Page(page.value.Floor, limit.value.Floor));
  }

  // ---------- pages of a list ----------

  function CalculateSkip(page: int, limit: int): int { (page - 1) * limit }

  /** `Math.ceil(total / limit)` */
  function CalculateTotalPages(total: nat, limit: nat): nat
    requires limit >= 1
  {
    if total % limit == 0 then total / limit else total / limit + 1
  }

  /** `slice(from, to)`: both ends cut off at the end of the list. */
  function Slice<T>(list: seq<T>, from: nat, to: nat): seq<T>
    requires from <= to
  {
    list[(if from < |list| then from else |list|)..(if to < |list| then to else |list|)]
  }

  /** The rows a query with skip and take returns. */
  function TakePage<T>(list: seq<T>, page: nat, limit: nat): seq<T>
    requires page >= 1
  {
    var skip := CalculateSkip(page, limit);
    Slice(list, skip, skip + limit)
  }

  /** Pages first, first + 1, up to last. */
  function Pages<T>(list: seq<T>, first: nat, last: nat, limit: nat): seq<seq<T>>
    requires first >= 1
    decreases last - first
  {
    if first > last then [] else [TakePage(list, first, limit)] + Pages(list, first + 1, last, limit)
  }

  function Concat<T>(parts: seq<seq<T>>): seq<T> {
    if parts == [] then [] else parts[0] + Concat(parts[1..])
  }

  /** `chunk`: one slice for every index the size divides. */
  method Chunk<T>(list: seq<T>, size: int) returns (r: Result<seq<seq<T>>, ()>)
    ensures r.Ok? <==> size > 0
    ensures r.Ok? ==> |r.value| == CalculateTotalPages(|list|, size)
    ensures r.Ok? ==> forall p :: 1 <= p <= |r.value| ==> r.value[p - 1] == TakePage(list, p, size)
  {
    if size <= 0 {
      return Err(());
    }
    var chunks: seq<seq<T>> := [];
    for i := 0 to |list|
      invariant |chunks| == CalculateTotalPages(i, size)
      invariant forall p :: 1 <= p <= |chunks| ==> chunks[p - 1] == TakePage(list, p, size)
    {
      PagesGrow(i, size);
      if i % size == 0 {
        assert CalculateSkip(|chunks| + 1, size) == i;
        chunks := chunks + [Slice(list, i, i + size)];
      }
    }
    return Ok(chunks);
  }

  lemma MulMonotone(x: int, y: int, d: nat)
    requires x <= y
    ensures x * d <= y * d
  {
  }

  lemma MulNext(q: int, d: nat)
    ensures (q + 1) * d == q * d + d
  {
  }

  lemma DivUnique(n: nat, d: nat, q: nat, r: nat)
    requires d >= 1 && n == q * d + r && r < d
    ensures n / d == q && n % d == r
  {
    var q', r' := n / d, n % d;
    assert n == q' * d + r';
    MulNext(q, d);
    MulNext(q', d);
    if q < q' {
      MulMonotone(q + 1, q', d);
    } else if q' < q {
      MulMonotone(q' + 1, q, d);
    }
  }

  lemma PagesGrow(i: nat, size: nat)
    requires size >= 1
    ensures CalculateTotalPages(i + 1, size) == CalculateTotalPages(i, size) + if i % size == 0 then 1 else 0
    ensures i % size == 0 ==> CalculateTotalPages(i, size) * size == i
  {
    var q, r := i / size, i % size;
    assert i == q * size + r;
    MulNext(q, size);
    if r + 1 < size {
      DivUnique(i + 1, size, q, r + 1);
    } else {
      DivUnique(i + 1, size, q + 1, 0);
    }
  }

  /** The pages reach the end of the list, and none of them starts past it. */
  lemma TotalCovers(total: nat, limit: nat, page: nat)
    requires limit >= 1
    ensures CalculateTotalPages(total, limit) * limit >= total
    ensures 1 <= page <= CalculateTotalPages(total, limit) ==> CalculateSkip(page, limit) < total
  {
    var n: int := CalculateTotalPages(total, limit);
    assert total == total / limit * limit + total % limit;
    MulNext(total / limit, limit);
    MulNext(n - 1, limit);
    if 1 <= page <= n {
      MulMonotone(page - 1, n - 1, limit);
    }
  }

  lemma SlicesMeet<T>(list: seq<T>, skip: nat, limit: nat)
    ensures Slice(list, skip, skip + limit) + Slice(list, skip + limit, skip + limit + |list|) ==
            Slice(list, skip, skip + |list|)
  {
  }

  /** The pages from one on are the list from that page's skip on. */
  lemma {:induction false} PagesFrom<T>(list: seq<T>, first: nat, limit: nat)
    requires limit >= 1 && 1 <= first <= CalculateTotalPages(|list|, limit) + 1
    ensures CalculateSkip(first, limit) >= 0
    ensures Concat(Pages(list, first, CalculateTotalPages(|list|, limit), limit))
            == Slice(list, CalculateSkip(first, limit), CalculateSkip(first, limit) + |list|)
    decreases CalculateTotalPages(|list|, limit) + 1 - first
  {
    hide CalculateTotalPages, Slice;
    var last := CalculateTotalPages(|list|, limit);
    var skip := CalculateSkip(first, limit);
    MulMonotone(0, first - 1, limit);
    TotalCovers(|list|, limit, first);
    if first <= last {
      PagesFrom(list, first + 1, limit);
      MulNext(first - 1, limit);
      SlicesMeet(list, skip, limit);
    } else {
      EmptySlice(list, skip);
    }
  }

  lemma EmptySlice<T>(list: seq<T>, skip: nat)
    requires skip >= |list|
    ensures Slice(list, skip, skip + |list|) == []
  {
  }

  /** Pages 1 to the total number of pages, taken by skip and limit, are the whole list. */
  lemma PagesCoverExactly<T>(list: seq<T>, limit: nat)
    requires limit >= 1
    ensures Concat(Pages(list, 1, CalculateTotalPages(|list|, limit), limit)) == list
  {
    PagesFrom(list, 1, limit);
    assert CalculateSkip(1, limit) == 0;
  }

  /** Position i of the list is on page i / limit + 1, and on no other. */
  lemma PositionOnOnePage(i: nat, page: nat, limit: nat, total: nat)
    requires limit >= 1 && page >= 1 && i < total
    ensures CalculateSkip(page, limit) <= i < CalculateSkip(page, limit) + limit <==> page == i / limit + 1
    ensures i / limit + 1 <= CalculateTotalPages(total, limit)
  {
    var skip := CalculateSkip(page, limit);
    if skip <= i < skip + limit {
      DivUnique(i, limit, page - 1, i - skip);
    }
    assert i == i / limit * limit + i % limit;
    TotalCovers(total, limit, 0);
    var n := CalculateTotalPages(total, limit);
    if n <= i / limit {
      MulMonotone(n, i / limit, limit);
    }
  }
}
