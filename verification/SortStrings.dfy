/** The `sort` query string, and the allow-list that renames its fields to columns. */
module SortStrings {
  import opened Wrappers
  import opened JsString
  import opened SearchStrings

  /**
   * What looking a word up in the numeric order enum gives: a direction, for `1` and `-1` the
   * name the enum maps back to, or nothing.
   */
  datatype Order = Asc | Desc | NameOf(name: string) | Undefined

  type Sort = map<string, Order>

  function OrderWord(text: string): string {
    var w := ToLower(Trim(text));
    if w == "" then "asc" else w
  }

  function LookUp(word: string): Order {
    if word == "asc" then Asc
    else if word == "desc" then Desc
    else if word == "1" then NameOf("asc")
    else if word == "-1" then NameOf("desc")
    else Undefined
  }

  predicate OrdersOk(s: string) {
    s == "" || forall part :: part in Split(s, ',') ==> OrderWord(Last(Split(part, ':'))) in ["asc", "desc"]
  }

  /** The check looks at the last piece of a segment, the transform at the second. */
  function SortSegment(part: string): Option<(string, Order)> {
    if |Split(part, ':')| < 2 then None else Some((Field(part), LookUp(OrderWord(Second(part)))))
  }

  function Field(part: string): string { Trim(Split(part, ':')[0]) }

  function Second(part: string): string {
    var pieces := Split(part, ':');
    if |pieces| < 2 then "" else pieces[1]
  }

  function SortSegments(parts: seq<string>, acc: Sort): Result<Sort, ParseError>
    decreases parts
  {
    if parts == [] then Ok(acc)
    else
      match SortSegment(parts[0])
      case None => Err(MissingColon)
      case Some((field, order)) => SortSegments(parts[1..], acc[field := order])
  }

  const DEFAULT_SORT: string := "createdAt:desc"

  function ParseSort(s: string): Result<Sort, ParseError> {
    if !FormatOk(s) then Err(BadFormat)
    else if !OrdersOk(s) then Err(BadOrder)
    else SortSegments(Split(if s == "" then DEFAULT_SORT else s, ','), map[])
  }

  // ---------- accepted strings that the transform cannot handle ----------

  /** No later segment is for the same field. */
  predicate IsLastSegment(parts: seq<string>, i: nat) {
    i < |parts| && forall j :: i < j < |parts| ==> Field(parts[j]) != Field(parts[i])
  }

  predicate HasField(parts: seq<string>, field: string) {
    exists i :: 0 <= i < |parts| && Field(parts[i]) == field
  }

  /** What the segments bind: every field of a segment to the order of its last one. */
  lemma {:induction false} SegmentsBind(parts: seq<string>, acc: Sort)
    ensures var r := SortSegments(parts, acc);
            && (r.Err? <==> exists part :: part in parts && Free(part, ':'))
            && (r.Err? ==> r.error == MissingColon)
            && (r.Ok? ==> forall i: nat :: IsLastSegment(parts, i) ==>
                  Field(parts[i]) in r.value && r.value[Field(parts[i])] == LookUp(OrderWord(Second(parts[i]))))
            && (r.Ok? ==> forall f :: !HasField(parts, f) ==>
                  (f in r.value <==> f in acc) && (f in acc ==> r.value[f] == acc[f]))
    decreases parts
  {
    hide OrderWord, LookUp, Field, Second;
    if parts != [] {
      var rest := parts[1..];
      assert forall part :: part in parts <==> part == parts[0] || part in rest;
      assert forall i :: 0 <= i < |rest| ==> rest[i] == parts[i + 1];
      ColonSplits(parts[0]);
      assert Free(parts[0], ':') <==> SortSegment(parts[0]).None?;
      var seg := SortSegment(parts[0]);
      if seg.Some? {
        SegmentsBind(rest, acc[seg.value.0 := seg.value.1]);
        forall i: nat | i > 0 && IsLastSegment(parts, i) ensures IsLastSegment(rest, i - 1) {
        }
        assert HasField(parts, Field(parts[0]));
        forall f | HasField(rest, f) ensures HasField(parts, f) {
          var i :| 0 <= i < |rest| && Field(rest[i]) == f;
          assert Field(parts[i + 1]) == f;
        }
      }
    }
  }

  /** A field that some segment is for has a last one. */
  lemma {:induction false} LastExists(parts: seq<string>, i: nat)
    requires i < |parts|
    ensures exists k: nat :: IsLastSegment(parts, k) && Field(parts[k]) == Field(parts[i])
    decreases |parts| - i
  {
    hide Field;
    if j :| i < j < |parts| && Field(parts[j]) == Field(parts[i]) {
      LastExists(parts, j);
    } else {
      assert IsLastSegment(parts, i);
    }
  }

  /** The order of `field:word`, by the word without white space and capitals; an empty one ascends. */
  lemma SortSegmentMeans(field: string, word: string)
    requires Free(field, ':') && Free(word, ':')
    ensures SortSegment(field + [':'] + word).Some? && SortSegment(field + [':'] + word).value.0 == Trim(field)
    ensures var w, order := ToLower(Trim(word)), SortSegment(field + [':'] + word).value.1;
            && (order == Asc <==> w == "asc" || w == "")
            && (order == Desc <==> w == "desc")
            && (order == NameOf("asc") <==> w == "1")
            && (order == NameOf("desc") <==> w == "-1")
            && (order == Undefined <==> w !in ["", "asc", "desc", "1", "-1"])
  {
    hide Trim, ToLower;
    SplitFirst(field, word, ':');
    SplitFree(word, ':');
  }

  /** Pieces after the second are not read, though the check looks at the last one. */
  lemma SortPiecesIgnored(field: string, word: string, rest: string)
    requires Free(field, ':') && Free(word, ':')
    ensures SortSegment(field + [':'] + (word + [':'] + rest)) == SortSegment(field + [':'] + word)
  {
    hide Trim, OrderWord;
    SplitFirst(field, word + [':'] + rest, ':');
    SplitFirst(word, rest, ':');
    SplitFirst(field, word, ':');
    SplitFree(word, ':');
  }

  /** The last piece of a segment is no direction, up to white space and capitals, and not empty. */
  predicate EndsInNoDirection(part: string) {
    ToLower(Trim(Last(Split(part, ':')))) !in ["", "asc", "desc"]
  }

  /** An empty string sorts by creation, latest first; each refusal has its own cause, in this order. */
  lemma SortRefusals(s: string)
    ensures s == "" ==> ParseSort(s) == Ok(map["createdAt" := Desc])
    ensures var malformed := s != "" && (s[0] == ':' || Free(s, ':'));
            var misordered := s != "" && exists part :: part in Split(s, ',') && EndsInNoDirection(part);
            var colonless := s != "" && exists part :: part in Split(s, ',') && Free(part, ':');
            && (ParseSort(s) == Err(BadFormat) <==> malformed)
            && (ParseSort(s) == Err(BadOrder) <==> !malformed && misordered)
            && (ParseSort(s) == Err(MissingColon) <==> !malformed && !misordered && colonless)
            && (ParseSort(s).Ok? <==> !malformed && !misordered && !colonless)
  {
    hide Trim, ToLower, Split, SortSegments, Last;
    if s == "" {
      EmptySort();
    } else {
      forall part ensures OrderWord(Last(Split(part, ':'))) in ["asc", "desc"] <==> !EndsInNoDirection(part) {
      }
      hide OrderWord, EndsInNoDirection;
      SegmentsBind(Split(s, ','), map[]);
    }
  }

  lemma EmptySort()
    ensures ParseSort("") == Ok(map["createdAt" := Desc])
  {
    hide OrderWord, Split, Trim;
    var part := "createdAt:desc";
    DefaultSort();
    SplitFirst("createdAt", "desc", ':');
    SplitFree("desc", ':');
    assert part == "createdAt" + [':'] + "desc";
    TrimIsTrimmed("createdAt");
    WordsAreFixed(Desc);
    assert SortSegment(part) == Some(("createdAt", Desc));
    assert [part][1..] == [];
    assert SortSegments([part], map[]) == SortSegments([], map["createdAt" := Desc]);
  }

  /** A string that passes both checks fails to parse exactly when some segment has no colon. */
  lemma SortFailsIff(s: string)
    requires FormatOk(s) && OrdersOk(s)
    ensures ParseSort(s).Err? <==> s != "" && exists part :: part in Split(s, ',') && Free(part, ':')
  {
    hide OrderWord, Split, SortSegments;
    if s == "" {
      SegmentsBind(Split(DEFAULT_SORT, ','), map[]);
      DefaultSort();
    } else {
      SegmentsBind(Split(s, ','), map[]);
    }
  }

  lemma DefaultSort()
    ensures Split(DEFAULT_SORT, ',') == [DEFAULT_SORT] && ':' in DEFAULT_SORT
  {
    SplitFree(DEFAULT_SORT, ',');
    assert DEFAULT_SORT[9] == ':';
  }

  /** The last segment of its field, with a second piece that the enum does not know. */
  predicate UnknownOrder(parts: seq<string>, i: nat) {
    IsLastSegment(parts, i) && OrderWord(Second(parts[i])) !in ["asc", "desc", "1", "-1"]
  }

  predicate HasUnknownOrder(parts: seq<string>) { exists i: nat :: i < |parts| && UnknownOrder(parts, i) }

  predicate HasUndefined(sort: Sort) { exists f :: f in sort && sort[f] == Undefined }

  /**
   * A parsed sort has a field without an order exactly when the last segment of some field has
   * a second piece that is none of the enum's names and numbers.
   */
  lemma OrderUndefinedIff(s: string)
    requires s != "" && ParseSort(s).Ok?
    ensures HasUndefined(ParseSort(s).value) <==> HasUnknownOrder(Split(s, ','))
  {
    hide OrderWord, Split, FormatOk, OrdersOk, HasUnknownOrder, HasUndefined;
    assert ParseSort(s) == SortSegments(Split(s, ','), map[]);
    SegmentsUndefinedIff(Split(s, ','));
  }

  lemma SegmentsUndefinedIff(parts: seq<string>)
    requires SortSegments(parts, map[]).Ok?
    ensures HasUndefined(SortSegments(parts, map[]).value) <==> HasUnknownOrder(parts)
  {
    hide OrderWord, LookUp, Field, Second, Split, SortSegments;
    var sort := SortSegments(parts, map[]).value;
    SegmentsBind(parts, map[]);
    if f :| f in sort && sort[f] == Undefined {
      var i :| 0 <= i < |parts| && Field(parts[i]) == f;
      LastExists(parts, i);
      var k: nat :| IsLastSegment(parts, k) && Field(parts[k]) == f;
      LooksUp(OrderWord(Second(parts[k])));
      assert UnknownOrder(parts, k);
    }
    if i: nat :| UnknownOrder(parts, i) {
      LooksUp(OrderWord(Second(parts[i])));
      assert sort[Field(parts[i])] == Undefined;
    }
  }

  lemma LooksUp(word: string)
    ensures LookUp(word) == Undefined <==> word !in ["asc", "desc", "1", "-1"]
  {
  }

  /** One accepted string of each kind: a segment without a colon, and one with two. */
  lemma AcceptedSortsGoWrong()
    ensures FormatOk("a:asc,desc") && OrdersOk("a:asc,desc") && ParseSort("a:asc,desc") == Err(MissingColon)
    ensures FormatOk("a:x:asc") && OrdersOk("a:x:asc") && ParseSort("a:x:asc") == Ok(map["a" := Undefined])
  {
    hide OrderWord;
    WordsAreFixed(Asc);
    WordsAreFixed(Desc);
    FirstGoesWrong();
    SecondGoesWrong();
  }

  lemma FirstGoesWrong()
    requires OrderWord("asc") == "asc" && OrderWord("desc") == "desc"
    ensures FormatOk("a:asc,desc") && OrdersOk("a:asc,desc") && ParseSort("a:asc,desc") == Err(MissingColon)
  {
    hide OrderWord, Split;
    var s := "a:asc,desc";
    assert s[1] == ':' && s == "a:asc" + [','] + "desc" && "a:asc" == "a" + [':'] + "asc";
    SplitFirst("a:asc", "desc", ',');
    SplitFree("desc", ',');
    assert Split(s, ',') == ["a:asc", "desc"];
    SplitFirst("a", "asc", ':');
    SplitFree("asc", ':');
    SplitFree("desc", ':');
    assert Last(Split("a:asc", ':')) == "asc" && Last(Split("desc", ':')) == "desc";
    SegmentsBind(Split(s, ','), map[]);
    assert "desc" in Split(s, ',') && Free("desc", ':');
  }

  lemma SecondGoesWrong()
    requires OrderWord("asc") == "asc"
    ensures FormatOk("a:x:asc") && OrdersOk("a:x:asc") && ParseSort("a:x:asc") == Ok(map["a" := Undefined])
  {
    hide OrderWord, Split, Trim;
    var s := "a:x:asc";
    assert s[1] == ':' && s == "a" + [':'] + "x:asc" && "x:asc" == "x" + [':'] + "asc";
    SplitFree(s, ',');
    SplitFirst("a", "x:asc", ':');
    SplitFirst("x", "asc", ':');
    SplitFree("asc", ':');
    assert Split(s, ':') == ["a", "x", "asc"];
    assert Trim("a") == "a" by {
      TrimIsTrimmed("a");
    }
    assert OrderWord("x") == "x" by {
      assert ToLower("x") == "x";
      PlainWord("x");
    }
    assert [s][1..] == [];
    assert SortSegments([s], map[]) == SortSegments([], map["a" := Undefined]);
  }

  // ---------- printing and the round trip ----------

  type SortBinding = (string, Order)

  predicate SortPrintable(b: SortBinding) {
    PlainField(b.0) && Trimmed(b.0) && (b.1 == Asc || b.1 == Desc)
  }

  function Word(o: Order): string { if o == Asc then "asc" else "desc" }

  function PrintSort(bs: seq<SortBinding>): string { Join(SortParts(bs), ',') }

  function SortParts(bs: seq<SortBinding>): (parts: seq<string>)
    ensures |parts| == |bs|
    ensures forall i :: 0 <= i < |bs| ==> parts[i] == bs[i].0 + [':'] + Word(bs[i].1)
  {
    if bs == [] then [] else [bs[0].0 + [':'] + Word(bs[0].1)] + SortParts(bs[1..])
  }

  function SortBound(bs: seq<SortBinding>, acc: Sort): Sort
    decreases bs
  {
    if bs == [] then acc else SortBound(bs[1..], acc[bs[0].0 := bs[0].1])
  }

  lemma WordsAreFixed(o: Order)
    requires o == Asc || o == Desc
    ensures OrderWord(Word(o)) == Word(o) && LookUp(Word(o)) == o
    ensures Free(Word(o), ',') && Free(Word(o), ':')
  {
    hide OrderWord;
    if o == Asc {
      assert ToLower("asc") == "asc";
      PlainWord("asc");
    } else {
      assert ToLower("desc") == "desc";
      PlainWord("desc");
    }
  }

  lemma PlainWord(w: string)
    requires Trimmed(w) && w != "" && ToLower(w) == w
    ensures OrderWord(w) == w
  {
    hide Trim;
    TrimIsTrimmed(w);
  }

  lemma SortSegmentRoundTrips(b: SortBinding)
    requires SortPrintable(b)
    ensures var part := b.0 + [':'] + Word(b.1);
            && Split(part, ':') == [b.0, Word(b.1)]
            && SortSegment(part) == Some(b)
            && Free(part, ',')
            && OrderWord(Last(Split(part, ':'))) in ["asc", "desc"]
  {
    hide Trim, Split, OrderWord;
    WordsAreFixed(b.1);
    SplitFirst(b.0, Word(b.1), ':');
    SplitFree(Word(b.1), ':');
    assert [b.0] + [Word(b.1)] == [b.0, Word(b.1)];
    TrimIsTrimmed(b.0);
  }

  lemma {:induction false} SortSegmentsRoundTrip(bs: seq<SortBinding>, acc: Sort)
    requires forall b :: b in bs ==> SortPrintable(b)
    ensures SortSegments(SortParts(bs), acc) == Ok(SortBound(bs, acc))
    decreases bs
  {
    if bs != [] {
      SortSegmentRoundTrips(bs[0]);
      SortSegmentsRoundTrip(bs[1..], acc[bs[0].0 := bs[0].1]);
    }
  }

  /** Printed sorts pass both checks and parse back; the last binding of a field wins. */
  lemma SortRoundTrips(bs: seq<SortBinding>)
    requires bs != [] && forall b :: b in bs ==> SortPrintable(b)
    ensures FormatOk(PrintSort(bs)) && OrdersOk(PrintSort(bs))
    ensures ParseSort(PrintSort(bs)) == Ok(SortBound(bs, map[]))
  {
    hide OrderWord, Split, Join, FormatOk, SortSegments, SortBound, SortPrintable;
    var parts := SortParts(bs);
    forall part | part in parts ensures Free(part, ',') && OrderWord(Last(Split(part, ':'))) in ["asc", "desc"] {
      var i :| 0 <= i < |parts| && parts[i] == part;
      SortSegmentRoundTrips(bs[i]);
    }
    SplitJoin(parts, ',');
    SortSegmentsRoundTrip(bs, map[]);
    SortPrintStart(bs);
  }

  lemma SortPrintStart(bs: seq<SortBinding>)
    requires bs != [] && forall b :: b in bs ==> SortPrintable(b)
    ensures FormatOk(PrintSort(bs)) && PrintSort(bs) != ""
  {
    var s, first := PrintSort(bs), bs[0].0 + [':'] + Word(bs[0].1);
    assert bs[0] in bs;
    assert first <= s;
    assert s[0] == bs[0].0[0] && s[0] in bs[0].0;
    assert s[|bs[0].0|] == ':';
  }

  /** In particular any non-empty printable map comes back, in whatever order it is printed. */
  lemma SortMapRoundTrips(m: Sort, bs: seq<SortBinding>)
    requires m != map[]
    requires forall i, j :: 0 <= i < j < |bs| ==> bs[i].0 != bs[j].0
    requires forall b :: b in bs <==> b.0 in m && m[b.0] == b.1
    requires forall b :: b in bs ==> SortPrintable(b)
    ensures ParseSort(PrintSort(bs)) == Ok(m)
  {
    hide ParseSort, PrintSort, SortPrintable, SortBound;
    var key :| key in m;
    assert (key, m[key]) in bs;
    SortRoundTrips(bs);
    SortBoundDistinct(bs, map[]);
    var out := SortBound(bs, map[]);
    forall k | k in m ensures k in out && out[k] == m[k] {
      assert (k, m[k]) in bs;
    }
    assert out.Keys == m.Keys;
    assert out == m;
  }

  lemma {:induction false} SortBoundDistinct(bs: seq<SortBinding>, acc: Sort)
    requires forall i, j :: 0 <= i < j < |bs| ==> bs[i].0 != bs[j].0
    ensures forall b :: b in bs ==> b.0 in SortBound(bs, acc) && SortBound(bs, acc)[b.0] == b.1
    ensures forall k :: k in SortBound(bs, acc) ==> k in acc || exists b :: b in bs && b.0 == k
    ensures forall k :: k in acc && (forall b :: b in bs ==> b.0 != k) ==>
              k in SortBound(bs, acc) && SortBound(bs, acc)[k] == acc[k]
    decreases bs
  {
    if bs != [] {
      var acc' := acc[bs[0].0 := bs[0].1];
      assert bs == [bs[0]] + bs[1..];
      assert forall i :: 0 <= i < |bs[1..]| ==> bs[1..][i] == bs[i + 1];
      SortBoundDistinct(bs[1..], acc');
      assert forall b :: b in bs[1..] ==> b.0 != bs[0].0;
    }
  }

  // ---------- the allow-list ----------

  datatype AllowedSort = AllowedSort(name: string, column: Option<string>) {
    function Field(): string { if column.Some? then column.value else name }
  }

  predicate SortAllowed(sort: Sort, allowed: seq<AllowedSort>) {
    forall key :: key in sort ==> exists a :: a in allowed && a.name == key
  }

  class SortInput {
    var sort: Option<Sort>

    constructor (sort: Option<Sort>)
      ensures this.sort == sort
    {
      this.sort := sort;
    }
  }

  /** An absent order is not passed on; a direction or a name is. */
  predicate Asks(sort: Sort, a: AllowedSort) { a.name in sort && sort[a.name] != Undefined }

  /** The column an entry stands for. */
  function SortTarget(a: AllowedSort): string {
    match a.column
    case Some(column) => column
    case None => a.name
  }

  /** The entry asks, and no later entry that asks writes the same column. */
  predicate AsksLast(sort: Sort, allowed: seq<AllowedSort>, i: nat) {
    && i < |allowed| && Asks(sort, allowed[i])
    && forall j :: i < j < |allowed| && Asks(sort, allowed[j]) ==> SortTarget(allowed[j]) != SortTarget(allowed[i])
  }

  /** Exactly the columns of the fields asked for, each with the order its last field asks. */
  ghost predicate Renames(before: Sort, allowed: seq<AllowedSort>, after: Sort) {
    && (forall column :: column in after <==> exists a :: a in allowed && Asks(before, a) && SortTarget(a) == column)
    && (forall i: nat :: AsksLast(before, allowed, i) ==>
          SortTarget(allowed[i]) in after && after[SortTarget(allowed[i])] == before[allowed[i].name])
  }

  /** A field outside the list refuses the whole request; otherwise the fields become columns. */
  method ValidateDatabaseSortAllowed(allowed: seq<AllowedSort>, input: SortInput) returns (ok: bool)
    modifies input
    ensures ok <==> (old(input.sort).Some? ==> SortAllowed(old(input.sort).value, allowed))
    ensures !ok ==> input.sort == old(input.sort)
    ensures ok ==> input.sort.Some?
    ensures ok && old(input.sort).None? ==> input.sort == Some(map[])
    ensures ok && old(input.sort).Some? ==> Renames(old(input.sort).value, allowed, input.sort.value)
  {
    var sort: Sort := map[];
    if input.sort.Some? {
      var before := input.sort.value;
      if exists key :: key in before && !exists a :: a in allowed && a.name == key {
        return false;
      }
      sort := ToColumns(before, allowed);
    }
    input.sort := Some(sort);
    return true;
  }

  /** The loop over the allow-list. */
  method ToColumns(before: Sort, allowed: seq<AllowedSort>) returns (sort: Sort)
    ensures Renames(before, allowed, sort)
  {
    hide Renames;
    sort := map[];
    RenamesNothing(before);
    for i := 0 to |allowed|
      invariant Renames(before, allowed[..i], sort)
    {
      var a := allowed[i];
      assert allowed[..i + 1] == allowed[..i] + [a];
      RenamesNext(before, allowed[..i], a, sort);
      assert a.Field() == SortTarget(a);
      if a.name in before && before[a.name] != Undefined {
        sort := sort[a.Field() := before[a.name]];
      }
    }
    assert allowed[..|allowed|] == allowed;
  }

  lemma RenamesNothing(before: Sort)
    ensures Renames(before, [], map[])
  {
  }

  lemma RenamesNext(before: Sort, done: seq<AllowedSort>, a: AllowedSort, after: Sort)
    requires Renames(before, done, after)
    ensures Renames(before, done + [a], if Asks(before, a) then after[SortTarget(a) := before[a.name]] else after)
  {
    var next := done + [a];
    var after' := if Asks(before, a) then after[SortTarget(a) := before[a.name]] else after;
    assert forall x :: x in next <==> x in done || x == a;
    forall k: nat | AsksLast(before, next, k)
      ensures SortTarget(next[k]) in after' && after'[SortTarget(next[k])] == before[next[k].name]
    {
      if k < |done| {
        assert AsksLast(before, done, k) by {
          assert forall j :: 0 <= j < |done| ==> done[j] == next[j];
        }
        assert next[|done|] == a;
      }
    }
  }
}
