/**
 * The `search` and `sort` query strings: the checks, the parse, and the printed form it inverts.
 */
module SearchStrings {
  import opened Wrappers
  import opened JsString
  import opened ListFilters

  datatype ParseError = BadFormat | EmptyValue | BadOrder | MissingColon

  // ---------- the checks ----------

  predicate FormatOk(s: string) { s == "" || (s[0] != ':' && ':' in s) }

  function Last(parts: seq<string>): string
    requires parts != []
  {
    parts[|parts| - 1]
  }

  predicate ValuesPresent(s: string) {
    s == "" || forall part :: part in Split(s, ',') ==> Last(Split(part, ':')) != ""
  }

  // ---------- the parse ----------

  function TrimAll(parts: seq<string>): (r: seq<string>)
    ensures |r| == |parts|
    ensures forall i :: 0 <= i < |parts| ==> r[i] == Trim(parts[i])
  {
    if parts == [] then [] else [Trim(parts[0])] + TrimAll(parts[1..])
  }

  /** One `field:value` segment; a segment without a colon has no value to work on. */
  function ParseSegment(part: string): Option<(string, Filter)> {
    var pieces := Split(part, ':');
    if |pieces| < 2 then None
    else
      var values := TrimAll(Split(pieces[1], '|'));
      Some((pieces[0], if |values| > 1 then Many(values) else One(Trim(pieces[1]))))
  }

  /** Later segments overwrite earlier ones. */
  function ParseSegments(parts: seq<string>, acc: Search): Result<Search, ParseError>
    decreases parts
  {
    if parts == [] then Ok(acc)
    else
      match ParseSegment(parts[0])
      case None => Err(MissingColon)
      case Some((field, value)) => ParseSegments(parts[1..], acc[field := value])
  }

  /** The whole schema: an empty string asks for nothing. */
  function ParseSearch(s: string): Result<Option<Search>, ParseError> {
    if !FormatOk(s) then Err(BadFormat)
    else if !ValuesPresent(s) then Err(EmptyValue)
    else if s == "" then Ok(None)
    else
      match ParseSegments(Split(s, ','), map[])
      case Err(e) => Err(e)
      case Ok(search) => Ok(Some(search))
  }

  /** The transform as it runs: one pass over the segments filling an object. */
  method TransformSearch(s: string) returns (r: Result<Option<Search>, ParseError>)
    requires FormatOk(s) && ValuesPresent(s)
    ensures r == ParseSearch(s)
  {
    if s == "" {
      return Ok(None);
    }
    var search: Search := map[];
    var parts := Split(s, ',');
    for i := 0 to |parts|
      invariant ParseSegments(parts[i..], search) == ParseSegments(parts, map[])
    {
      assert parts[i..][0] == parts[i] && parts[i..][1..] == parts[i + 1..];
      var pieces := Split(parts[i], ':');
      if |pieces| < 2 {
        return Err(MissingColon);
      }
      var values := TrimAll(Split(pieces[1], '|'));
      if |values| > 1 {
        search := search[pieces[0] := Many(values)];
        continue;
      }
      search := search[pieces[0] := One(Trim(pieces[1]))];
    }
    return Ok(Some(search));
  }

  // ---------- accepted strings that the transform cannot handle ----------

  lemma {:induction false} SegmentsFailIff(parts: seq<string>, acc: Search)
    ensures ParseSegments(parts, acc).Err? <==> exists part :: part in parts && Free(part, ':')
    ensures ParseSegments(parts, acc).Err? ==> ParseSegments(parts, acc).error == MissingColon
    decreases parts
  {
    if parts != [] {
      assert forall part :: part in parts <==> part == parts[0] || part in parts[1..];
      ColonSplits(parts[0]);
      assert Free(parts[0], ':') <==> ParseSegment(parts[0]).None?;
      var seg := ParseSegment(parts[0]);
      if seg.Some? {
        SegmentsFailIff(parts[1..], acc[seg.value.0 := seg.value.1]);
      }
    }
  }

  lemma {:induction false} ColonSplits(part: string)
    ensures |Split(part, ':')| >= 2 <==> ':' in part
  {
    if part != [] {
      ColonSplits(part[1..]);
      assert part == [part[0]] + part[1..];
    }
  }

  /** A string that passes both checks fails to parse exactly when some segment has no colon. */
  lemma TransformFailsIff(s: string)
    requires FormatOk(s) && ValuesPresent(s)
    ensures ParseSearch(s).Err? <==> s != "" && exists part :: part in Split(s, ',') && Free(part, ':')
  {
    SegmentsFailIff(Split(s, ','), map[]);
  }

  /** A segment ends in an empty piece exactly when it is empty or ends in a colon. */
  lemma {:induction false} LastPieceEmpty(part: string)
    ensures Last(Split(part, ':')) == "" <==> part == "" || part[|part| - 1] == ':'
  {
    if part != "" {
      LastPieceEmpty(part[1..]);
      if |part| == 1 {
        assert part[1..] == "";
      }
    }
  }

  /** An empty string asks nothing; each refusal has its own cause in the text, in this order. */
  lemma SearchRefusals(s: string)
    ensures ParseSearch(s) == Ok(None) <==> s == ""
    ensures var malformed := s != "" && (s[0] == ':' || Free(s, ':'));
            var valueless := s != "" && exists part :: part in Split(s, ',') && (part == "" || part[|part| - 1] == ':');
            var colonless := s != "" && exists part :: part in Split(s, ',') && Free(part, ':');
            && (ParseSearch(s) == Err(BadFormat) <==> malformed)
            && (ParseSearch(s) == Err(EmptyValue) <==> !malformed && valueless)
            && (ParseSearch(s) == Err(MissingColon) <==> !malformed && !valueless && colonless)
            && (ParseSearch(s).Ok? <==> !malformed && !valueless && !colonless)
  {
    hide Last, ParseSegments, Split;
    forall part ensures Last(Split(part, ':')) == "" <==> part == "" || part[|part| - 1] == ':' {
      LastPieceEmpty(part);
    }
    SegmentsFailIff(Split(s, ','), map[]);
  }

  /** One such string: the second segment is only a value. */
  lemma AcceptedButFails()
    ensures FormatOk("a:b,c") && ValuesPresent("a:b,c") && ParseSearch("a:b,c") == Err(MissingColon)
  {
    var s := "a:b,c";
    assert s[1] == ':';
    SplitFree("c", ',');
    SplitFirst("a:b", "c", ',');
    assert s == "a:b" + [','] + "c";
    SplitFree("b", ':');
    SplitFirst("a", "b", ':');
    assert "a:b" == "a" + [':'] + "b";
    SplitFree("c", ':');
    assert Split(s, ',') == ["a:b", "c"];
    assert Last(Split("a:b", ':')) == "b" && Last(Split("c", ':')) == "c";
    SegmentsFailIff(Split(s, ','), map[]);
    assert "c" in Split(s, ',') && Free("c", ':');
  }

  // ---------- printing ----------

  type Binding = (string, Filter)

  predicate PlainField(f: string) { f != "" && Free(f, ',') && Free(f, ':') }

  predicate Separated(v: string) { Free(v, ',') && Free(v, ':') && Free(v, '|') }

  /** What can be printed: one value, or two or more, white space and all. */
  predicate Printable(b: Binding) {
    && PlainField(b.0)
    && match b.1
       case One(v) => v != "" && Separated(v)
       case Many(vs) => |vs| >= 2 && forall v :: v in vs ==> Separated(v)
  }

  /** The values without the white space around them. */
  function Stripped(f: Filter): Filter {
    match f
    case One(v) => One(Trim(v))
    case Many(vs) => Many(seq(|vs|, i requires 0 <= i < |vs| => Trim(vs[i])))
  }

  function AllStripped(bs: seq<Binding>): (r: seq<Binding>)
    ensures |r| == |bs|
    ensures forall i :: 0 <= i < |bs| ==> r[i] == (bs[i].0, Stripped(bs[i].1))
  {
    if bs == [] then [] else [(bs[0].0, Stripped(bs[0].1))] + AllStripped(bs[1..])
  }

  function PrintValue(f: Filter): string {
    match f
    case One(v) => v
    case Many(vs) => Join(vs, '|')
  }

  function PrintSegment(b: Binding): string { b.0 + [':'] + PrintValue(b.1) }

  function PrintSegments(bs: seq<Binding>): (parts: seq<string>)
    ensures |parts| == |bs|
    ensures forall i :: 0 <= i < |bs| ==> parts[i] == PrintSegment(bs[i])
  {
    if bs == [] then [] else [PrintSegment(bs[0])] + PrintSegments(bs[1..])
  }

  function Print(bs: seq<Binding>): string { Join(PrintSegments(bs), ',') }

  /** The map a list of bindings stands for: the last binding of a field wins. */
  function Bound(bs: seq<Binding>, acc: Search): Search
    decreases bs
  {
    if bs == [] then acc else Bound(bs[1..], acc[bs[0].0 := bs[0].1])
  }

  // ---------- the round trip ----------

  lemma {:induction false} JoinChars(parts: seq<string>, sep: char, c: char)
    requires c != sep && forall p :: p in parts ==> Free(p, c)
    ensures Free(Join(parts, sep), c)
  {
    if parts != [] {
      assert parts[0] in parts;
      JoinChars(parts[1..], sep, c);
    }
  }

  lemma PrintedValue(f: Filter)
    requires Printable(("f", f))
    ensures var v := PrintValue(f); v != "" && Free(v, ',') && Free(v, ':')
    ensures match f
            case One(v) => Split(v, '|') == [v]
            case Many(vs) => Split(PrintValue(f), '|') == vs
  {
    match f
    case One(v) => SplitFree(v, '|');
    case Many(vs) =>
      SplitJoin(vs, '|');
      JoinChars(vs, '|', ',');
      JoinChars(vs, '|', ':');
  }

  lemma SegmentRoundTrips(b: Binding)
    requires Printable(b)
    ensures ParseSegment(PrintSegment(b)) == Some((b.0, Stripped(b.1)))
    ensures Free(PrintSegment(b), ',') && Split(PrintSegment(b), ':') == [b.0, PrintValue(b.1)]
  {
    hide Trim, Split, Join;
    var v := PrintValue(b.1);
    PrintedValue(b.1);
    SplitFirst(b.0, v, ':');
    SplitFree(v, ':');
    assert [b.0] + [v] == [b.0, v];
    if b.1.Many? {
      assert TrimAll(b.1.texts) == Stripped(b.1).texts;
    }
  }

  /** Pieces after the second are not read. */
  lemma LaterPiecesIgnored(field: string, value: string, rest: string)
    requires Free(field, ':') && Free(value, ':')
    ensures ParseSegment(field + [':'] + (value + [':'] + rest)) == ParseSegment(field + [':'] + value)
  {
    hide Trim, TrimAll;
    SplitFirst(field, value + [':'] + rest, ':');
    SplitFirst(value, rest, ':');
    SplitFirst(field, value, ':');
    SplitFree(value, ':');
  }

  lemma {:induction false} SegmentsRoundTrip(bs: seq<Binding>, acc: Search)
    requires forall b :: b in bs ==> Printable(b)
    ensures ParseSegments(PrintSegments(bs), acc) == Ok(Bound(AllStripped(bs), acc))
    decreases bs
  {
    if bs != [] {
      SegmentRoundTrips(bs[0]);
      SegmentsRoundTrip(bs[1..], acc[bs[0].0 := Stripped(bs[0].1)]);
    }
  }

  /**
   * Printing any non-empty list of printable bindings gives a string that passes both checks and
   * parses back to the map they stand for, the values stripped of the white space around them.
   */
  lemma SearchRoundTrips(bs: seq<Binding>)
    requires bs != [] && forall b :: b in bs ==> Printable(b)
    ensures FormatOk(Print(bs)) && ValuesPresent(Print(bs))
    ensures ParseSearch(Print(bs)) == Ok(Some(Bound(AllStripped(bs), map[])))
  {
    var parts := PrintSegments(bs);
    forall part | part in parts ensures Free(part, ',') && Last(Split(part, ':')) != "" {
      var i :| 0 <= i < |parts| && parts[i] == part;
      SegmentRoundTrips(bs[i]);
      PrintedValue(bs[i].1);
    }
    SplitJoin(parts, ',');
    JoinSplit(Print(bs), ',');
    SegmentsRoundTrip(bs, map[]);
    PrintStart(bs);
  }

  lemma PrintStart(bs: seq<Binding>)
    requires bs != [] && forall b :: b in bs ==> Printable(b)
    ensures FormatOk(Print(bs)) && Print(bs) != ""
  {
    var s, first := Print(bs), PrintSegment(bs[0]);
    assert bs[0] in bs;
    assert first <= s;
    assert s[0] == bs[0].0[0] && s[0] in bs[0].0;
    assert s[|bs[0].0|] == ':';
  }

  predicate IsStripped(f: Filter) {
    match f
    case One(v) => Trimmed(v)
    case Many(vs) => forall v :: v in vs ==> Trimmed(v)
  }

  lemma StrippedStays(f: Filter)
    requires IsStripped(f)
    ensures Stripped(f) == f
  {
    hide Trim;
    match f
    case One(v) => TrimIsTrimmed(v);
    case Many(vs) =>
      forall i | 0 <= i < |vs| ensures Trim(vs[i]) == vs[i] {
        TrimIsTrimmed(vs[i]);
      }
      assert Stripped(f).texts == vs;
  }

  /** In particular any non-empty map of trimmed values comes back, in whatever order it is printed. */
  lemma SearchMapRoundTrips(m: Search, bs: seq<Binding>)
    requires m != map[]
    requires forall i, j :: 0 <= i < j < |bs| ==> bs[i].0 != bs[j].0
    requires forall b :: b in bs <==> b.0 in m && m[b.0] == b.1
    requires forall b :: b in bs ==> Printable(b) && IsStripped(b.1)
    ensures ParseSearch(Print(bs)) == Ok(Some(m))
  {
    hide ParseSearch, Print, Printable, Bound, Stripped, IsStripped;
    var key :| key in m;
    assert (key, m[key]) in bs;
    SearchRoundTrips(bs);
    forall i | 0 <= i < |bs| ensures Stripped(bs[i].1) == bs[i].1 {
      assert bs[i] in bs;
      StrippedStays(bs[i].1);
    }
    assert AllStripped(bs) == bs;
    BoundIsMap(m, bs);
  }

  lemma BoundIsMap(m: Search, bs: seq<Binding>)
    requires forall i, j :: 0 <= i < j < |bs| ==> bs[i].0 != bs[j].0
    requires forall b :: b in bs <==> b.0 in m && m[b.0] == b.1
    ensures Bound(bs, map[]) == m
  {
    hide Bound;
    BoundDistinct(bs, map[]);
    var out := Bound(bs, map[]);
    forall k | k in m ensures k in out && out[k] == m[k] {
      assert (k, m[k]) in bs;
    }
    assert out.Keys == m.Keys;
  }

  lemma {:induction false} BoundDistinct(bs: seq<Binding>, acc: Search)
    requires forall i, j :: 0 <= i < j < |bs| ==> bs[i].0 != bs[j].0
    ensures forall b :: b in bs ==> b.0 in Bound(bs, acc) && Bound(bs, acc)[b.0] == b.1
    ensures forall k :: k in Bound(bs, acc) ==> k in acc || exists b :: b in bs && b.0 == k
    ensures forall k :: k in acc && (forall b :: b in bs ==> b.0 != k) ==>
            k in Bound(bs, acc) && Bound(bs, acc)[k] == acc[k]
    decreases bs
  {
    if bs != [] {
      var acc' := acc[bs[0].0 := bs[0].1];
      assert bs == [bs[0]] + bs[1..];
      assert forall i :: 0 <= i < |bs[1..]| ==> bs[1..][i] == bs[i + 1];
      BoundDistinct(bs[1..], acc');
      assert forall b :: b in bs[1..] ==> b.0 != bs[0].0;
    }
  }
}
