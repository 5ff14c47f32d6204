/** ULID and ObjectId strings: fixed-width positional encodings whose string order is their order. */
module PositionalIds {
  import opened Wrappers
  import opened JsString

  // ---------- numbers in a base ----------

  function DigitChar(d: nat): char
    requires d < 32
  {
    if d < 10 then (48 + d) as char else (97 + d - 10) as char
  }

  const DIGITS_BASE_32: string := "0123456789abcdefghijklmnopqrstuv"

  lemma DigitsWrittenOut(d: nat)
    requires d < 32
    ensures DigitChar(d) == DIGITS_BASE_32[d]
  {
    assert forall i :: 0 <= i < 10 ==> DIGITS_BASE_32[i] as int == 48 + i;
    assert forall i :: 10 <= i < 32 ==> DIGITS_BASE_32[i] as int == 87 + i;
  }

  function DigitValue(c: char): int {
    if IsDigit(c) then c as int - 48 else LowerChar(c) as int - 87
  }

  /** `n.toString(b)` */
  function ToBase(n: nat, b: nat): string
    requires 2 <= b <= 32
  {
    if n < b then [DigitChar(n)]
    else
      DivSmaller(n, b);
      ToBase(n / b, b) + [DigitChar(n % b)]
  }

  /** `s.padStart(width, '0')` */
  function PadStart(s: string, width: nat): string
    decreases width - |s|
  {
    if |s| >= width then s else PadStart("0" + s, width)
  }

  function Power(b: nat, k: nat): nat { if k == 0 then 1 else b * Power(b, k - 1) }

  /** The number a digit string stands for. */
  function Decode(s: string, b: nat): int {
    if s == [] then 0 else b * Decode(s[..|s| - 1], b) + DigitValue(s[|s| - 1])
  }

  /** The k lowest digits of n. */
  function Fixed(n: nat, b: nat, k: nat): (s: string)
    requires 2 <= b <= 32
    ensures |s| == k
    decreases k
  {
    if k == 0 then [] else Fixed(n / b, b, k - 1) + [DigitChar(n % b)]
  }

  lemma MulMonotone(b: nat, x: nat, y: nat)
    requires x <= y
    ensures b * x <= b * y
  {
  }

  lemma DivSmaller(n: nat, b: nat)
    requires b >= 2 && n >= 1
    ensures n / b < n
  {
    assert n == b * (n / b) + n % b;
    if n / b >= 1 {
      MulMonotone(n / b, 2, b);
    }
  }

  /** Having at most k digits is being below the k-th power. */
  lemma DivBelow(n: nat, b: nat, m: nat)
    requires b >= 1
    ensures n < b * m <==> n / b < m
  {
    assert n == b * (n / b) + n % b;
    if n / b < m {
      MulMonotone(b, n / b + 1, m);
    } else {
      MulMonotone(b, m, n / b);
    }
  }

  lemma PowerStep(n: nat, b: nat, k: nat)
    requires b >= 1 && k >= 1
    ensures n < Power(b, k) <==> n / b < Power(b, k - 1)
  {
    DivBelow(n, b, Power(b, k - 1));
  }

  // ---------- padding ----------

  lemma {:induction false} PadKeepsLast(s: string, c: char, width: nat)
    requires width >= 1
    ensures PadStart(s + [c], width) == PadStart(s, width - 1) + [c]
    decreases width - |s|
  {
    if |s| + 1 < width {
      PadKeepsLast("0" + s, c, width);
      assert "0" + (s + [c]) == ("0" + s) + [c];
    }
  }

  lemma {:induction false} ZeroIsFixed(b: nat, k: nat)
    requires 2 <= b <= 32
    ensures PadStart([], k) == Fixed(0, b, k)
  {
    if k > 0 {
      ZeroIsFixed(b, k - 1);
      PadKeepsLast([], '0', k);
      assert PadStart([], k) == PadStart("0" + [], k);
      assert "0" + [] == [] + ['0'];
    }
  }

  /** A number that fits is padded to exactly its digits; a larger one overflows the width. */
  lemma {:induction false} PadIsFixedIff(n: nat, b: nat, k: nat)
    requires 2 <= b <= 32 && k >= 1
    ensures n < Power(b, k) ==> PadStart(ToBase(n, b), k) == Fixed(n, b, k)
    ensures n >= Power(b, k) ==> |PadStart(ToBase(n, b), k)| > k
    decreases n
  {
    hide Power;
    PowerStep(n, b, k);
    if n < b {
      PowerAtLeast(b, k);
      PadOneDigit(n, b, k);
    } else {
      DivSmaller(n, b);
      var front, last := ToBase(n / b, b), DigitChar(n % b);
      PadKeepsLast(front, last, k);
      if k > 1 {
        PadIsFixedIff(n / b, b, k - 1);
      } else {
        PowerZero(b);
        assert n / b >= 1 by {
          DivBelow(n, b, 1);
        }
        assert |front| >= 1;
      }
    }
  }

  lemma PowerZero(b: nat)
    ensures Power(b, 0) == 1
  {
  }

  lemma PadOneDigit(n: nat, b: nat, k: nat)
    requires 2 <= b <= 32 && k >= 1 && n < b
    ensures PadStart([DigitChar(n)], k) == Fixed(n, b, k)
  {
    ZeroIsFixed(b, k - 1);
    PadKeepsLast([], DigitChar(n), k);
    assert [] + [DigitChar(n)] == [DigitChar(n)];
    assert n / b == 0 && n % b == n;
  }

  lemma {:induction false} PowerAtLeast(b: nat, k: nat)
    requires b >= 2 && k >= 1
    ensures Power(b, k) >= b
  {
    if k > 1 {
      PowerAtLeast(b, k - 1);
      MulMonotone(b, 1, Power(b, k - 1));
    }
  }

  // ---------- decoding and order ----------

  /** Taking off the last digit. */
  lemma FixedLast(n: nat, b: nat, k: nat) returns (p: nat, r: nat)
    requires 2 <= b <= 32 && k >= 1 && n < Power(b, k)
    ensures n == b * p + r && r < b && p < Power(b, k - 1)
    ensures Fixed(n, b, k) == Fixed(p, b, k - 1) + [DigitChar(r)]
  {
    p, r := n / b, n % b;
    PowerStep(n, b, k);
  }

  lemma {:induction false} FixedDecodes(n: nat, b: nat, k: nat)
    requires 2 <= b <= 32 && n < Power(b, k)
    ensures Decode(Fixed(n, b, k), b) == n
    decreases k
  {
    if k > 0 {
      hide *;
      var p, r := FixedLast(n, b, k);
      FixedDecodes(p, b, k - 1);
      DecodeLast(Fixed(p, b, k - 1), r, b);
    }
  }

  lemma DecodeLast(front: string, d: nat, b: nat)
    requires d < 32
    ensures Decode(front + [DigitChar(d)], b) == b * Decode(front, b) + d
  {
    var s := front + [DigitChar(d)];
    assert s[..|s| - 1] == front && s[|s| - 1] == DigitChar(d);
    assert DigitValue(DigitChar(d)) == d;
  }

  /** Either case of a digit keeps the order of the digits. */
  predicate KeepsDigits(f: char -> char) {
    forall d, e :: 0 <= d < e < 32 ==> f(DigitChar(d)) < f(DigitChar(e))
  }

  lemma FixedParts(n: nat, b: nat, k: nat, f: char -> char) returns (p: nat, r: nat)
    requires 2 <= b <= 32 && k >= 1 && n < Power(b, k)
    ensures n == b * p + r && r < b && p < Power(b, k - 1)
    ensures Map(f, Fixed(n, b, k)) == Map(f, Fixed(p, b, k - 1)) + Map(f, [DigitChar(r)])
  {
    hide Power, Fixed, Map;
    p, r := FixedLast(n, b, k);
    MapConcat(f, Fixed(p, b, k - 1), [DigitChar(r)]);
  }

  lemma {:induction false} FixedOrder(n: nat, m: nat, b: nat, k: nat, f: char -> char)
    requires 2 <= b <= 32 && n < Power(b, k) && m < Power(b, k) && KeepsDigits(f)
    ensures Less(Map(f, Fixed(n, b, k)), Map(f, Fixed(m, b, k))) <==> n < m
    ensures Map(f, Fixed(n, b, k)) == Map(f, Fixed(m, b, k)) <==> n == m
    decreases k, 0
  {
    if k > 0 {
      FixedOrderStep(n, m, b, k, f);
    } else {
      assert n == 0 && m == 0;
    }
  }

  lemma {:induction false} FixedOrderStep(n: nat, m: nat, b: nat, k: nat, f: char -> char)
    requires 2 <= b <= 32 && n < Power(b, k) && m < Power(b, k) && KeepsDigits(f) && k >= 1
    ensures Less(Map(f, Fixed(n, b, k)), Map(f, Fixed(m, b, k))) <==> n < m
    ensures Map(f, Fixed(n, b, k)) == Map(f, Fixed(m, b, k)) <==> n == m
    decreases k - 1, 1
  {
    hide *;
    var p, r := FixedParts(n, b, k, f);
    var q, t := FixedParts(m, b, k, f);
    FixedOrder(p, q, b, k - 1, f);
    OneDigit(f, r, t);
    HeadThenTail(Map(f, Fixed(p, b, k - 1)), Map(f, Fixed(q, b, k - 1)), Map(f, [DigitChar(r)]),
      Map(f, [DigitChar(t)]), p, q, r, t);
    LastDigit(n, m, b, p, r, q, t);
  }

  /** If heads are ordered like p, q and tails like r, t, the strings are ordered like the pairs. */
  lemma HeadThenTail(x: string, y: string, c: string, d: string, p: nat, q: nat, r: nat, t: nat)
    requires |x| == |y|
    requires (Less(x, y) <==> p < q) && (x == y <==> p == q)
    requires (Less(c, d) <==> r < t) && (c == d <==> r == t)
    ensures Less(x + c, y + d) <==> p < q || (p == q && r < t)
    ensures x + c == y + d <==> p == q && r == t
  {
    hide Less;
    LessByHead(x, y, c, d);
    SameTail(x, y, c, d);
  }

  lemma OneDigit(f: char -> char, d: nat, e: nat)
    requires KeepsDigits(f) && d < 32 && e < 32
    ensures Less(Map(f, [DigitChar(d)]), Map(f, [DigitChar(e)])) <==> d < e
    ensures Map(f, [DigitChar(d)]) == Map(f, [DigitChar(e)]) <==> d == e
  {
    var x, y := Map(f, [DigitChar(d)]), Map(f, [DigitChar(e)]);
    assert |x| == |y| == 1 && x[0] == f(DigitChar(d)) && y[0] == f(DigitChar(e));
    assert !Less(x[1..], y[1..]);
  }

  lemma SameTail(x: string, y: string, c: string, d: string)
    requires |x| == |y|
    ensures x + c == y + d <==> x == y && c == d
  {
    if x + c == y + d {
      assert x == (x + c)[..|x|] && y == (y + d)[..|y|];
      assert c == (x + c)[|x|..] && d == (y + d)[|y|..];
    }
  }

  lemma LastDigit(n: nat, m: nat, b: nat, p: nat, r: nat, q: nat, t: nat)
    requires n == b * p + r && m == b * q + t && r < b && t < b
    ensures n < m <==> p < q || (p == q && r < t)
    ensures n == m <==> p == q && r == t
  {
    if p < q {
      MulMonotone(b, p + 1, q);
    } else if q < p {
      MulMonotone(b, q + 1, p);
    }
  }

  /** Tuples in order: the first difference decides. */
  predicate TupleLess(a: seq<nat>, b: seq<nat>) {
    b != [] && (a == [] || a[0] < b[0] || (a[0] == b[0] && TupleLess(a[1..], b[1..])))
  }

  // ---------- ULID ----------

  function RandomPart(digits: seq<nat>): (s: string)
    requires forall d :: d in digits ==> d < 32
    ensures |s| == |digits|
  {
    if digits == [] then []
    else
      assert digits[0] in digits && forall d :: d in digits[1..] ==> d in digits;
      [DigitChar(digits[0])] + RandomPart(digits[1..])
  }

  /** The id between prefix and suffix; the random digits are a parameter. */
  function UlidBody(timestamp: nat, random: seq<nat>, lowercase: bool): string
    requires |random| == 16 && forall d :: d in random ==> d < 32
  {
    var id := ToUpper(PadStart(ToBase(timestamp, 32), 10) + RandomPart(random));
    if lowercase then ToLower(id) else id
  }

  function CaseOf(lowercase: bool): char -> char {
    if lowercase then (c => LowerChar(UpperChar(c))) else UpperChar
  }

  lemma CasesKeepDigits(lowercase: bool)
    ensures KeepsDigits(CaseOf(lowercase))
  {
  }

  const ULID_TIMES: nat := 0x4_0000_0000_0000

  lemma UlidTimes()
    ensures Power(32, 10) == ULID_TIMES
  {
    assert Power(32, 2) == 1024;
    assert Power(32, 4) == 32 * (32 * Power(32, 2)) == 0x10_0000;
    assert Power(32, 6) == 32 * (32 * Power(32, 4)) == 0x4000_0000;
    assert Power(32, 8) == 32 * (32 * Power(32, 6)) == 0x100_0000_0000;
    assert Power(32, 10) == 32 * (32 * Power(32, 8));
  }

  lemma UlidShape(timestamp: nat, random: seq<nat>, lowercase: bool)
    requires |random| == 16 && forall d :: d in random ==> d < 32
    requires timestamp < ULID_TIMES
    ensures UlidBody(timestamp, random, lowercase) ==
            Map(CaseOf(lowercase), Fixed(timestamp, 32, 10)) + Map(CaseOf(lowercase), RandomPart(random))
  {
    UlidTimes();
    PadIsFixedIff(timestamp, 32, 10);
    var t, r := Fixed(timestamp, 32, 10), RandomPart(random);
    MapConcat(CaseOf(lowercase), t, r);
    var id := ToUpper(t + r);
    assert ToLower(id) == Map(CaseOf(true), t + r);
    assert id == Map(CaseOf(false), t + r);
  }

  /** The body has 26 characters exactly when the timestamp is below 32 to the tenth. */
  lemma UlidLengthIff(timestamp: nat, random: seq<nat>, lowercase: bool)
    requires |random| == 16 && forall d :: d in random ==> d < 32
    ensures |UlidBody(timestamp, random, lowercase)| == 26 <==> timestamp < ULID_TIMES
  {
    UlidTimes();
    PadIsFixedIff(timestamp, 32, 10);
  }

  lemma {:induction false} CaseKeepsValues(s: string, lowercase: bool)
    ensures Decode(Map(CaseOf(lowercase), s), 32) == Decode(s, 32)
    decreases |s|
  {
    if s != [] {
      var front := s[..|s| - 1];
      CaseKeepsValues(front, lowercase);
      assert Map(CaseOf(lowercase), s)[..|s| - 1] == Map(CaseOf(lowercase), front);
    }
  }

  /** Its first ten characters decode to the timestamp, the other sixteen are the random digits. */
  lemma UlidDecodes(timestamp: nat, random: seq<nat>, lowercase: bool)
    requires |random| == 16 && forall d :: d in random ==> d < 32
    requires timestamp < ULID_TIMES
    ensures |UlidBody(timestamp, random, lowercase)| == 26
    ensures Decode(UlidBody(timestamp, random, lowercase)[..10], 32) == timestamp
    ensures forall i :: 0 <= i < 16 ==> DigitValue(UlidBody(timestamp, random, lowercase)[10 + i]) == random[i]
  {
    hide UlidBody, Decode, RandomPart, Fixed, CaseOf, DigitChar, DigitValue;
    UlidLengthIff(timestamp, random, lowercase);
    UlidShape(timestamp, random, lowercase);
    UlidTimes();
    FixedDecodes(timestamp, 32, 10);
    CaseKeepsValues(Fixed(timestamp, 32, 10), lowercase);
    var t, r := Map(CaseOf(lowercase), Fixed(timestamp, 32, 10)), Map(CaseOf(lowercase), RandomPart(random));
    assert (t + r)[..10] == t;
    forall i | 0 <= i < 16 ensures DigitValue((t + r)[10 + i]) == random[i] {
      RandomDigit(random, i);
      CaseDigit(random[i], lowercase);
      assert (t + r)[10 + i] == r[i];
    }
  }

  lemma {:induction false} RandomDigit(random: seq<nat>, i: nat)
    requires forall d :: d in random ==> d < 32
    requires i < |random|
    ensures random[i] < 32 && RandomPart(random)[i] == DigitChar(random[i])
  {
    assert random[i] in random && random[0] in random && forall d :: d in random[1..] ==> d in random;
    if i > 0 {
      RandomDigit(random[1..], i - 1);
    }
  }

  lemma CaseDigit(d: nat, lowercase: bool)
    requires d < 32
    ensures DigitValue(CaseOf(lowercase)(DigitChar(d))) == d
  {
  }

  /** An earlier timestamp gives a smaller string, whatever the random parts; prefix and suffix do not matter. */
  lemma UlidOrder(t: nat, u: nat, r: seq<nat>, q: seq<nat>, lowercase: bool, prefix: string, suffix: string)
    requires |r| == |q| == 16 && (forall d :: d in r ==> d < 32) && forall d :: d in q ==> d < 32
    requires t < u < ULID_TIMES
    ensures Less(prefix + (UlidBody(t, r, lowercase) + suffix), prefix + (UlidBody(u, q, lowercase) + suffix))
  {
    hide UlidBody, Fixed;
    UlidTimes();
    UlidShape(t, r, lowercase);
    UlidShape(u, q, lowercase);
    CasesKeepDigits(lowercase);
    var f := CaseOf(lowercase);
    FixedOrder(t, u, 32, 10, f);
    var a, b := Map(f, Fixed(t, 32, 10)), Map(f, Fixed(u, 32, 10));
    var x, y := Map(f, RandomPart(r)), Map(f, RandomPart(q));
    LessTotal(a, b);
    LessByHead(a, b, x + suffix, y + suffix);
    assert (a + x) + suffix == a + (x + suffix) && (b + y) + suffix == b + (y + suffix);
    LessByHead(prefix, prefix, a + (x + suffix), b + (y + suffix));
  }

  lemma {:induction false} DigitsOrder(r: seq<nat>, q: seq<nat>, f: char -> char)
    requires |r| == |q| && (forall d :: d in r ==> d < 32) && (forall d :: d in q ==> d < 32) && KeepsDigits(f)
    ensures Less(Map(f, RandomPart(r)), Map(f, RandomPart(q))) <==> TupleLess(r, q)
  {
    if r != [] {
      assert r[0] in r && q[0] in q;
      assert (forall d :: d in r[1..] ==> d in r) && (forall d :: d in q[1..] ==> d in q);
      DigitsOrder(r[1..], q[1..], f);
      hide Less, Map, DigitChar, KeepsDigits;
      MapConcat(f, [DigitChar(r[0])], RandomPart(r[1..]));
      MapConcat(f, [DigitChar(q[0])], RandomPart(q[1..]));
      OneDigit(f, r[0], q[0]);
      LessByHead(Map(f, [DigitChar(r[0])]), Map(f, [DigitChar(q[0])]),
                 Map(f, RandomPart(r[1..])), Map(f, RandomPart(q[1..])));
    }
  }

  /** Within one timestamp the order is that of the random digits: a later id may come first. */
  lemma UlidOrderWithinTimestamp(
    t: nat, r: seq<nat>, q: seq<nat>, lowercase: bool, prefix: string, suffix: string)
    requires |r| == |q| == 16 && (forall d :: d in r ==> d < 32) && forall d :: d in q ==> d < 32
    requires t < ULID_TIMES
    ensures var a, b := UlidBody(t, r, lowercase) + suffix, UlidBody(t, q, lowercase) + suffix;
            r != q ==> (Less(prefix + a, prefix + b) <==> TupleLess(r, q))
  {
    hide UlidBody, Fixed, Less, TupleLess, RandomPart, Map;
    if r != q {
      UlidShape(t, r, lowercase);
      UlidShape(t, q, lowercase);
      CasesKeepDigits(lowercase);
      var f := CaseOf(lowercase);
      DigitsOrder(r, q, f);
      var a, x, y := Map(f, Fixed(t, 32, 10)), Map(f, RandomPart(r)), Map(f, RandomPart(q));
      RandomDistinct(r, q, f);
      LessByHead(x, y, suffix, suffix);
      LessByHead(a, a, x + suffix, y + suffix);
      assert (a + x) + suffix == a + (x + suffix) && (a + y) + suffix == a + (y + suffix);
      LessByHead(prefix, prefix, a + (x + suffix), a + (y + suffix));
    }
  }

  lemma RandomDistinct(r: seq<nat>, q: seq<nat>, f: char -> char)
    requires |r| == |q| && r != q && KeepsDigits(f)
    requires (forall d :: d in r ==> d < 32) && (forall d :: d in q ==> d < 32)
    ensures Map(f, RandomPart(r)) != Map(f, RandomPart(q))
  {
    hide KeepsDigits, RandomPart, DigitChar;
    var i :| 0 <= i < |r| && r[i] != q[i];
    RandomDigit(r, i);
    RandomDigit(q, i);
    OneDigit(f, r[i], q[i]);
    assert Map(f, RandomPart(r))[i] == f(DigitChar(r[i])) && Map(f, RandomPart(q))[i] == f(DigitChar(q[i]));
  }

  // ---------- ULID and Crockford's alphabet ----------

  /** The k lowest digits of n, as numbers. */
  function Digits(n: nat, b: nat, k: nat): (ds: seq<nat>)
    requires 2 <= b <= 32
    ensures |ds| == k && forall d :: d in ds ==> d < b
    decreases k
  {
    if k == 0 then [] else Digits(n / b, b, k - 1) + [n % b]
  }

  /** Digits and capitals without I, L, O and U; either case is read. */
  predicate IsCrockford(c: char) {
    var u := UpperChar(c);
    IsDigit(u) || (IsUpper(u) && u != 'I' && u != 'L' && u != 'O' && u != 'U')
  }

  /** What Crockford's Base32 reads a character as: I and L as one, O as zero, U as nothing. */
  function CrockfordValue(c: char): Option<nat> {
    var u := UpperChar(c);
    if IsDigit(u) then Some(u as int - 48)
    else if 'A' <= u <= 'H' then Some(u as int - 55)
    else if u == 'I' || u == 'L' then Some(1)
    else if 'J' <= u <= 'K' then Some(u as int - 56)
    else if 'M' <= u <= 'N' then Some(u as int - 57)
    else if u == 'O' then Some(0)
    else if 'P' <= u <= 'T' then Some(u as int - 58)
    else if 'V' <= u <= 'Z' then Some(u as int - 59)
    else None
  }

  function CrockfordDecode(s: string): Option<nat> {
    if s == [] then Some(0)
    else
      var front, last := CrockfordDecode(s[..|s| - 1]), CrockfordValue(s[|s| - 1]);
      if front.None? || last.None? then None else Some(32 * front.value + last.value)
  }

  lemma DigitIsCrockfordIff(d: nat, lowercase: bool)
    requires d < 32
    ensures IsCrockford(CaseOf(lowercase)(DigitChar(d))) <==> d !in {18, 21, 24, 30}
  {
    UpperDigit(d, lowercase);
    hide UpperChar, CaseOf, DigitChar;
  }

  lemma CrockfordDigit(d: nat, lowercase: bool)
    requires d < 32
    ensures var x := CrockfordValue(CaseOf(lowercase)(DigitChar(d)));
            (x.Some? ==> x.value <= d) && (x == Some(d) <==> d < 18)
  {
    UpperDigit(d, lowercase);
    hide UpperChar, CaseOf, DigitChar;
  }

  lemma UpperDigit(d: nat, lowercase: bool)
    requires d < 32
    ensures UpperChar(CaseOf(lowercase)(DigitChar(d))) as int == if d < 10 then 48 + d else 55 + d
  {
  }

  predicate AllBelow(ds: seq<nat>, b: nat) { forall d :: d in ds ==> d < b }

  /** Read as Crockford's Base32 a digit string never gains, and is itself while its digits are below 18. */
  lemma {:induction false} CrockfordReads(n: nat, k: nat, lowercase: bool)
    requires n < Power(32, k)
    ensures var v := CrockfordDecode(Map(CaseOf(lowercase), Fixed(n, 32, k)));
            && (v.Some? ==> v.value <= n)
            && (v == Some(n) <==> AllBelow(Digits(n, 32, k), 18))
    decreases k
  {
    hide *;
    if k > 0 {
      var p, r := n / 32, n % 32;
      PowerStep(n, 32, k);
      CrockfordReads(p, k - 1, lowercase);
      CrockfordDigit(r, lowercase);
      LastOfFixed(n, k, lowercase);
      LastOfDigits(n, k);
      CrockfordStep(
        Map(CaseOf(lowercase), Fixed(p, 32, k - 1)), CaseOf(lowercase)(DigitChar(r)), p, r,
        AllBelow(Digits(p, 32, k - 1), 18), r < 18);
    } else {
      CrockfordReadsNothing(n, lowercase);
    }
  }

  lemma CrockfordReadsNothing(n: nat, lowercase: bool)
    requires n < Power(32, 0)
    ensures n == 0 && CrockfordDecode(Map(CaseOf(lowercase), Fixed(n, 32, 0))) == Some(0)
    ensures AllBelow(Digits(n, 32, 0), 18)
  {
  }

  lemma CrockfordStep(front: string, c: char, p: nat, r: nat, frontLow: bool, lastLow: bool)
    requires var v := CrockfordDecode(front); (v.Some? ==> v.value <= p) && (v == Some(p) <==> frontLow)
    requires var x := CrockfordValue(c); (x.Some? ==> x.value <= r) && (x == Some(r) <==> lastLow)
    ensures var w := CrockfordDecode(front + [c]);
            (w.Some? ==> w.value <= 32 * p + r) && (w == Some(32 * p + r) <==> frontLow && lastLow)
  {
    hide CrockfordValue;
    var s := front + [c];
    assert s[..|s| - 1] == front && s[|s| - 1] == c;
  }

  lemma LastOfDigits(n: nat, k: nat)
    requires k >= 1
    ensures AllBelow(Digits(n, 32, k), 18) <==> AllBelow(Digits(n / 32, 32, k - 1), 18) && n % 32 < 18
  {
    LastBelow(Digits(n / 32, 32, k - 1), n % 32);
  }

  lemma LastBelow(ds: seq<nat>, d: nat)
    ensures AllBelow(ds + [d], 18) <==> AllBelow(ds, 18) && d < 18
  {
    var all := ds + [d];
    assert all[|ds|] == d && d in all;
    if AllBelow(all, 18) {
      forall x | x in ds ensures x < 18 {
        assert x in all;
      }
    }
  }

  lemma LastOfFixed(n: nat, k: nat, lowercase: bool)
    requires k >= 1
    ensures var s, front := Map(CaseOf(lowercase), Fixed(n, 32, k)), Map(CaseOf(lowercase), Fixed(n / 32, 32, k - 1));
            s == front + [CaseOf(lowercase)(DigitChar(n % 32))]
  {
    hide DigitChar, CaseOf;
    MapConcat(CaseOf(lowercase), Fixed(n / 32, 32, k - 1), [DigitChar(n % 32)]);
  }

  /** The first ten characters read back as the timestamp exactly when its digits are below 18. */
  lemma UlidReadsAsCrockfordIff(timestamp: nat, random: seq<nat>, lowercase: bool)
    requires |random| == 16 && forall d :: d in random ==> d < 32
    requires timestamp < ULID_TIMES
    ensures |UlidBody(timestamp, random, lowercase)| == 26
    ensures CrockfordDecode(UlidBody(timestamp, random, lowercase)[..10]) == Some(timestamp) <==>
            AllBelow(Digits(timestamp, 32, 10), 18)
  {
    hide UlidBody, RandomPart, Fixed, CaseOf, CrockfordDecode, Digits;
    UlidShape(timestamp, random, lowercase);
    UlidTimes();
    var t, r := Map(CaseOf(lowercase), Fixed(timestamp, 32, 10)), Map(CaseOf(lowercase), RandomPart(random));
    assert (t + r)[..10] == t;
    CrockfordReads(timestamp, 10, lowercase);
  }

  lemma {:induction false} FixedIsDigits(n: nat, b: nat, k: nat)
    requires 2 <= b <= 32
    ensures Fixed(n, b, k) == RandomPart(Digits(n, b, k))
    decreases k
  {
    if k > 0 {
      FixedIsDigits(n / b, b, k - 1);
      DigitsConcat(Digits(n / b, b, k - 1), [n % b]);
    }
  }

  lemma {:induction false} DigitsConcat(a: seq<nat>, b: seq<nat>)
    requires (forall d :: d in a ==> d < 32) && forall d :: d in b ==> d < 32
    ensures RandomPart(a + b) == RandomPart(a) + RandomPart(b)
  {
    if a == [] {
      assert a + b == b;
    } else {
      hide DigitChar;
      var rest := a[1..] + b;
      assert a[0] in a && forall d :: d in a[1..] ==> d in a;
      DigitsConcat(a[1..], b);
      assert a + b == [a[0]] + rest;
      assert (a + b)[0] == a[0] && (a + b)[1..] == rest;
      assert [DigitChar(a[0])] + (RandomPart(a[1..]) + RandomPart(b)) ==
        ([DigitChar(a[0])] + RandomPart(a[1..])) + RandomPart(b);
    }
  }

  /** The body is the digits of the timestamp and the random digits, in one of the two cases. */
  lemma UlidIsDigits(timestamp: nat, random: seq<nat>, lowercase: bool)
    requires |random| == 16 && forall d :: d in random ==> d < 32
    requires timestamp < ULID_TIMES
    ensures forall d :: d in Digits(timestamp, 32, 10) + random ==> d < 32
    ensures UlidBody(timestamp, random, lowercase) ==
            Map(CaseOf(lowercase), RandomPart(Digits(timestamp, 32, 10) + random))
  {
    hide UlidBody, RandomPart, Fixed, CaseOf, Digits, Map;
    UlidShape(timestamp, random, lowercase);
    FixedIsDigits(timestamp, 32, 10);
    DigitsConcat(Digits(timestamp, 32, 10), random);
    MapConcat(CaseOf(lowercase), RandomPart(Digits(timestamp, 32, 10)), RandomPart(random));
  }

  /** The body keeps to Crockford's alphabet exactly when no digit of it is one of four. */
  lemma UlidIsCrockfordIff(timestamp: nat, random: seq<nat>, lowercase: bool)
    requires |random| == 16 && forall d :: d in random ==> d < 32
    requires timestamp < ULID_TIMES
    ensures (forall c :: c in UlidBody(timestamp, random, lowercase) ==> IsCrockford(c)) <==>
            forall d :: d in Digits(timestamp, 32, 10) + random ==> d !in {18, 21, 24, 30}
  {
    hide UlidBody, RandomPart, CaseOf, Digits, IsCrockford, DigitChar;
    UlidIsDigits(timestamp, random, lowercase);
    CrockfordDigits(Digits(timestamp, 32, 10) + random, lowercase);
  }

  /** The body is digits and capitals, or, if asked for, digits and small letters. */
  lemma UlidCase(timestamp: nat, random: seq<nat>, lowercase: bool)
    requires |random| == 16 && forall d :: d in random ==> d < 32
    requires timestamp < ULID_TIMES
    ensures forall c :: c in UlidBody(timestamp, random, lowercase) ==>
              c in DIGITS || (if lowercase then c in SMALL_LETTERS else c in CAPITALS)
  {
    hide UlidBody, RandomPart, Digits, CaseOf, DigitChar;
    UlidIsDigits(timestamp, random, lowercase);
    var ds, body := Digits(timestamp, 32, 10) + random, UlidBody(timestamp, random, lowercase);
    forall i | 0 <= i < |body|
      ensures body[i] in DIGITS || (if lowercase then body[i] in SMALL_LETTERS else body[i] in CAPITALS)
    {
      RandomDigit(ds, i);
      DigitCase(ds[i], lowercase);
    }
  }

  lemma DigitCase(d: nat, lowercase: bool)
    requires d < 32
    ensures var c := CaseOf(lowercase)(DigitChar(d));
            c in DIGITS || (if lowercase then c in SMALL_LETTERS else c in CAPITALS)
  {
    AlphabetWrittenOut(CaseOf(lowercase)(DigitChar(d)));
  }

  lemma CrockfordDigits(ds: seq<nat>, lowercase: bool)
    requires forall d :: d in ds ==> d < 32
    ensures (forall c :: c in Map(CaseOf(lowercase), RandomPart(ds)) ==> IsCrockford(c)) <==>
            forall d :: d in ds ==> d !in {18, 21, 24, 30}
  {
    hide CaseOf, IsCrockford, DigitChar, RandomPart;
    var body := Map(CaseOf(lowercase), RandomPart(ds));
    forall i | 0 <= i < |ds| ensures IsCrockford(body[i]) <==> ds[i] !in {18, 21, 24, 30} {
      RandomDigit(ds, i);
      DigitIsCrockfordIff(ds[i], lowercase);
    }
    if forall c :: c in body ==> IsCrockford(c) {
      forall d | d in ds ensures d !in {18, 21, 24, 30} {
        var i :| 0 <= i < |ds| && ds[i] == d;
        assert body[i] in body;
      }
    }
    if forall d :: d in ds ==> d !in {18, 21, 24, 30} {
      forall c | c in body ensures IsCrockford(c) {
        var i :| 0 <= i < |body| && body[i] == c;
        assert ds[i] in ds;
      }
    }
  }

  // ---------- ObjectId ----------

  /** Hexadecimal fields of given widths, one after the other. */
  function EncodeFields(values: seq<nat>, widths: seq<nat>): string
    requires |values| == |widths|
  {
    if values == [] then [] else PadStart(ToBase(values[0], 16), widths[0]) + EncodeFields(values[1..], widths[1..])
  }

  function Sum(widths: seq<nat>): nat { if widths == [] then 0 else widths[0] + Sum(widths[1..]) }

  /** Timestamp, the three machine bytes, process id, counter. */
  const OBJECT_ID_WIDTHS: seq<nat> := [8, 2, 2, 2, 4, 6]

  function ObjectIdBody(parts: seq<nat>): string
    requires |parts| == 6
  {
    EncodeFields(parts, OBJECT_ID_WIDTHS)
  }

  predicate InRange(values: seq<nat>, widths: seq<nat>) {
    |values| == |widths| && forall i :: 0 <= i < |values| ==> widths[i] >= 1 && values[i] < Power(16, widths[i])
  }

  lemma {:induction false} FieldsOrder(a: seq<nat>, b: seq<nat>, widths: seq<nat>)
    requires InRange(a, widths) && InRange(b, widths)
    ensures |EncodeFields(a, widths)| == |EncodeFields(b, widths)| == Sum(widths)
    ensures Less(EncodeFields(a, widths), EncodeFields(b, widths)) <==> TupleLess(a, b)
  {
    if a != [] {
      var k := widths[0];
      assert InRange(a[1..], widths[1..]) && InRange(b[1..], widths[1..]);
      FieldsOrder(a[1..], b[1..], widths[1..]);
      PadIsFixedIff(a[0], 16, k);
      PadIsFixedIff(b[0], 16, k);
      var id := (c: char) => c;
      assert KeepsDigits(id);
      FixedOrder(a[0], b[0], 16, k, id);
      assert Map(id, Fixed(a[0], 16, k)) == Fixed(a[0], 16, k);
      assert Map(id, Fixed(b[0], 16, k)) == Fixed(b[0], 16, k);
      LessByHead(Fixed(a[0], 16, k), Fixed(b[0], 16, k), EncodeFields(a[1..], widths[1..]),
        EncodeFields(b[1..], widths[1..]));
    }
  }

  /** For in-range parts the body is 24 hex digits and string order is the order of the parts. */
  lemma ObjectIdOrder(a: seq<nat>, b: seq<nat>)
    requires InRange(a, OBJECT_ID_WIDTHS) && InRange(b, OBJECT_ID_WIDTHS)
    ensures |ObjectIdBody(a)| == 24
    ensures Less(ObjectIdBody(a), ObjectIdBody(b)) <==> TupleLess(a, b)
  {
    FieldsOrder(a, b, OBJECT_ID_WIDTHS);
    var w := OBJECT_ID_WIDTHS;
    assert w[1..] == [2, 2, 2, 4, 6] && w[1..][1..] == [2, 2, 4, 6] && [2, 2, 4, 6][1..] == [2, 4, 6];
    assert [2, 4, 6][1..] == [4, 6] && [4, 6][1..] == [6] && [6][1..] == [];
    assert Sum([6]) == 6 && Sum([4, 6]) == 10 && Sum([2, 4, 6]) == 12 && Sum([2, 2, 4, 6]) == 14;
    assert Sum([2, 2, 2, 4, 6]) == 16;
  }

  const HEX_DIGITS: string := "0123456789abcdef"

  lemma FieldIsFixed(n: nat, width: nat)
    requires width >= 1 && n < Power(16, width)
    ensures var field := PadStart(ToBase(n, 16), width);
            |field| == width && Decode(field, 16) == n && forall c :: c in field ==> c in HEX_DIGITS
  {
    PadIsFixedIff(n, 16, width);
    FixedDecodes(n, 16, width);
    FixedIsHex(n, width);
  }

  lemma {:induction false} FixedIsHex(n: nat, k: nat)
    ensures forall c :: c in Fixed(n, 16, k) ==> c in HEX_DIGITS
    decreases k
  {
    if k > 0 {
      FixedIsHex(n / 16, k - 1);
      HexDigit(n % 16);
    }
  }

  lemma HexDigit(d: nat)
    requires d < 16
    ensures DigitChar(d) in HEX_DIGITS
  {
    DigitsWrittenOut(d);
    assert HEX_DIGITS[d] == DIGITS_BASE_32[d];
  }

  /** The fields of the body stand, in hexadecimal, for the timestamp, machine, process and counter. */
  lemma ObjectIdDecodes(parts: seq<nat>)
    requires InRange(parts, OBJECT_ID_WIDTHS)
    ensures var id := ObjectIdBody(parts);
            && |id| == 24 && (forall c :: c in id ==> c in HEX_DIGITS)
            && Decode(id[..8], 16) == parts[0]
            && Decode(id[8..10], 16) == parts[1] && Decode(id[10..12], 16) == parts[2]
              && Decode(id[12..14], 16) == parts[3]
            && Decode(id[14..18], 16) == parts[4]
            && Decode(id[18..], 16) == parts[5]
  {
    hide Decode, PadStart, ToBase, Power;
    var field := (i: int) requires 0 <= i < 6 => PadStart(ToBase(parts[i], 16), OBJECT_ID_WIDTHS[i]);
    forall i | 0 <= i < 6
      ensures |field(i)| == OBJECT_ID_WIDTHS[i] && Decode(field(i), 16) == parts[i]
      ensures forall c :: c in field(i) ==> c in HEX_DIGITS
    {
      FieldIsFixed(parts[i], OBJECT_ID_WIDTHS[i]);
    }
    BodyIsItsFields(parts);
    SixFields(field(0), field(1), field(2), field(3), field(4), field(5));
  }

  lemma SixFields(a: string, b: string, c: string, d: string, e: string, f: string)
    requires |a| == 8 && |b| == |c| == |d| == 2 && |e| == 4 && |f| == 6
    ensures var id := a + b + c + d + e + f;
            && id[..8] == a && id[8..10] == b && id[10..12] == c && id[12..14] == d && id[14..18] == e && id[18..] == f
  {
  }

  lemma BodyIsItsFields(parts: seq<nat>)
    requires |parts| == 6
    ensures var field := (i: int) requires 0 <= i < 6 => PadStart(ToBase(parts[i], 16), OBJECT_ID_WIDTHS[i]);
            ObjectIdBody(parts) == field(0) + field(1) + field(2) + field(3) + field(4) + field(5)
  {
    hide PadStart, ToBase;
    var w := OBJECT_ID_WIDTHS;
    assert EncodeFields(parts[6..], w[6..]) == [];
    FieldsStep(parts, w, 5);
    FieldsStep(parts, w, 4);
    FieldsStep(parts, w, 3);
    FieldsStep(parts, w, 2);
    FieldsStep(parts, w, 1);
    FieldsStep(parts, w, 0);
    assert parts[0..] == parts && w[0..] == w;
  }

  lemma FieldsStep(values: seq<nat>, widths: seq<nat>, i: nat)
    requires |values| == |widths| && i < |values|
    ensures EncodeFields(values[i..], widths[i..]) ==
            PadStart(ToBase(values[i], 16), widths[i]) + EncodeFields(values[i + 1..], widths[i + 1..])
  {
    assert values[i..][1..] == values[i + 1..] && widths[i..][1..] == widths[i + 1..];
  }
}
