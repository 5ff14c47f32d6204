/**
 * The JavaScript string operations the program is written with, over ASCII letters:
 * trimming, case, splitting, joining, and the order of the `<` operator.
 */
module JsString {

  // ---------- characters ----------

  /** White space and line terminators, as `trim` and `\s` see them. */
  predicate IsSpace(c: char) {
    || c == ' ' || '\t' <= c <= '\r'
    || c == '\U{00A0}' || c == '\U{1680}' || '\U{2000}' <= c <= '\U{200A}'
    || c == '\U{2028}' || c == '\U{2029}' || c == '\U{202F}' || c == '\U{205F}'
    || c == '\U{3000}' || c == '\U{FEFF}'
  }

  predicate IsUpper(c: char) { 'A' <= c <= 'Z' }

  predicate IsLower(c: char) { 'a' <= c <= 'z' }

  predicate IsDigit(c: char) { '0' <= c <= '9' }

  function LowerChar(c: char): char {
    if IsUpper(c) then ((c as int) + 32) as char else c
  }

  function UpperChar(c: char): char {
    if IsLower(c) then ((c as int) - 32) as char else c
  }

  const CAPITALS: string := "ABCDEFGHIJKLMNOPQRSTUVWXYZ"
  const SMALL_LETTERS: string := "abcdefghijklmnopqrstuvwxyz"
  const DIGITS: string := "0123456789"

  /** The classes and the two case mappings, against the alphabet written out. */
  lemma AlphabetWrittenOut(c: char)
    ensures IsUpper(c) <==> c in CAPITALS
    ensures IsLower(c) <==> c in SMALL_LETTERS
    ensures IsDigit(c) <==> c in DIGITS
    ensures forall i :: 0 <= i < 26 ==>
            LowerChar(CAPITALS[i]) == SMALL_LETTERS[i] && UpperChar(SMALL_LETTERS[i]) == CAPITALS[i]
    ensures c !in CAPITALS ==> LowerChar(c) == c
    ensures c !in SMALL_LETTERS ==> UpperChar(c) == c
  {
    assert forall i :: 0 <= i < 26 ==> CAPITALS[i] as int == 65 + i;
    assert forall i :: 0 <= i < 26 ==> SMALL_LETTERS[i] as int == 97 + i;
    assert forall i :: 0 <= i < 10 ==> DIGITS[i] as int == 48 + i;
    if IsUpper(c) {
      assert CAPITALS[c as int - 65] == c;
    }
    if IsLower(c) {
      assert SMALL_LETTERS[c as int - 97] == c;
    }
    if IsDigit(c) {
      assert DIGITS[c as int - 48] == c;
    }
  }

  /** The white space and line terminators of sections 12.2 and 12.3 of ECMA-262, by code point. */
  const SPACES: set<int> :=
    {9, 10, 11, 12, 13, 0x20, 0xA0, 0x1680, 0x2000, 0x2001, 0x2002, 0x2003, 0x2004, 0x2005, 0x2006, 0x2007,
     0x2008, 0x2009, 0x200A, 0x2028, 0x2029, 0x202F, 0x205F, 0x3000, 0xFEFF}

  lemma SpacesWrittenOut(c: char)
    ensures IsSpace(c) <==> c as int in SPACES
  {
  }

  // ---------- whole strings ----------

  function Map(f: char -> char, s: string): (r: string)
    ensures |r| == |s|
    ensures forall i :: 0 <= i < |s| ==> r[i] == f(s[i])
  {
    if s == [] then [] else [f(s[0])] + Map(f, s[1..])
  }

  function ToLower(s: string): string { Map(LowerChar, s) }

  function ToUpper(s: string): string { Map(UpperChar, s) }

  lemma {:induction false} MapConcat(f: char -> char, a: string, b: string)
    ensures Map(f, a + b) == Map(f, a) + Map(f, b)
  {
    assert Map(f, a + b) == Map(f, a) + Map(f, b);
  }

  function TrimStart(s: string): string {
    if s != [] && IsSpace(s[0]) then TrimStart(s[1..]) else s
  }

  function TrimEnd(s: string): string {
    if s != [] && IsSpace(s[|s| - 1]) then TrimEnd(s[..|s| - 1]) else s
  }

  function Trim(s: string): string { TrimEnd(TrimStart(s)) }

  predicate Trimmed(s: string) {
    s == [] || (!IsSpace(s[0]) && !IsSpace(s[|s| - 1]))
  }

  lemma {:induction false} TrimEndKeepsFront(s: string)
    ensures TrimEnd(s) == [] || (s != [] && TrimEnd(s)[0] == s[0])
    ensures TrimEnd(s) == [] || !IsSpace(TrimEnd(s)[|TrimEnd(s)| - 1])
  {
    if s != [] && IsSpace(s[|s| - 1]) {
      TrimEndKeepsFront(s[..|s| - 1]);
    }
  }

  lemma {:induction false} TrimStartFront(s: string)
    ensures TrimStart(s) == [] || !IsSpace(TrimStart(s)[0])
  {
    if s != [] && IsSpace(s[0]) {
      TrimStartFront(s[1..]);
    }
  }

  /** `trim` leaves no white space at either end, and a trimmed string is a fixed point. */
  lemma TrimIsTrimmed(s: string)
    ensures Trimmed(Trim(s))
    ensures Trimmed(s) ==> Trim(s) == s
  {
    TrimStartFront(s);
    TrimEndKeepsFront(TrimStart(s));
  }

  predicate AllSpace(s: string) { forall c :: c in s ==> IsSpace(c) }

  /** `trim` takes off exactly the white space around a trimmed middle. */
  lemma {:induction false} TrimTakesOff(front: string, middle: string, back: string)
    requires AllSpace(front) && Trimmed(middle) && AllSpace(back)
    ensures Trim(front + middle + back) == middle
    decreases |front| + |back|
  {
    var s := front + middle + back;
    if front != [] {
      assert front[0] in front && s[0] == front[0];
      assert s[1..] == front[1..] + middle + back;
      TrimTakesOff(front[1..], middle, back);
    } else if back != [] && middle != [] {
      var shorter := middle + back[..|back| - 1];
      assert s[0] == middle[0] && TrimStart(s) == s && TrimStart(shorter) == shorter;
      assert back[|back| - 1] in back && s[|s| - 1] == back[|back| - 1];
      assert s[..|s| - 1] == shorter && [] + middle + back[..|back| - 1] == shorter;
      TrimTakesOff([], middle, back[..|back| - 1]);
    } else if back != [] {
      assert back[0] in back && s == back && s[1..] == [] + middle + back[1..];
      TrimTakesOff([], middle, back[1..]);
    } else {
      assert s == middle;
      TrimIsTrimmed(middle);
    }
  }

  // ---------- global replacement of runs ----------

  /** Length of the run of characters of a class that a string starts with. */
  function RunLength(s: string, p: char -> bool): (n: nat)
    ensures n <= |s|
  {
    if s != [] && p(s[0]) then 1 + RunLength(s[1..], p) else 0
  }

  /** `replace(/p+/g, c)`: a scan that steps over each maximal run. */
  function ReplaceRuns(s: string, p: char -> bool, c: char): string
    decreases |s|
  {
    if s == [] then []
    else if p(s[0]) then [c] + ReplaceRuns(s[RunLength(s, p)..], p, c)
    else [s[0]] + ReplaceRuns(s[1..], p, c)
  }

  // ---------- split and join ----------

  predicate Free(s: string, sep: char) { sep !in s }

  function Split(s: string, sep: char): (parts: seq<string>)
    ensures parts != []
  {
    if s == [] then [[]]
    else if s[0] == sep then [[]] + Split(s[1..], sep)
    else
      var rest := Split(s[1..], sep);
      [[s[0]] + rest[0]] + rest[1..]
  }

  function Join(parts: seq<string>, sep: char): string {
    if parts == [] then []
    else if |parts| == 1 then parts[0]
    else parts[0] + [sep] + Join(parts[1..], sep)
  }

  /** Splitting in front of a separator. */
  lemma {:induction false} SplitFirst(a: string, b: string, sep: char)
    requires Free(a, sep)
    ensures Split(a + [sep] + b, sep) == [a] + Split(b, sep)
  {
    var s := a + [sep] + b;
    if a == [] {
      assert s[1..] == b;
    } else {
      SplitFirst(a[1..], b, sep);
      assert s[1..] == a[1..] + [sep] + b;
      assert [a[0]] + a[1..] == a;
    }
  }

  lemma {:induction false} SplitFree(a: string, sep: char)
    requires Free(a, sep)
    ensures Split(a, sep) == [a]
  {
    if a != [] {
      SplitFree(a[1..], sep);
      assert [a[0]] + a[1..] == a;
    }
  }

  /** `split` undoes `join` on separator-free parts. */
  lemma {:induction false} SplitJoin(parts: seq<string>, sep: char)
    requires parts != []
    requires forall p :: p in parts ==> Free(p, sep)
    ensures Split(Join(parts, sep), sep) == parts
  {
    if |parts| == 1 {
      SplitFree(parts[0], sep);
    } else {
      SplitJoin(parts[1..], sep);
      SplitFirst(parts[0], Join(parts[1..], sep), sep);
      assert [parts[0]] + parts[1..] == parts;
    }
  }

  lemma {:induction false} JoinSplit(s: string, sep: char)
    ensures Join(Split(s, sep), sep) == s
    ensures forall p :: p in Split(s, sep) ==> Free(p, sep)
  {
    if s != [] {
      JoinSplit(s[1..], sep);
      var rest := Split(s[1..], sep);
      assert s == [s[0]] + s[1..];
      if s[0] == sep {
        assert Split(s, sep)[1..] == rest;
      } else {
        assert rest[0] in rest;
        JoinHead(s[0], rest, sep);
      }
    }
  }

  lemma JoinHead(c: char, parts: seq<string>, sep: char)
    requires parts != []
    ensures Join([[c] + parts[0]] + parts[1..], sep) == [c] + Join(parts, sep)
  {
    var longer := [[c] + parts[0]] + parts[1..];
    assert longer[1..] == parts[1..];
    if |parts| > 1 {
      var tail := [sep] + Join(parts[1..], sep);
      assert Join(longer, sep) == ([c] + parts[0]) + tail;
      assert Join(parts, sep) == parts[0] + tail;
    }
  }

  /** Splitting a string joined from two halves splits each half. */
  lemma {:induction false} SplitConcat(a: string, b: string, sep: char)
    ensures Split(a + ([sep] + b), sep) == Split(a, sep) + Split(b, sep)
  {
    var s := a + ([sep] + b);
    var back := Split(b, sep);
    if a == [] {
      assert s == [sep] + b;
      assert s[1..] == b;
    } else {
      SplitConcat(a[1..], b, sep);
      var front := Split(a[1..], sep);
      assert s[0] == a[0] && s[1..] == a[1..] + ([sep] + b);
      if a[0] == sep {
        assert [[]] + (front + back) == ([[]] + front) + back;
      } else {
        ConsConcat([[a[0]] + front[0]], front, back);
      }
    }
  }

  lemma ConsConcat(head: seq<string>, front: seq<string>, back: seq<string>)
    requires front != []
    ensures (front + back)[0] == front[0]
    ensures head + (front + back)[1..] == head + front[1..] + back
  {
    assert (front + back)[1..] == front[1..] + back;
  }

  // ---------- the order of strings ----------

  /** `a < b` on strings: the first difference decides, and a proper prefix comes first. */
  predicate Less(a: string, b: string) {
    b != [] && (a == [] || a[0] < b[0] || (a[0] == b[0] && Less(a[1..], b[1..])))
  }

  predicate DifferFirstAt(a: string, b: string, k: nat) {
    k < |a| && k < |b| && a[..k] == b[..k] && a[k] != b[k]
  }

  /** That is: a is a proper prefix of b, or has the smaller character where they first differ. */
  lemma {:induction false} LessMeans(a: string, b: string)
    ensures Less(a, b) <==>
            (a <= b && a != b) || exists k: nat :: DifferFirstAt(a, b, k) && a[k] < b[k]
  {
    if a != [] && b != [] && a[0] == b[0] {
      LessMeans(a[1..], b[1..]);
      assert a == [a[0]] + a[1..] && b == [b[0]] + b[1..];
      if k: nat :| DifferFirstAt(a[1..], b[1..], k) && a[1..][k] < b[1..][k] {
        assert a[..k + 1] == [a[0]] + a[1..][..k] && b[..k + 1] == [b[0]] + b[1..][..k];
        assert DifferFirstAt(a, b, k + 1);
      }
      if k: nat :| DifferFirstAt(a, b, k) && a[k] < b[k] {
        assert a[1..][..k - 1] == a[..k][1..] && b[1..][..k - 1] == b[..k][1..];
        assert DifferFirstAt(a[1..], b[1..], k - 1);
      }
    } else if a != [] && b != [] {
      if a[0] < b[0] {
        assert DifferFirstAt(a, b, 0);
      }
      if k: nat :| DifferFirstAt(a, b, k) && a[k] < b[k] {
        SameBefore(a, b, k);
      }
    }
  }

  lemma SameBefore(a: string, b: string, k: nat)
    requires DifferFirstAt(a, b, k)
    ensures k > 0 ==> a[0] == b[0]
  {
    assert k > 0 ==> a[..k][0] == a[0] && b[..k][0] == b[0];
  }

  lemma {:induction false} LessTotal(a: string, b: string)
    ensures Less(a, b) || Less(b, a) || a == b
    ensures !(Less(a, b) && Less(b, a))
    ensures !Less(a, a)
  {
    if a != [] {
      LessTotal(a[1..], a[1..]);
      if b != [] {
        LessTotal(a[1..], b[1..]);
        assert a == [a[0]] + a[1..] && b == [b[0]] + b[1..];
      }
    }
  }

  lemma {:induction false} LessTransitive(a: string, b: string, c: string)
    requires Less(a, b) && Less(b, c)
    ensures Less(a, c)
  {
    if a != [] && a[0] == b[0] == c[0] {
      LessTransitive(a[1..], b[1..], c[1..]);
    }
  }

  /** Strings whose equally long heads differ are ordered by the heads alone. */
  lemma {:induction false} LessByHead(a: string, b: string, x: string, y: string)
    requires |a| == |b|
    ensures a != b ==> (Less(a + x, b + y) <==> Less(a, b))
    ensures a == b ==> (Less(a + x, b + y) <==> Less(x, y))
  {
    if a == [] {
      assert a + x == x && b + y == y;
    } else {
      LessByHead(a[1..], b[1..], x, y);
      assert (a + x)[1..] == a[1..] + x && (b + y)[1..] == b[1..] + y;
      assert a == [a[0]] + a[1..] && b == [b[0]] + b[1..];
    }
  }
}
