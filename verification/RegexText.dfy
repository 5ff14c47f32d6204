/**
 * The text a `like` filter sends to Mongo: parentheses escaped, and each vowel or `c` widened to
 * a class of its accented forms by six passes over the string.
 */
module RegexText {
  import opened Wrappers
  import opened JsString

  /** `replace(/c/g, by)`: one scan, every occurrence. */
  function ReplaceAll(s: string, c: char, repl: string): string {
    if s == [] then [] else (if s[0] == c then repl else [s[0]]) + ReplaceAll(s[1..], c, repl)
  }

  /** `replace('c', by)`: the first occurrence only. */
  function ReplaceFirst(s: string, c: char, repl: string): string {
    if s == [] then []
    else if s[0] == c then repl + s[1..]
    else [s[0]] + ReplaceFirst(s[1..], c, repl)
  }

  function EscapeParentheses(s: string): string {
    ReplaceFirst(ReplaceFirst(s, '(', "\\("), ')', "\\)")
  }

  /** The text between the brackets of each class: the forms with a comma between any two. */
  function Listed(c: char): string {
    match c
    case 'a' => "a,\U{E1},\U{E0},\U{E4},\U{E2},\U{E3}"
    case 'e' => "e,\U{E9},\U{EB},\U{E8},\U{EA}"
    case 'i' => "i,\U{ED},\U{EF},\U{EC},\U{EE}"
    case 'o' => "o,\U{F3},\U{F6},\U{F2},\U{F4}"
    case 'c' => "c,\U{E7}"
    case 'u' => "u,\U{FC},\U{FA},\U{F9}"
    case _ => ""
  }

  function Class(c: char): string { "[" + Listed(c) + "]" }

  function Pass(s: string, c: char): string { ReplaceAll(s, c, Class(c)) }

  function Diacritic(s: string): string {
    Pass(Pass(Pass(Pass(Pass(Pass(s, 'a'), 'e'), 'i'), 'o'), 'c'), 'u')
  }

  function CreateRegexFilterText(s: string): string {
    Diacritic(EscapeParentheses(s))
  }

  // ---------- one simultaneous pass ----------

  predicate Covered(c: char) { c == 'a' || c == 'e' || c == 'i' || c == 'o' || c == 'c' || c == 'u' }

  function Widen(s: string): string {
    if s == [] then [] else (if Covered(s[0]) then Class(s[0]) else [s[0]]) + Widen(s[1..])
  }

  lemma {:induction false} PassConcat(a: string, b: string, c: char)
    ensures Pass(a + b, c) == Pass(a, c) + Pass(b, c)
  {
    hide Class;
    if a == [] {
      assert a + b == b;
    } else {
      PassConcat(a[1..], b, c);
      var head := if a[0] == c then Class(c) else [a[0]];
      var x, y := Pass(a[1..], c), Pass(b, c);
      assert (a + b)[0] == a[0] && (a + b)[1..] == a[1..] + b;
      assert Pass(a + b, c) == head + (x + y);
      assert Pass(a, c) == head + x;
      assert head + (x + y) == (head + x) + y;
    }
  }

  lemma {:induction false} PassFree(s: string, c: char)
    requires Free(s, c)
    ensures Pass(s, c) == s
  {
    if s != [] {
      PassFree(s[1..], c);
    }
  }

  lemma DiacriticConcat(a: string, b: string)
    ensures Diacritic(a + b) == Diacritic(a) + Diacritic(b)
  {
    hide Pass;
    PassConcat(a, b, 'a');
    var a1, b1 := Pass(a, 'a'), Pass(b, 'a');
    PassConcat(a1, b1, 'e');
    var a2, b2 := Pass(a1, 'e'), Pass(b1, 'e');
    PassConcat(a2, b2, 'i');
    var a3, b3 := Pass(a2, 'i'), Pass(b2, 'i');
    PassConcat(a3, b3, 'o');
    var a4, b4 := Pass(a3, 'o'), Pass(b3, 'o');
    PassConcat(a4, b4, 'c');
    PassConcat(Pass(a4, 'c'), Pass(b4, 'c'), 'u');
  }

  lemma ClassesDoNotInterfere(c: char, d: char)
    requires Covered(c) && Covered(d) && c != d
    ensures Free(Class(c), d)
  {
  }

  lemma PassOne(c: char, d: char)
    ensures Pass([c], d) == if c == d then Class(c) else [c]
  {
    var s := [c];
    assert Pass(s, d) == (if c == d then Class(c) else s) + ReplaceAll(s[1..], d, Class(d));
    assert s[1..] == [];
  }

  lemma DiacriticOne(c: char)
    ensures Diacritic([c]) == if Covered(c) then Class(c) else [c]
  {
    hide Pass, Class;
    var s0 := [c];
    var s1 := Pass(s0, 'a');
    var s2 := Pass(s1, 'e');
    var s3 := Pass(s2, 'i');
    var s4 := Pass(s3, 'o');
    var s5 := Pass(s4, 'c');
    OneStep(c, s0, 'a', false);
    OneStep(c, s1, 'e', c == 'a');
    OneStep(c, s2, 'i', c == 'a' || c == 'e');
    OneStep(c, s3, 'o', c == 'a' || c == 'e' || c == 'i');
    OneStep(c, s4, 'c', c == 'a' || c == 'e' || c == 'i' || c == 'o');
    OneStep(c, s5, 'u', c == 'a' || c == 'e' || c == 'i' || c == 'o' || c == 'c');
  }

  /** A pass leaves an already widened letter alone and widens its own letter. */
  lemma OneStep(c: char, s: string, d: char, widened: bool)
    requires Covered(d) && (widened ==> Covered(c) && c != d)
    requires s == if widened then Class(c) else [c]
    ensures Pass(s, d) == if widened || c == d then Class(c) else [c]
  {
    if widened {
      ClassesDoNotInterfere(c, d);
      PassFree(s, d);
    } else {
      PassOne(c, d);
    }
  }

  /** The six passes in sequence are one simultaneous expansion. */
  lemma {:induction false} PassesAreSimultaneous(s: string)
    ensures Diacritic(s) == Widen(s)
  {
    hide Diacritic;
    if s == [] {
      NothingToWiden();
    } else {
      PassesAreSimultaneous(s[1..]);
      assert s == [s[0]] + s[1..];
      DiacriticConcat([s[0]], s[1..]);
      DiacriticOne(s[0]);
    }
  }

  lemma NothingToWiden()
    ensures Diacritic([]) == []
  {
  }

  // ---------- what the pattern matches ----------

  /** The characters that mean something in a pattern. */
  predicate IsMeta(c: char) { c in "\\^$.|?*+()[]{}" }

  /** A pattern without repetition: per position, the characters allowed there. */
  type Items = seq<set<char>>

  function CloseAt(p: string): (n: nat)
    ensures n <= |p|
    ensures n < |p| ==> p[n] == ']'
  {
    if p == [] || p[0] == ']' then 0 else 1 + CloseAt(p[1..])
  }

  /** The inside of a class that lists its characters one by one. */
  predicate IsListing(inside: string) {
    inside != [] && forall c :: c in inside ==> !IsMeta(c) && c != '-'
  }

  /**
   * Reads literals, escaped characters, classes, and groups, which without repetition stand for
   * what is inside them; `depth` groups are open. None for anything else.
   */
  function Read(p: string, depth: nat): Option<Items>
    decreases |p|
  {
    if p == [] then if depth == 0 then Some([]) else None
    else if p[0] == '[' then
      var n := CloseAt(p[1..]);
      if n == |p| - 1 || !IsListing(p[1..n + 1]) then None
      else
        var inside, rest := p[1..n + 1], Read(p[n + 2..], depth);
        if rest.None? then None else Some([set c | c in inside] + rest.value)
    else if p[0] == '\\' then
      if |p| == 1 || !IsMeta(p[1]) then None
      else
        var rest := Read(p[2..], depth);
        if rest.None? then None else Some([{p[1]}] + rest.value)
    else if p[0] == '(' then Read(p[1..], depth + 1)
    else if p[0] == ')' then if depth == 0 then None else Read(p[1..], depth - 1)
    else if IsMeta(p[0]) then None
    else
      var rest := Read(p[1..], depth);
      if rest.None? then None else Some([{p[0]}] + rest.value)
  }

  /** A match of the whole string, letter by letter. */
  predicate Matches(items: Items, s: string) {
    |s| == |items| && forall i :: 0 <= i < |s| ==> s[i] in items[i]
  }

  /** As the `i` option compares: some character of the set and c fold alike. */
  predicate InFolded(fold: char -> char, chars: set<char>, c: char) {
    exists x :: x in chars && fold(x) == fold(c)
  }

  predicate MatchesFrom(fold: char -> char, items: Items, s: string, k: nat) {
    k + |items| <= |s| && forall i :: 0 <= i < |items| ==> InFolded(fold, items[i], s[k + i])
  }

  /** What `$regex` asks of a text: a match somewhere in it, under the case folding. */
  predicate Finds(fold: char -> char, items: Items, s: string) {
    exists k :: 0 <= k <= |s| && MatchesFrom(fold, items, s, k)
  }

  /** The characters accepted where the text has c: its listed forms, and, as listed, a comma. */
  function Accepted(c: char): set<char> {
    if Covered(c) then set x | x in Listed(c) else {c}
  }

  /** The forms written out by code point; 44 is the comma, which each class lists too. */
  function FormsOf(c: char): set<int> {
    match c
    case 'a' => {97, 0xE1, 0xE0, 0xE4, 0xE2, 0xE3, 44}
    case 'e' => {101, 0xE9, 0xEB, 0xE8, 0xEA, 44}
    case 'i' => {105, 0xED, 0xEF, 0xEC, 0xEE, 44}
    case 'o' => {111, 0xF3, 0xF6, 0xF2, 0xF4, 44}
    case 'c' => {99, 0xE7, 44}
    case 'u' => {117, 0xFC, 0xFA, 0xF9, 44}
    case _ => {c as int}
  }

  lemma AcceptedWrittenOut(c: char, x: char)
    ensures x in Accepted(c) <==> x as int in FormsOf(c)
  {
  }

  /** The special characters of a pattern, by code point. */
  lemma MetaWrittenOut(c: char)
    ensures IsMeta(c) <==> c as int in {92, 94, 36, 46, 124, 63, 42, 43, 40, 41, 91, 93, 123, 125}
  {
  }

  function AcceptedItems(t: string): Items {
    if t == [] then [] else [Accepted(t[0])] + AcceptedItems(t[1..])
  }

  lemma {:induction false} AcceptedItemsAt(t: string)
    ensures |AcceptedItems(t)| == |t|
    ensures forall i :: 0 <= i < |t| ==> AcceptedItems(t)[i] == Accepted(t[i])
  {
    if t != [] {
      AcceptedItemsAt(t[1..]);
    }
  }

  lemma {:induction false} CloseOfClass(l: string, rest: string)
    requires Free(l, ']')
    ensures CloseAt(l + "]" + rest) == |l|
  {
    if l != [] {
      CloseOfClass(l[1..], rest);
      assert (l + "]" + rest)[1..] == l[1..] + "]" + rest;
    }
  }

  lemma ListedListing(c: char)
    requires Covered(c)
    ensures IsListing(Listed(c)) && Free(Listed(c), ']')
  {
    hide IsMeta, Listed;
    ListedChars(c);
    forall x | x in Listed(c) ensures !IsMeta(x) && x != '-' && x != ']' {
      NotMeta(x);
    }
  }

  predicate IsListedChar(x: char) { IsLower(x) || x == ',' || x >= '\U{E0}' }

  lemma ListedChars(c: char)
    requires Covered(c)
    ensures Listed(c) != [] && forall x :: x in Listed(c) ==> IsListedChar(x)
  {
  }

  lemma NotMeta(x: char)
    requires IsListedChar(x)
    ensures !IsMeta(x) && x != '-' && x != ']'
  {
  }

  lemma ReadClass(c: char, rest: string, depth: nat)
    requires Covered(c)
    ensures Read(Class(c) + rest, depth) ==
            if Read(rest, depth).None? then None else Some([Accepted(c)] + Read(rest, depth).value)
  {
    hide Listed, IsListing, Covered;
    var l := Listed(c);
    var p := Class(c) + rest;
    ListedListing(c);
    CloseOfClass(l, rest);
    var tail := l + "]" + rest;
    assert p == "[" + tail;
    assert p[0] == '[' && p[1..] == tail;
    assert |p| == |l| + 2 + |rest|;
    assert tail[..|l|] == l && tail[|l| + 1..] == rest;
    assert p[1..|l| + 1] == tail[..|l|];
    assert p[|l| + 2..] == tail[|l| + 1..];
  }

  // ---------- escaping the first parenthesis of each kind ----------

  /** What escaping does, character by character: `open` and `close` say what was seen before. */
  function Escaped(t: string, open: bool, close: bool): string {
    if t == [] then []
    else if t[0] == '(' && !open then "\\(" + Escaped(t[1..], true, close)
    else if t[0] == ')' && !close then "\\)" + Escaped(t[1..], open, true)
    else [t[0]] + Escaped(t[1..], open, close)
  }

  function FirstUnless(s: string, c: char, repl: string, done: bool): string {
    if done then s else ReplaceFirst(s, c, repl)
  }

  lemma {:induction false} EscapesTheFirst(t: string, open: bool, close: bool)
    ensures FirstUnless(FirstUnless(t, '(', "\\(", open), ')', "\\)", close) == Escaped(t, open, close)
  {
    if t != [] {
      var head, rest := [t[0]], t[1..];
      var inner := FirstUnless(t, '(', "\\(", open);
      assert t == head + rest;
      if t[0] == '(' && !open {
        assert inner == "\\(" + rest && inner[0] == '\\' && inner[1] == '(' && inner[1..][1..] == rest;
        EscapesTheFirst(rest, true, close);
        if !close {
          var outer := ReplaceFirst(rest, ')', "\\)");
          assert ReplaceFirst(inner[1..], ')', "\\)") == ['('] + outer;
          assert ReplaceFirst(inner, ')', "\\)") == ['\\'] + (['('] + outer) == "\\(" + outer;
        }
      } else if t[0] == ')' && !close {
        assert inner[0] == ')' && inner[1..] == FirstUnless(rest, '(', "\\(", open);
        EscapesTheFirst(rest, open, true);
      } else {
        assert inner[0] == t[0] && inner[1..] == FirstUnless(rest, '(', "\\(", open);
        EscapesTheFirst(rest, open, close);
      }
    }
  }

  function Count(t: string, c: char): nat {
    if t == [] then 0 else (if t[0] == c then 1 else 0) + Count(t[1..], c)
  }

  /** Text whose only special characters are parentheses. */
  predicate Plain(t: string) { forall c :: c in t && IsMeta(c) ==> c == '(' || c == ')' }

  function Budget(seen: bool): nat { if seen then 0 else 1 }

  lemma WidenEscape(c: char, rest: string)
    requires c == '(' || c == ')'
    ensures Widen(['\\', c] + rest) == ['\\', c] + Widen(rest)
  {
    var p := ['\\', c] + rest;
    assert p[1..] == [c] + rest && p[1..][1..] == rest;
  }

  /** The parentheses that escaping passes over open and close groups correctly. */
  predicate Balanced(t: string, open: bool, close: bool, depth: nat) {
    if t == [] then depth == 0
    else if t[0] == '(' && open then Balanced(t[1..], open, close, depth + 1)
    else if t[0] == ')' && close then depth > 0 && Balanced(t[1..], open, close, depth - 1)
    else Balanced(t[1..], open || t[0] == '(', close || t[0] == ')', depth)
  }

  /** A parenthesis that is not the first of its kind. */
  predicate IsPassed(c: char, open: bool, close: bool) { (c == '(' && open) || (c == ')' && close) }

  /** The text without the parentheses that escaping passes over. */
  function Kept(t: string, open: bool, close: bool): string {
    if t == [] then []
    else
      (if IsPassed(t[0], open, close) then [] else [t[0]])
      + Kept(t[1..], open || t[0] == '(', close || t[0] == ')')
  }

  /** With at most one of each, nothing is passed over. */
  lemma {:induction false} OneOfEach(t: string, open: bool, close: bool)
    requires Count(t, '(') <= Budget(open) && Count(t, ')') <= Budget(close)
    ensures Balanced(t, open, close, 0) && Kept(t, open, close) == t
  {
    if t != [] {
      OneOfEach(t[1..], open || t[0] == '(', close || t[0] == ')');
      assert t == [t[0]] + t[1..];
    }
  }

  /** One character of the three scans. */
  lemma TextStep(t: string, open: bool, close: bool, depth: nat)
    requires t != []
    ensures var c, rest, open', close' := t[0], t[1..], open || t[0] == '(', close || t[0] == ')';
            var passed := IsPassed(c, open, close);
            && Escaped(t, open, close) ==
               (if (c == '(' || c == ')') && !passed then ['\\', c] else [c]) + Escaped(rest, open', close')
            && Kept(t, open, close) == (if passed then Kept(rest, open', close') else [c] + Kept(rest, open', close'))
            && (Balanced(t, open, close, depth) <==>
                if !passed then Balanced(rest, open', close', depth)
                else if c == '(' then Balanced(rest, open', close', depth + 1)
                else depth > 0 && Balanced(rest, open', close', depth - 1))
  {
    if IsPassed(t[0], open, close) {
      assert [] + Kept(t[1..], open, close) == Kept(t[1..], open, close);
    }
  }

  /** The escaped text reads back as the kept text, exactly while the passed parentheses balance. */
  lemma {:induction false} PatternReads(t: string, open: bool, close: bool, depth: nat)
    requires Plain(t)
    ensures Read(Widen(Escaped(t, open, close)), depth) ==
            if Balanced(t, open, close, depth) then Some(AcceptedItems(Kept(t, open, close))) else None
  {
    if t == [] {
      NothingReads(open, close, depth);
    } else {
      hide *;
      var c, rest := t[0], t[1..];
      var open', close' := open || c == '(', close || c == ')';
      var e, kept := Escaped(rest, open', close'), Kept(rest, open', close');
      PlainHead(t);
      TextStep(t, open, close, depth);
      if !IsPassed(c, open, close) {
        PatternReads(rest, open', close', depth);
        AcceptedHead(c, kept);
        ReadKept(c, e, depth);
      } else {
        PassedIsParenthesis(c, open, close);
        ReadHead(c, e, depth);
        if c == '(' {
          PatternReads(rest, open', close', depth + 1);
        } else if depth > 0 {
          PatternReads(rest, open', close', depth - 1);
        }
      }
    }
  }

  lemma NothingReads(open: bool, close: bool, depth: nat)
    ensures Read(Widen(Escaped([], open, close)), depth) ==
            if Balanced([], open, close, depth) then Some(AcceptedItems(Kept([], open, close))) else None
  {
  }

  lemma PlainHead(t: string)
    requires Plain(t) && t != []
    ensures Plain(t[1..]) && (IsMeta(t[0]) ==> t[0] == '(' || t[0] == ')')
  {
    hide IsMeta;
    assert t[0] in t && forall c :: c in t[1..] ==> c in t;
  }

  lemma PassedIsParenthesis(c: char, open: bool, close: bool)
    requires IsPassed(c, open, close)
    ensures c == '(' || c == ')'
  {
  }

  /** A kept character, escaped if it is a parenthesis, is one position of the pattern. */
  lemma ReadKept(c: char, rest: string, depth: nat)
    requires IsMeta(c) ==> c == '(' || c == ')'
    ensures Read(Widen((if c == '(' || c == ')' then ['\\', c] else [c]) + rest), depth) ==
            if Read(Widen(rest), depth).None? then None else Some([Accepted(c)] + Read(Widen(rest), depth).value)
  {
    hide *;
    if c == '(' || c == ')' {
      WidenEscape(c, rest);
      ReadEscape(c, Widen(rest), depth);
    } else {
      ReadHead(c, rest, depth);
    }
  }

  lemma AcceptedHead(c: char, rest: string)
    ensures AcceptedItems([c] + rest) == [Accepted(c)] + AcceptedItems(rest)
  {
    assert ([c] + rest)[1..] == rest;
  }

  lemma ReadEscape(c: char, rest: string, depth: nat)
    requires c == '(' || c == ')'
    ensures Read(['\\', c] + rest, depth) ==
            if Read(rest, depth).None? then None else Some([Accepted(c)] + Read(rest, depth).value)
  {
    var p := ['\\', c] + rest;
    assert p[0] == '\\' && p[1] == c && p[2..] == rest;
    assert Accepted(c) == {c};
  }

  lemma ReadHead(c: char, rest: string, depth: nat)
    requires IsMeta(c) ==> c == '(' || c == ')'
    ensures Read(Widen([c] + rest), depth) ==
            if c == '(' then Read(Widen(rest), depth + 1)
            else if c == ')' then if depth == 0 then None else Read(Widen(rest), depth - 1)
            else if Read(Widen(rest), depth).None? then None
            else Some([Accepted(c)] + Read(Widen(rest), depth).value)
  {
    var p := [c] + rest;
    assert p[1..] == rest;
    if Covered(c) {
      ReadClass(c, Widen(rest), depth);
    } else {
      assert ([c] + Widen(rest))[1..] == Widen(rest);
    }
  }

  /**
   * For text whose only special characters are parentheses, the pattern is valid exactly when the
   * parentheses after the first of each kind balance, which at most one of each surely does. It
   * matches exactly the strings that have, at each position of the kept text, the same character
   * or, for a covered letter, one of its listed forms or a comma.
   */
  lemma PatternMatchesIff(t: string, v: string)
    requires Plain(t)
    ensures var items, kept := Read(CreateRegexFilterText(t), 0), Kept(t, false, false);
            && (items.Some? <==> Balanced(t, false, false, 0))
            && (Count(t, '(') <= 1 && Count(t, ')') <= 1 ==> items.Some? && kept == t)
            && (items.Some? ==> (Matches(items.value, v) <==>
                  |v| == |kept| && forall i :: 0 <= i < |kept| ==> v[i] in Accepted(kept[i])))
  {
    hide Diacritic, Widen, Read, AcceptedItems, Accepted, Balanced, Kept, Count;
    PatternIsRead(t);
    AcceptedItemsAt(Kept(t, false, false));
  }

  lemma PatternIsRead(t: string)
    requires Plain(t)
    ensures Read(CreateRegexFilterText(t), 0) ==
            if Balanced(t, false, false, 0) then Some(AcceptedItems(Kept(t, false, false))) else None
    ensures Count(t, '(') <= 1 && Count(t, ')') <= 1 ==> Balanced(t, false, false, 0) && Kept(t, false, false) == t
  {
    hide Diacritic, Widen, Read, AcceptedItems, Escaped, ReplaceFirst, Balanced, Kept, Count, Plain;
    EscapesTheFirst(t, false, false);
    PassesAreSimultaneous(EscapeParentheses(t));
    PatternReads(t, false, false, 0);
    if Count(t, '(') <= 1 && Count(t, ')') <= 1 {
      OneOfEach(t, false, false);
    }
  }

  /** From position k on, v has at each position of t a form accepted for it, under the folding. */
  predicate FormsFrom(fold: char -> char, t: string, v: string, k: nat) {
    k + |t| <= |v| && forall i :: 0 <= i < |t| ==> InFolded(fold, Accepted(t[i]), v[k + i])
  }

  /** The texts a `like` filter finds: those that contain, anywhere, a form of the kept text. */
  lemma LikeFindsIff(fold: char -> char, t: string, v: string)
    requires Plain(t) && Balanced(t, false, false, 0)
    ensures var items := Read(CreateRegexFilterText(t), 0);
            && items.Some?
            && (Finds(fold, items.value, v) <==>
                  exists k :: 0 <= k <= |v| && FormsFrom(fold, Kept(t, false, false), v, k))
  {
    hide CreateRegexFilterText, Read, AcceptedItems, Accepted, Balanced, Kept, Count, Plain, InFolded;
    PatternIsRead(t);
    var kept := Kept(t, false, false);
    AcceptedItemsAt(kept);
    forall k: nat ensures MatchesFrom(fold, AcceptedItems(kept), v, k) <==> FormsFrom(fold, kept, v, k) {
    }
  }
}
