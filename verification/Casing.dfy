/** Case conversion of names between `PascalCase` and `snake_case`. */
module Casing {
  import opened Wrappers
  import opened Decimal

  predicate IsUpper(c: char) {
    'A' <= c <= 'Z'
  }

  predicate IsLower(c: char) {
    'a' <= c <= 'z'
  }

  function ToLower(c: char): char {
    if IsUpper(c) then (c as int + 32) as char else c
  }

  function ToUpper(c: char): char {
    if IsLower(c) then (c as int - 32) as char else c
  }

  /** A word begins at an upper-case letter after a lower-case letter or digit, or after an
      upper-case letter when a lower-case one follows. */
  predicate BeginsWord(prev: Option<char>, nextIsLower: bool) {
    prev.Some? && (IsLower(prev.value) || IsDigit(prev.value) || (IsUpper(prev.value) && nextIsLower))
  }

  /** One character converted, with the boundary before it if it has one. */
  function SnakeHead(prev: Option<char>, c: char, nextIsLower: bool): string {
    if IsUpper(c) && BeginsWord(prev, nextIsLower) then ['_', ToLower(c)] else [ToLower(c)]
  }

  function SnakeFrom(prev: Option<char>, s: string): string
    decreases |s|
  {
    if s == "" then "" else SnakeHead(prev, s[0], |s| > 1 && IsLower(s[1])) + SnakeFrom(Some(s[0]), s[1..])
  }

  function Snake(s: string): string {
    SnakeFrom(None, s)
  }

  /** The conversion as a scan over positions. */
  function SnakeScan(s: string, i: nat, prev: Option<char>, out: string): string
    requires i <= |s|
    decreases |s| - i
  {
    if i == |s| then out
    else SnakeScan(s, i + 1, Some(s[i]), out + SnakeHead(prev, s[i], i + 1 < |s| && IsLower(s[i + 1])))
  }

  lemma {:induction false} ScanIsSnake(s: string, i: nat, prev: Option<char>, out: string)
    requires i <= |s|
    ensures SnakeScan(s, i, prev, out) == out + SnakeFrom(prev, s[i..])
    decreases |s| - i
  {
    if i < |s| {
      var head := SnakeHead(prev, s[i], i + 1 < |s| && IsLower(s[i + 1]));
      ScanIsSnake(s, i + 1, Some(s[i]), out + head);
      assert s[i..] == [s[i]] + s[i + 1..];
    }
  }

  method PascalToSnake(s: string) returns (out: string)
    ensures out == Snake(s)
  {
    out := "";
    var prev: Option<char> := None;
    var i := 0;
    while i < |s|
      invariant 0 <= i <= |s| && (prev.Some? ==> out != "")
      invariant SnakeScan(s, i, prev, out) == SnakeScan(s, 0, None, "")
    {
      var ch := s[i];
      i := i + 1;
      if IsUpper(ch) {
        var nextIsLower := i < |s| && IsLower(s[i]);
        var prevNeedsSep := prev.Some? && (
          IsLower(prev.value) || IsDigit(prev.value) || (IsUpper(prev.value) && nextIsLower));
        if out != "" && prevNeedsSep {
          assert out + ['_', ToLower(ch)] == out + ['_'] + [ToLower(ch)];
          out := out + ['_'];
        }
        out := out + [ToLower(ch)];
      } else {
        out := out + [ch];
      }
      prev := Some(ch);
    }
    ScanIsSnake(s, 0, None, "");
    assert s[0..] == s && "" + Snake(s) == Snake(s);
  }

  function PascalFrom(s: string, capitalizeNext: bool): string
    decreases |s|
  {
    if s == "" then ""
    else if s[0] == '_' then PascalFrom(s[1..], true)
    else [if capitalizeNext then ToUpper(s[0]) else s[0]] + PascalFrom(s[1..], false)
  }

  function Pascal(s: string): string {
    PascalFrom(s, true)
  }

  function PascalScan(s: string, i: nat, capitalizeNext: bool, out: string): string
    requires i <= |s|
    decreases |s| - i
  {
    if i == |s| then out
    else if s[i] == '_' then PascalScan(s, i + 1, true, out)
    else PascalScan(s, i + 1, false, out + [if capitalizeNext then ToUpper(s[i]) else s[i]])
  }

  lemma {:induction false} ScanIsPascal(s: string, i: nat, capitalizeNext: bool, out: string)
    requires i <= |s|
    ensures PascalScan(s, i, capitalizeNext, out) == out + PascalFrom(s[i..], capitalizeNext)
    decreases |s| - i
  {
    if i < |s| {
      assert s[i..][1..] == s[i + 1..];
      if s[i] == '_' {
        ScanIsPascal(s, i + 1, true, out);
      } else {
        ScanIsPascal(s, i + 1, false, out + [if capitalizeNext then ToUpper(s[i]) else s[i]]);
      }
    }
  }

  method SnakeToPascal(s: string) returns (out: string)
    ensures out == Pascal(s)
  {
    out := "";
    var capitalizeNext := true;
    var i := 0;
    while i < |s|
      invariant 0 <= i <= |s|
      invariant PascalScan(s, i, capitalizeNext, out) == PascalScan(s, 0, true, "")
    {
      var ch := s[i];
      i := i + 1;
      if ch == '_' {
        capitalizeNext := true;
        continue;
      }
      if capitalizeNext {
        out := out + [ToUpper(ch)];
        capitalizeNext := false;
      } else {
        out := out + [ch];
      }
    }
    ScanIsPascal(s, 0, true, "");
    assert s[0..] == s && "" + Pascal(s) == Pascal(s);
  }

  // ---- snake case is a normal form --------------------------------------------------------------

  predicate NoUpper(s: string) {
    forall i :: 0 <= i < |s| ==> !IsUpper(s[i])
  }

  lemma {:induction false} SnakeHasNoUpper(prev: Option<char>, s: string)
    ensures NoUpper(SnakeFrom(prev, s))
    decreases |s|
  {
    if s != "" {
      SnakeHasNoUpper(Some(s[0]), s[1..]);
    }
  }

  lemma {:induction false} SnakeOfNoUpper(prev: Option<char>, s: string)
    requires NoUpper(s)
    ensures SnakeFrom(prev, s) == s
    decreases |s|
  {
    if s != "" {
      SnakeOfNoUpper(Some(s[0]), s[1..]);
      assert s == [s[0]] + s[1..];
    }
  }

  /** Converting twice is converting once, on every text. */
  lemma SnakeIdempotent(s: string)
    ensures Snake(Snake(s)) == Snake(s)
  {
    SnakeHasNoUpper(None, s);
    SnakeOfNoUpper(None, Snake(s));
  }

  // ---- names made of words ------------------------------------------------------------------------

  /** A lower-case letter, then lower-case letters and digits. */
  predicate Word(w: string) {
    w != "" && IsLower(w[0]) && forall i :: 0 <= i < |w| ==> IsLower(w[i]) || IsDigit(w[i])
  }

  predicate Words(words: seq<string>) {
    forall k :: 0 <= k < |words| ==> Word(words[k])
  }

  function Capital(w: string): string {
    if w == "" then "" else [ToUpper(w[0])] + w[1..]
  }

  /** `_` before each word. */
  function Tail(words: seq<string>): string {
    if words == [] then "" else "_" + words[0] + Tail(words[1..])
  }

  function SnakeName(words: seq<string>): string {
    if words == [] then "" else words[0] + Tail(words[1..])
  }

  function PascalName(words: seq<string>): string {
    if words == [] then "" else Capital(words[0]) + PascalName(words[1..])
  }

  lemma {:induction false} PascalInside(w: string, tail: string)
    requires '_' !in w
    ensures PascalFrom(w + tail, false) == w + PascalFrom(tail, false)
    decreases |w|
  {
    if w == "" {
      assert w + tail == tail && "" + PascalFrom(tail, false) == PascalFrom(tail, false);
    } else {
      assert (w + tail)[1..] == w[1..] + tail;
      PascalInside(w[1..], tail);
      assert [w[0]] + (w[1..] + PascalFrom(tail, false)) == w + PascalFrom(tail, false);
    }
  }

  lemma PascalWord(w: string, tail: string)
    requires Word(w)
    ensures PascalFrom(w + tail, true) == Capital(w) + PascalFrom(tail, false)
  {
    assert (w + tail)[1..] == w[1..] + tail;
    PascalInside(w[1..], tail);
    assert [ToUpper(w[0])] + (w[1..] + PascalFrom(tail, false)) == Capital(w) + PascalFrom(tail, false);
  }

  lemma {:induction false} PascalTail(words: seq<string>)
    requires Words(words)
    ensures PascalFrom(Tail(words), false) == PascalName(words)
    decreases |words|
  {
    if words != [] {
      var rest := Tail(words[1..]);
      assert Tail(words) == "_" + (words[0] + rest) && Tail(words)[1..] == words[0] + rest;
      PascalWord(words[0], rest);
      PascalTail(words[1..]);
    }
  }

  /** A snake-case name becomes its words, each with a capital. */
  lemma PascalOfSnakeName(words: seq<string>)
    requires Words(words)
    ensures Pascal(SnakeName(words)) == PascalName(words)
  {
    if words != [] {
      PascalWord(words[0], Tail(words[1..]));
      PascalTail(words[1..]);
    }
  }

  /** Whether the word boundary before `w` survives, given the character before it. */
  predicate Marked(prev: char, w: string) {
    IsLower(prev) || IsDigit(prev) || (IsUpper(prev) && |w| > 1 && IsLower(w[1]))
  }

  /** What comes after a word in a Pascal-case name: nothing, or an upper-case letter. */
  predicate AtBoundary(tail: string) {
    tail == "" || IsUpper(tail[0])
  }

  lemma {:induction false} SnakeInside(prev: char, w: string, tail: string)
    requires NoUpper(w)
    ensures SnakeFrom(Some(prev), w + tail)
         == w + SnakeFrom(Some(if w == "" then prev else w[|w| - 1]), tail)
    decreases |w|
  {
    if w == "" {
      assert w + tail == tail;
    } else {
      assert w + tail == [w[0]] + (w[1..] + tail);
      SnakeInside(w[0], w[1..], tail);
      assert [w[0]] + (w[1..] + SnakeFrom(Some(w[|w| - 1]), tail)) == w + SnakeFrom(Some(w[|w| - 1]), tail);
    }
  }

  /** The last character of a word with a capital. */
  function LastOf(w: string): char {
    if w == "" then '_' else if |w| == 1 then ToUpper(w[0]) else w[|w| - 1]
  }

  lemma CapitalHead(prev: Option<char>, w: string, next: string)
    requires Word(w) && (|w| > 1 ==> next != "" && next[0] == w[1]) && (|w| == 1 ==> AtBoundary(next))
    ensures SnakeHead(prev, ToUpper(w[0]), next != "" && IsLower(next[0]))
         == if prev.Some? && Marked(prev.value, w) then ['_', w[0]] else [w[0]]
  {
  }

  lemma AfterHead(marked: bool, w: string, after: string)
    requires w != ""
    ensures (if marked then ['_', w[0]] else [w[0]]) + (w[1..] + after) == (if marked then ['_'] + w else w) + after
  {
  }

  lemma SnakeCapital(prev: Option<char>, w: string, tail: string)
    requires Word(w) && AtBoundary(tail)
    ensures SnakeFrom(prev, Capital(w) + tail)
         == (if prev.Some? && Marked(prev.value, w) then ['_'] + w else w) + SnakeFrom(Some(LastOf(w)), tail)
  {
    var c, inner := ToUpper(w[0]), w[1..];
    assert Capital(w) + tail == [c] + (inner + tail);
    assert inner == "" ==> inner + tail == tail;
    CapitalHead(prev, w, inner + tail);
    SnakeInside(c, inner, tail);
    AfterHead(prev.Some? && Marked(prev.value, w), w, SnakeFrom(Some(LastOf(w)), tail));
  }

  predicate TailMarked(prev: char, words: seq<string>)
    decreases |words|
  {
    words == [] || (Marked(prev, words[0]) && TailMarked(LastOf(words[0]), words[1..]))
  }

  /** The words after the first lose exactly their unmarked boundaries. */
  lemma {:induction false} SnakeTail(prev: char, words: seq<string>)
    requires Words(words)
    ensures var snake := SnakeFrom(Some(prev), PascalName(words));
            if TailMarked(prev, words) then snake == Tail(words) else |snake| < |Tail(words)|
    decreases |words|
  {
    if words != [] {
      var w, rest := words[0], words[1..];
      SnakeTail(LastOf(w), rest);
      SnakeCapital(Some(prev), w, PascalName(rest));
    }
  }

  /** The boundary between two words is kept: the first has two characters, or the second has
      a lower-case letter second. */
  predicate Keeps(before: string, w: string) {
    |before| > 1 || (|w| > 1 && IsLower(w[1]))
  }

  predicate AllKept(words: seq<string>) {
    forall k {:trigger words[k]} :: 0 < k < |words| ==> Keeps(words[k - 1], words[k])
  }

  lemma AllKeptCons(w: string, rest: seq<string>)
    ensures AllKept([w] + rest) <==> (rest == [] || (Keeps(w, rest[0]) && AllKept(rest)))
  {
    var words := [w] + rest;
    assert forall k :: 0 <= k < |rest| ==> words[k + 1] == rest[k];
    if AllKept(words) && rest != [] {
      assert Keeps(words[0], words[1]);
      forall k {:trigger rest[k]} | 0 < k < |rest| ensures Keeps(rest[k - 1], rest[k]) {
        assert Keeps(words[k], words[k + 1]);
      }
    }
  }

  lemma {:induction false} MarkedIffKept(w: string, rest: seq<string>)
    requires Word(w) && Words(rest)
    ensures TailMarked(LastOf(w), rest) <==> AllKept([w] + rest)
    decreases |rest|
  {
    AllKeptCons(w, rest);
    if rest != [] {
      MarkedIffKept(rest[0], rest[1..]);
      assert rest == [rest[0]] + rest[1..];
      assert Marked(LastOf(w), rest[0]) <==> Keeps(w, rest[0]);
    }
  }

  /** Going to snake case keeps the name's words apart exactly when no boundary is lost, and
      otherwise yields a shorter text. */
  lemma SnakeOfPascalName(words: seq<string>)
    requires Words(words)
    ensures var snake := Snake(PascalName(words));
            if AllKept(words) then snake == SnakeName(words) else |snake| < |SnakeName(words)|
  {
    if words != [] {
      var w, rest := words[0], words[1..];
      assert words == [w] + rest;
      SnakeTail(LastOf(w), rest);
      SnakeCapital(None, w, PascalName(rest));
      MarkedIffKept(w, rest);
    }
  }

  function Count(s: string, p: char -> bool): nat {
    if s == "" then 0 else (if p(s[0]) then 1 else 0) + Count(s[1..], p)
  }

  function Underscores(s: string): nat {
    Count(s, c => c == '_')
  }

  function Capitals(s: string): nat {
    Count(s, IsUpper)
  }

  lemma {:induction false} CountAppend(a: string, b: string, p: char -> bool)
    ensures Count(a + b, p) == Count(a, p) + Count(b, p)
    decreases |a|
  {
    if a == "" {
      assert a + b == b;
    } else {
      assert (a + b)[1..] == a[1..] + b;
      CountAppend(a[1..], b, p);
    }
  }

  lemma {:induction false} CountNone(s: string, p: char -> bool)
    requires forall i :: 0 <= i < |s| ==> !p(s[i])
    ensures Count(s, p) == 0
  {
    if s != "" {
      CountNone(s[1..], p);
    }
  }

  /** Going to Pascal case drops the underscores and sets one capital for each at most. */
  lemma {:induction false} PascalCounts(s: string, capitalizeNext: bool)
    requires NoUpper(s)
    ensures |PascalFrom(s, capitalizeNext)| + Underscores(s) == |s|
    ensures Capitals(PascalFrom(s, capitalizeNext)) <= Underscores(s) + if capitalizeNext then 1 else 0
    decreases |s|
  {
    if s != "" {
      var next := PascalFrom(s[1..], s[0] == '_');
      PascalCounts(s[1..], s[0] == '_');
      if s[0] != '_' {
        var c := if capitalizeNext then ToUpper(s[0]) else s[0];
        assert ([c] + next)[1..] == next;
      }
    }
  }

  lemma {:induction false} NameCounts(words: seq<string>)
    requires Words(words)
    ensures Capitals(PascalName(words)) == |words|
    ensures |Tail(words)| == |PascalName(words)| + |words|
    decreases |words|
  {
    if words != [] {
      var w := words[0];
      NameCounts(words[1..]);
      CountAppend(Capital(w), PascalName(words[1..]), IsUpper);
      CountNone(w[1..], IsUpper);
      assert Capital(w)[1..] == w[1..];
    }
  }

  /** A name that loses a boundary in snake case does not come back. */
  lemma LostIsLost(words: seq<string>)
    requires Words(words) && words != [] && |Snake(PascalName(words))| < |SnakeName(words)|
    ensures Pascal(Snake(PascalName(words))) != PascalName(words)
  {
    SnakeHasNoUpper(None, PascalName(words));
    PascalCounts(Snake(PascalName(words)), true);
    NameCounts(words);
    NameCounts(words[1..]);
  }

  /** The conversions undo each other on a name exactly when no boundary is lost. */
  lemma CasesInvertIff(words: seq<string>)
    requires Words(words)
    ensures Snake(Pascal(SnakeName(words))) == SnakeName(words) <==> AllKept(words)
    ensures Pascal(Snake(PascalName(words))) == PascalName(words) <==> AllKept(words)
  {
    PascalOfSnakeName(words);
    SnakeOfPascalName(words);
    if !AllKept(words) {
      LostIsLost(words);
    }
  }

  /** They undo each other on every name whose words have at least two characters. */
  lemma LongWordsInvert(words: seq<string>)
    requires Words(words) && forall k :: 0 <= k < |words| ==> |words[k]| >= 2
    ensures Snake(Pascal(SnakeName(words))) == SnakeName(words)
    ensures Pascal(Snake(PascalName(words))) == PascalName(words)
  {
    CasesInvertIff(words);
  }
}
