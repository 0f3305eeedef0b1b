/** The bracket- and quote-aware text scanners shared by the type and decorator parsers. */
module Decorators {
  import opened Wrappers
  import opened Text

  /** Where a scan is: how many groups are open, and whether it is inside a double-quoted string. */
  datatype Lex = Lex(depth: int, inString: bool, escaped: bool)

  const START := Lex(0, false, false)

  function Step(st: Lex, c: char): Lex {
    if st.inString then
      if st.escaped then st.(escaped := false)
      else if c == '\\' then st.(escaped := true)
      else if c == '"' then st.(inString := false)
      else st
    else if c == '"' then st.(inString := true)
    else if c == '(' || c == '[' then st.(depth := st.depth + 1)
    else if c == ')' || c == ']' then st.(depth := st.depth - 1)
    else st
  }

  function Run(st: Lex, s: string): Lex
    decreases |s|
  {
    if s == "" then st else Run(Step(st, s[0]), s[1..])
  }

  /** The character that closes the outermost group. */
  predicate Closes(st: Lex, c: char) {
    !st.inString && (c == ')' || c == ']') && st.depth == 1
  }

  /** The text after the first character that closes the outermost group. */
  function AfterGroup(s: string, st: Lex): (after: Option<string>)
    ensures after.Some? ==> |after.value| < |s|
    decreases |s|
  {
    if s == "" then None
    else if Closes(st, s[0]) then Some(s[1..])
    else AfterGroup(s[1..], Step(st, s[0]))
  }

  lemma GroupAt(text: string, i: nat, st: Lex)
    requires i < |text|
    ensures AfterGroup(text[i..], st)
         == if Closes(st, text[i]) then Some(text[i + 1..]) else AfterGroup(text[i + 1..], Step(st, text[i]))
  {
    assert text[i..][1..] == text[i + 1..];
  }

  /** Where the outermost group that opens at or after `start` ends. */
  function BalancedEnd(text: string, start: nat): (end: Option<nat>)
    requires start <= |text|
    ensures end.Some? ==> start < end.value <= |text|
  {
    match AfterGroup(text[start..], START)
    case None => None
    case Some(after) => Some(|text| - |after|)
  }

  method FindBalancedDecoratorEnd(text: string, start: nat) returns (end: Option<nat>)
    requires start <= |text|
    ensures end == BalancedEnd(text, start)
  {
    var depth, inString, escaped := 0, false, false;
    var i := start;
    while i < |text|
      invariant start <= i <= |text|
      invariant !inString ==> !escaped
      invariant AfterGroup(text[i..], Lex(depth, inString, escaped)) == AfterGroup(text[start..], START)
    {
      ghost var st := Lex(depth, inString, escaped);
      GroupAt(text, i, st);
      var ch := text[i];
      i := i + 1;
      if inString {
        if escaped {
          escaped := false;
        } else if ch == '\\' {
          escaped := true;
        } else if ch == '"' {
          inString := false;
        }
      } else if ch == '"' {
        inString := true;
      } else if ch == '(' || ch == '[' {
        depth := depth + 1;
      } else if ch == ')' || ch == ']' {
        depth := depth - 1;
        if depth == 0 {
          return Some(i);
        }
      }
      assert Lex(depth, inString, escaped) == Step(st, ch);
    }
    return None;
  }

  lemma {:induction false} RunAppend(st: Lex, a: string, b: string)
    ensures Run(st, a + b) == Run(Run(st, a), b)
    decreases |a|
  {
    if a == "" {
      assert a + b == b;
    } else {
      assert (a + b)[1..] == a[1..] + b;
      RunAppend(Step(st, a[0]), a[1..], b);
    }
  }

  /** Text that closes no outermost group is run through; text that does hides what follows. */
  lemma {:induction false} AfterGroupAppend(a: string, b: string, st: Lex)
    ensures AfterGroup(a + b, st)
         == match AfterGroup(a, st) case None => AfterGroup(b, Run(st, a)) case Some(after) => Some(after + b)
    decreases |a|
  {
    if a == "" {
      assert a + b == b;
    } else {
      assert (a + b)[1..] == a[1..] + b;
      AfterGroupAppend(a[1..], b, Step(st, a[0]));
    }
  }

  /** A scan that is inside a group and never closes it stays inside. */
  lemma {:induction false} StaysOpen(s: string, st: Lex)
    requires st.depth >= 1 && AfterGroup(s, st).None?
    ensures Run(st, s).depth >= 1
    decreases |s|
  {
    if s != "" {
      StaysOpen(s[1..], Step(st, s[0]));
    }
  }

  /** The end found is the first position where the outermost group closes. */
  lemma {:induction false} GroupEndsFirst(s: string, st: Lex, j: nat)
    requires j < |s|
    ensures match AfterGroup(s, st)
            case None => !Closes(Run(st, s[..j]), s[j])
            case Some(after) =>
              && (j == |s| - |after| - 1 ==> Closes(Run(st, s[..j]), s[j]))
              && (j < |s| - |after| - 1 ==> !Closes(Run(st, s[..j]), s[j]))
    decreases |s|
  {
    if j > 0 && !Closes(st, s[0]) {
      GroupEndsFirst(s[1..], Step(st, s[0]), j - 1);
      assert s[..j][1..] == s[1..][..j - 1];
    }
  }

  /** Every group and every string that `s` opens it also closes. */
  predicate Closed(s: string) {
    Run(START, s) == START
  }

  /** Ordinary characters: no bracket, quote or backslash. */
  predicate Bare(s: string) {
    forall i :: 0 <= i < |s| ==> s[i] !in "()[]\"\\"
  }

  lemma {:induction false} BareIsRunThrough(s: string, st: Lex)
    requires Bare(s) && !st.escaped
    ensures Through(s, st)
    decreases |s|
  {
    if s != "" {
      BareIsRunThrough(s[1..], st);
    }
  }

  lemma RunOne(c: char, s: string, st: Lex)
    ensures Run(st, [c] + s) == Run(Step(st, c), s)
    ensures AfterGroup([c] + s, st) == if Closes(st, c) then Some(s) else AfterGroup(s, Step(st, c))
  {
    assert ([c] + s)[1..] == s;
  }

  /** A quoted bare text leaves the scan as it was. */
  lemma QuotedIsRunThrough(s: string, st: Lex)
    requires Bare(s) && !st.escaped && !st.inString
    ensures Through(['"'] + (s + ['"']), st)
  {
    var inside := st.(inString := true);
    RunOne('"', s + ['"'], st);
    BareIsRunThrough(s, inside);
    RunAppend(inside, s, ['"']);
    AfterGroupAppend(s, ['"'], inside);
    RunOne('"', "", inside);
    assert ['"'] + "" == ['"'];
  }

  // ---- the first token -------------------------------------------------------------------

  function Nest(depth: int, c: char): int {
    if c == '(' || c == '[' then depth + 1 else if c == ')' || c == ']' then depth - 1 else depth
  }

  /** How far the text reaches before a space outside every group. */
  function TokenLength(s: string, depth: int): (n: nat)
    ensures n <= |s|
    decreases |s|
  {
    if s == "" || (depth == 0 && IsSpace(s[0])) then 0 else 1 + TokenLength(s[1..], Nest(depth, s[0]))
  }

  function FirstToken(text: string): string {
    var t := Trim(text);
    t[..TokenLength(t, 0)]
  }

  method FirstParenBalancedToken(text: string) returns (token: string)
    ensures token == FirstToken(text)
  {
    var t := Trim(text);
    var depth := 0;
    var idx := 0;
    assert t[0..] == t;
    while idx < |t|
      invariant 0 <= idx <= |t|
      invariant idx + TokenLength(t[idx..], depth) == TokenLength(t, 0)
      invariant depth == 0 && idx > 0 ==> !IsSpace(t[idx - 1])
    {
      assert t[idx..][1..] == t[idx + 1..];
      var ch := t[idx];
      if ch == '(' || ch == '[' {
        depth := depth + 1;
      } else if ch == ')' || ch == ']' {
        depth := depth - 1;
      } else if IsSpace(ch) && depth == 0 {
        token := TrimEnd(t[..idx]);
        return;
      }
      idx := idx + 1;
    }
    token := t;
  }

  /** Text without brackets belongs to the token if it is inside a group or has no spaces. */
  lemma {:induction false} TokenLengthThrough(s: string, tail: string, depth: int)
    requires forall i :: 0 <= i < |s| ==> s[i] !in "()[]" && (depth == 0 ==> !IsSpace(s[i]))
    ensures TokenLength(s + tail, depth) == |s| + TokenLength(tail, depth)
    decreases |s|
  {
    if s == "" {
      assert s + tail == tail;
    } else {
      assert (s + tail)[1..] == s[1..] + tail;
      TokenLengthThrough(s[1..], tail, depth);
    }
  }

  /** Runs that leave the scan where it was and close no outermost group. */
  predicate Through(s: string, st: Lex) {
    Run(st, s) == st && AfterGroup(s, st).None?
  }

  lemma ThroughAppend(a: string, b: string, st: Lex)
    requires Through(a, st) && Through(b, st)
    ensures Through(a + b, st)
  {
    RunAppend(st, a, b);
    AfterGroupAppend(a, b, st);
  }
}
