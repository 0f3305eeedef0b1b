/** Finding a decorator by name in a text, outside every group and string. */
module Markers {
  import opened Wrappers
  import opened Text
  import opened Decorators

  const INSIDE := Lex(1, false, false)

  /** A marker's opening: a name without spaces and the bracket that opens its group. */
  predicate Opening(prefix: string) {
    && prefix != "" && Run(START, prefix) == INSIDE && AfterGroup(prefix, START).None?
    && forall i :: 0 <= i < |prefix| ==> !IsSpace(prefix[i])
  }

  /** A closed group with the marker's name starts here, outside every group and string,
      at the start of the text or after a space. */
  predicate MarkerHere(s: string, prefix: string, st: Lex, boundary: bool) {
    !st.inString && st.depth == 0 && boundary && StartsWith(s, prefix) && AfterGroup(s, START).Some?
  }

  /** How much text is left at the first marker, and after it. */
  function FindMarker(s: string, prefix: string, st: Lex, boundary: bool): (left: Option<(nat, nat)>)
    ensures left.Some? ==> left.value.1 <= left.value.0 <= |s|
    decreases |s|
  {
    if s == "" || |s| < |prefix| then None
    else if MarkerHere(s, prefix, st, boundary) then Some((|s|, |AfterGroup(s, START).value|))
    else FindMarker(s[1..], prefix, Step(st, s[0]), IsSpace(s[0]))
  }

  function MarkerSpan(text: string, prefix: string): (span: Option<(nat, nat)>)
    ensures span.Some? ==> span.value.0 <= span.value.1 <= |text|
  {
    match FindMarker(text, prefix, START, true)
    case None => None
    case Some((at, after)) => Some((|text| - at, |text| - after))
  }

  /** Whether position `i` starts the text or follows a space. */
  predicate Boundary(text: string, i: nat)
    requires i <= |text|
  {
    i == 0 || IsSpace(text[i - 1])
  }

  method FindMarkerSpan(text: string, prefix: string) returns (span: Option<(nat, nat)>)
    requires prefix != ""
    ensures span == MarkerSpan(text, prefix)
  {
    var depth, inString, escaped := 0, false, false;
    var i := 0;
    assert text[0..] == text;
    while i + |prefix| <= |text|
      invariant 0 <= i <= |text|
      invariant !inString ==> !escaped
      invariant FindMarker(text[i..], prefix, Lex(depth, inString, escaped), Boundary(text, i))
             == FindMarker(text, prefix, START, true)
      decreases |text| - i
    {
      ghost var st := Lex(depth, inString, escaped);
      var ch := text[i];
      if !inString && depth == 0 && text[i..i + |prefix|] == prefix {
        var beforeOk := i == 0 || IsSpace(text[i - 1]);
        if beforeOk {
          var end := FindBalancedDecoratorEnd(text, i);
          if end.Some? {
            return Some((i, end.value));
          }
        }
      }
      if inString {
        if escaped {
          escaped := false;
        } else if ch == '\\' {
          escaped := true;
        } else if ch == '"' {
          inString := false;
        }
      } else if ch == '"' {
        inString := true;
      } else if ch == '(' || ch == '[' {
        depth := depth + 1;
      } else if ch == ')' || ch == ']' {
        depth := depth - 1;
      }
      assert Lex(depth, inString, escaped) == Step(st, ch);
      i := i + 1;
    }
    return None;
  }

  // ---- what is found -------------------------------------------------------------------------

  /** A whole marker: a closed group that starts with the prefix, and nothing after it. */
  predicate IsMarker(m: string, prefix: string) {
    StartsWith(m, prefix) && AfterGroup(m, START) == Some("")
  }

  lemma StartsWithSolid(s: string, prefix: string, k: nat)
    requires StartsWith(s, prefix) && Opening(prefix) && k < |s| && IsSpace(s[k])
    ensures |prefix| <= k
  {
    assert forall i :: 0 <= i < |prefix| ==> prefix[i] == s[i];
  }

  /** A marker's name has no spaces, so it cannot straddle one. */
  lemma NoStraddle(v: string, rest: string, prefix: string)
    requires Opening(prefix) && StartsWith(v + rest, prefix)
    requires v != "" && (IsSpace(v[|v| - 1]) || (rest != "" && IsSpace(rest[0])))
    ensures StartsWith(v, prefix)
  {
    StartsWithSolid(v + rest, prefix, if IsSpace(v[|v| - 1]) then |v| - 1 else |v|);
    assert (v + rest)[..|prefix|] == v[..|prefix|];
  }

  /** A closed text that starts with the marker's name holds the whole group. */
  lemma ClosedHoldsGroup(v: string, prefix: string)
    requires Opening(prefix) && StartsWith(v, prefix) && Closed(v)
    ensures AfterGroup(v, START).Some?
  {
    var body := v[|prefix|..];
    assert v == prefix + body;
    AfterGroupAppend(prefix, body, START);
    RunAppend(START, prefix, body);
    if AfterGroup(body, INSIDE).None? {
      StaysOpen(body, INSIDE);
    }
  }

  predicate AfterSpace(v: string, boundary: bool) {
    if v == "" then boundary else IsSpace(v[|v| - 1])
  }

  /** A marker seen across the end of closed text lies in that text. */
  lemma MarkerStays(v: string, rest: string, prefix: string, st: Lex, boundary: bool)
    requires Opening(prefix) && Run(st, v) == START && (st.inString || !st.escaped)
    requires v != "" && (IsSpace(v[|v| - 1]) || (rest != "" && IsSpace(rest[0])))
    requires MarkerHere(v + rest, prefix, st, boundary)
    ensures FindMarker(v, prefix, st, boundary).Some?
  {
    NoStraddle(v, rest, prefix);
    assert st == START;
    ClosedHoldsGroup(v, prefix);
  }

  /** The search runs through text without a marker that closes what it opens. */
  lemma {:induction false} MarkerSkips(v: string, rest: string, prefix: string, st: Lex, boundary: bool)
    requires Opening(prefix) && Run(st, v) == START && (st.inString || !st.escaped)
    requires FindMarker(v, prefix, st, boundary).None?
    requires v != "" ==> IsSpace(v[|v| - 1]) || (rest != "" && IsSpace(rest[0]))
    ensures FindMarker(v + rest, prefix, st, boundary) == FindMarker(rest, prefix, START, AfterSpace(v, boundary))
    decreases |v|
  {
    if v == "" {
      assert v + rest == rest;
    } else if |v + rest| >= |prefix| {
      if MarkerHere(v + rest, prefix, st, boundary) {
        MarkerStays(v, rest, prefix, st, boundary);
      }
      assert (v + rest)[1..] == v[1..] + rest;
      MarkerSkips(v[1..], rest, prefix, Step(st, v[0]), IsSpace(v[0]));
    }
  }

  lemma MarkerWithText(m: string, after: string, prefix: string)
    requires IsMarker(m, prefix)
    ensures StartsWith(m + after, prefix) && AfterGroup(m + after, START) == Some(after)
  {
    AfterGroupAppend(m, after, START);
    assert "" + after == after;
    assert (m + after)[..|prefix|] == m[..|prefix|];
  }

  /** A marker put after closed, marker-free text is the one found. */
  lemma InsertedIsFound(u: string, m: string, after: string, prefix: string)
    requires Opening(prefix) && IsMarker(m, prefix)
    requires u == "" || IsSpace(u[|u| - 1])
    requires Closed(u) && MarkerSpan(u, prefix).None?
    ensures MarkerSpan(u + m + after, prefix) == Some((|u|, |u| + |m|))
  {
    assert u + m + after == u + (m + after);
    MarkerSkips(u, m + after, prefix, START, true);
    MarkerWithText(m, after, prefix);
  }
}
