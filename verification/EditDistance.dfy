/** The two edit-distance routines and the nearest-name suggestion.

    `Distance` is the recurrence both routines tabulate. What it means is said
    by `Edit` scripts: single insertions, deletions and substitutions at a
    position, carried out one after another. */
module EditDistance {
  import opened Wrappers

  // ---- the recurrence -------------------------------------------------------

  function Min(x: nat, y: nat): nat {
    if x < y then x else y
  }

  function Cost(x: char, y: char): nat {
    if x == y then 0 else 1
  }

  /** Distance between the first `i` characters of `a` and the first `j` of `b`. */
  function Cell(a: string, i: nat, b: string, j: nat): nat
    requires i <= |a| && j <= |b|
  {
    if i == 0 then j
    else if j == 0 then i
    else
      Min(Min(Cell(a, i - 1, b, j) + 1, Cell(a, i, b, j - 1) + 1),
          Cell(a, i - 1, b, j - 1) + Cost(a[i - 1], b[j - 1]))
  }

  function Distance(a: string, b: string): nat {
    Cell(a, |a|, b, |b|)
  }

  // ---- the meaning: scripts of single edits ----------------------------------

  datatype Edit =
    | Insert(at: nat, ch: char)
    | Delete(at: nat)
    | Substitute(at: nat, ch: char)

  /** One edit, or None when its position is outside the text. */
  function Apply(e: Edit, s: string): Option<string> {
    match e
    case Insert(at, ch) => if at <= |s| then Some(s[..at] + [ch] + s[at..]) else None
    case Delete(at) => if at < |s| then Some(s[..at] + s[at + 1..]) else None
    case Substitute(at, ch) => if at < |s| then Some(s[at := ch]) else None
  }

  function Run(script: seq<Edit>, s: string): Option<string> {
    if script == [] then Some(s)
    else
      match Apply(script[0], s)
      case None => None
      case Some(next) => Run(script[1..], next)
  }

  ghost predicate Transforms(script: seq<Edit>, a: string, b: string) {
    Run(script, a) == Some(b)
  }

  // ---- the filled table --------------------------------------------------------

  /** The step both routines take at one cell, for a table `t` of all cells. */
  ghost predicate StepsTo(t: seq<seq<nat>>, a: string, i: nat, b: string, j: nat)
    requires |t| == |a| + 1 && (forall row :: row in t ==> |row| == |b| + 1)
    requires 1 <= i <= |a| && 1 <= j <= |b|
  {
    t[i][j] == Min(Min(t[i - 1][j] + 1, t[i][j - 1] + 1), t[i - 1][j - 1] + Cost(a[i - 1], b[j - 1]))
  }

  ghost predicate IsTable(t: seq<seq<nat>>, a: string, b: string) {
    && |t| == |a| + 1
    && (forall row :: row in t ==> |row| == |b| + 1)
    && (forall i :: 0 <= i <= |a| ==> t[i][0] == i)
    && (forall j :: 0 <= j <= |b| ==> t[0][j] == j)
    && (forall i, j :: 1 <= i <= |a| && 1 <= j <= |b| ==> StepsTo(t, a, i, b, j))
  }

  lemma Table(a: string, b: string) returns (t: seq<seq<nat>>)
    ensures IsTable(t, a, b) && t[|a|][|b|] == Distance(a, b)
  {
    t := seq(|a| + 1, i requires 0 <= i <= |a| => seq(|b| + 1, j requires 0 <= j <= |b| => Cell(a, i, b, j)));
    forall i, j | 1 <= i <= |a| && 1 <= j <= |b|
      ensures StepsTo(t, a, i, b, j)
    {
    }
  }

  // ---- metric laws ----------------------------------------------------------

  lemma {:induction false} CellSymmetric(a: string, i: nat, b: string, j: nat)
    requires i <= |a| && j <= |b|
    ensures Cell(a, i, b, j) == Cell(b, j, a, i)
  {
    if i != 0 && j != 0 {
      CellSymmetric(a, i - 1, b, j);
      CellSymmetric(a, i, b, j - 1);
      CellSymmetric(a, i - 1, b, j - 1);
    }
  }

  lemma {:induction false} CellZeroIffEqual(a: string, i: nat, b: string, j: nat)
    requires i <= |a| && j <= |b|
    ensures Cell(a, i, b, j) == 0 <==> a[..i] == b[..j]
  {
    if i != 0 && j != 0 {
      CellZeroIffEqual(a, i - 1, b, j - 1);
      assert a[..i] == a[..i - 1] + [a[i - 1]] && b[..j] == b[..j - 1] + [b[j - 1]];
    }
  }

  /** Each entry is at most the sum of its indices and at least their difference. */
  lemma {:induction false} TableBounds(t: seq<seq<nat>>, a: string, i: nat, b: string, j: nat)
    requires IsTable(t, a, b) && i <= |a| && j <= |b|
    ensures i - j <= t[i][j] <= i + j && j - i <= t[i][j]
  {
    if i != 0 && j != 0 {
      assert StepsTo(t, a, i, b, j);
      TableBounds(t, a, i - 1, b, j);
      TableBounds(t, a, i, b, j - 1);
      TableBounds(t, a, i - 1, b, j - 1);
    }
  }

  lemma {:induction false} TableTriangle(ab: seq<seq<nat>>, bc: seq<seq<nat>>, ac: seq<seq<nat>>,
                                         a: string, i: nat, b: string, j: nat, c: string, k: nat)
    requires IsTable(ab, a, b) && IsTable(bc, b, c) && IsTable(ac, a, c)
    requires i <= |a| && j <= |b| && k <= |c|
    ensures ac[i][k] <= ab[i][j] + bc[j][k]
    decreases i + j + k
  {
    if i == 0 || j == 0 || k == 0 {
      TableBounds(ab, a, i, b, j);
      TableBounds(bc, b, j, c, k);
      TableBounds(ac, a, i, c, k);
    } else {
      assert StepsTo(ab, a, i, b, j) && StepsTo(bc, b, j, c, k) && StepsTo(ac, a, i, c, k);
      if ab[i][j] == ab[i - 1][j] + 1 {
        TableTriangle(ab, bc, ac, a, i - 1, b, j, c, k);
      } else if bc[j][k] == bc[j][k - 1] + 1 {
        TableTriangle(ab, bc, ac, a, i, b, j, c, k - 1);
      } else if ab[i][j] == ab[i][j - 1] + 1 && bc[j][k] == bc[j - 1][k] + 1 {
        TableTriangle(ab, bc, ac, a, i, b, j - 1, c, k);
      } else if ab[i][j] == ab[i][j - 1] + 1 {
        TableTriangle(ab, bc, ac, a, i, b, j - 1, c, k - 1);
      } else if bc[j][k] == bc[j - 1][k] + 1 {
        TableTriangle(ab, bc, ac, a, i - 1, b, j - 1, c, k);
      } else {
        TableTriangle(ab, bc, ac, a, i - 1, b, j - 1, c, k - 1);
      }
    }
  }

  /** `Distance` is a metric on texts. */
  lemma DistanceIsMetric(a: string, b: string, c: string)
    ensures Distance(a, b) == 0 <==> a == b
    ensures Distance(a, b) == Distance(b, a)
    ensures Distance(a, c) <= Distance(a, b) + Distance(b, c)
  {
    CellZeroIffEqual(a, |a|, b, |b|);
    assert a[..|a|] == a && b[..|b|] == b;
    CellSymmetric(a, |a|, b, |b|);
    var ab := Table(a, b);
    var bc := Table(b, c);
    var ac := Table(a, c);
    TableTriangle(ab, bc, ac, a, |a|, b, |b|, c, |c|);
  }

  // ---- scripts against the recurrence ----------------------------------------

  /** Reading `k` further equal characters does not increase the distance. */
  lemma {:induction false} EqualTails(a: string, i: nat, b: string, j: nat, k: nat)
    requires i + k <= |a| && j + k <= |b|
    requires a[i..i + k] == b[j..j + k]
    ensures Cell(a, i + k, b, j + k) <= Cell(a, i, b, j)
  {
    if k != 0 {
      assert a[i..i + k][..k - 1] == a[i..i + k - 1] && b[j..j + k][..k - 1] == b[j..j + k - 1];
      assert a[i..i + k][k - 1] == b[j..j + k][k - 1];
      EqualTails(a, i, b, j, k - 1);
    }
  }

  lemma InsertionIsOneAway(s: string, at: nat, ch: char)
    requires at <= |s|
    ensures Distance(s, s[..at] + [ch] + s[at..]) <= 1
  {
    var t := s[..at] + [ch] + s[at..];
    assert s[..at] == t[..at] && s[at..at + (|s| - at)] == t[at + 1..at + 1 + (|s| - at)];
    CellZeroIffEqual(s, at, t, at);
    EqualTails(s, at, t, at + 1, |s| - at);
  }

  lemma SubstitutionIsOneAway(s: string, at: nat, ch: char)
    requires at < |s|
    ensures Distance(s, s[at := ch]) <= 1
  {
    var t := s[at := ch];
    var k := |s| - at - 1;
    assert s[..at] == t[..at] && s[at + 1..at + 1 + k] == t[at + 1..at + 1 + k];
    CellZeroIffEqual(s, at, t, at);
    EqualTails(s, at + 1, t, at + 1, k);
  }

  /** One edit moves a text by at most one. */
  lemma OneEditIsOneAway(e: Edit, s: string)
    requires Apply(e, s).Some?
    ensures Distance(s, Apply(e, s).value) <= 1
  {
    var t := Apply(e, s).value;
    match e
    case Insert(at, ch) => InsertionIsOneAway(s, at, ch);
    case Delete(at) =>
      assert t[..at] + [s[at]] + t[at..] == s;
      InsertionIsOneAway(t, at, s[at]);
      CellSymmetric(s, |s|, t, |t|);
    case Substitute(at, ch) => SubstitutionIsOneAway(s, at, ch);
  }

  /** No script is shorter than the distance. */
  lemma {:induction false} DistanceIsLowerBound(script: seq<Edit>, a: string, b: string)
    requires Transforms(script, a, b)
    ensures Distance(a, b) <= |script|
    decreases |script|
  {
    if script == [] {
      DistanceIsMetric(a, b, b);
    } else {
      var next := Apply(script[0], a).value;
      OneEditIsOneAway(script[0], a);
      DistanceIsLowerBound(script[1..], next, b);
      DistanceIsMetric(a, next, b);
    }
  }

  lemma {:induction false} RunConcat(p: seq<Edit>, q: seq<Edit>, s: string)
    requires Run(p, s).Some?
    ensures Run(p + q, s) == Run(q, Run(p, s).value)
    decreases |p|
  {
    if p == [] {
      assert p + q == q;
    } else {
      assert (p + q)[0] == p[0] && (p + q)[1..] == p[1..] + q;
      RunConcat(p[1..], q, Apply(p[0], s).value);
    }
  }

  /** Positions count from the front, so a script also works with more text after it. */
  lemma {:induction false} RunIgnoresTail(p: seq<Edit>, s: string, tail: string)
    requires Run(p, s).Some?
    ensures Run(p, s + tail) == Some(Run(p, s).value + tail)
    decreases |p|
  {
    if p != [] {
      var next := Apply(p[0], s).value;
      assert Apply(p[0], s + tail) == Some(next + tail) by {
        match p[0]
        case Insert(at, ch) => assert (s + tail)[..at] + [ch] + (s + tail)[at..] == next + tail;
        case Delete(at) => assert (s + tail)[..at] + (s + tail)[at + 1..] == next + tail;
        case Substitute(at, ch) => assert (s + tail)[at := ch] == next + tail;
      }
      RunIgnoresTail(p[1..], next, tail);
    }
  }

  lemma ExtendScript(p: seq<Edit>, s: string, t: string, e: Edit)
    requires Transforms(p, s, t)
    requires Apply(e, t).Some?
    ensures Transforms(p + [e], s, Apply(e, t).value)
  {
    RunConcat(p, [e], s);
    assert Run([e], t) == Run([], Apply(e, t).value);
  }

  lemma InsertLast(p: seq<Edit>, a: string, b: string, y: char)
    requires Transforms(p, a, b)
    ensures Transforms(p + [Insert(|b|, y)], a, b + [y])
  {
    assert Apply(Insert(|b|, y), b).value == b + [y];
    ExtendScript(p, a, b, Insert(|b|, y));
  }

  lemma DeleteLast(p: seq<Edit>, a: string, x: char, b: string)
    requires Transforms(p, a, b)
    ensures Transforms(p + [Delete(|b|)], a + [x], b)
  {
    RunIgnoresTail(p, a, [x]);
    assert Apply(Delete(|b|), b + [x]).value == b;
    ExtendScript(p, a + [x], b + [x], Delete(|b|));
  }

  lemma SubstituteLast(p: seq<Edit>, a: string, x: char, b: string, y: char)
    requires Transforms(p, a, b)
    ensures Transforms(p + [Substitute(|b|, y)], a + [x], b + [y])
  {
    RunIgnoresTail(p, a, [x]);
    assert Apply(Substitute(|b|, y), b + [x]).value == b + [y];
    ExtendScript(p, a + [x], b + [x], Substitute(|b|, y));
  }

  /** A script as short as the distance, read off the table. */
  lemma {:induction false} ShortestScript(t: seq<seq<nat>>, a: string, i: nat, b: string, j: nat)
    returns (script: seq<Edit>)
    requires IsTable(t, a, b) && i <= |a| && j <= |b|
    ensures Transforms(script, a[..i], b[..j])
    ensures |script| == t[i][j]
  {
    if i != 0 {
      assert a[..i] == a[..i - 1] + [a[i - 1]];
    }
    if j != 0 {
      assert b[..j] == b[..j - 1] + [b[j - 1]];
    }
    if i != 0 && j != 0 {
      assert StepsTo(t, a, i, b, j);
    }
    if i == 0 && j == 0 {
      script := [];
    } else if i == 0 || (j != 0 && t[i][j] == t[i][j - 1] + 1) {
      var p := ShortestScript(t, a, i, b, j - 1);
      InsertLast(p, a[..i], b[..j - 1], b[j - 1]);
      script := p + [Insert(j - 1, b[j - 1])];
    } else if j == 0 || t[i][j] == t[i - 1][j] + 1 {
      var p := ShortestScript(t, a, i - 1, b, j);
      DeleteLast(p, a[..i - 1], a[i - 1], b[..j]);
      script := p + [Delete(j)];
    } else if a[i - 1] == b[j - 1] {
      script := ShortestScript(t, a, i - 1, b, j - 1);
      RunIgnoresTail(script, a[..i - 1], [a[i - 1]]);
    } else {
      var p := ShortestScript(t, a, i - 1, b, j - 1);
      SubstituteLast(p, a[..i - 1], a[i - 1], b[..j - 1], b[j - 1]);
      script := p + [Substitute(j - 1, b[j - 1])];
    }
  }

  /** The distance is the length of a shortest edit script. */
  lemma DistanceIsShortestScript(a: string, b: string)
    ensures exists script :: Transforms(script, a, b) && |script| == Distance(a, b)
    ensures forall script :: Transforms(script, a, b) ==> Distance(a, b) <= |script|
  {
    var t := Table(a, b);
    var _ := ShortestScript(t, a, |a|, b, |b|);
    assert a[..|a|] == a && b[..|b|] == b;
    forall script | Transforms(script, a, b)
      ensures Distance(a, b) <= |script|
    {
      DistanceIsLowerBound(script, a, b);
    }
  }

  // ---- the two routines -------------------------------------------------------

  /** Full table, one cell per pair of prefixes. */
  method Levenshtein(a: string, b: string) returns (d: nat)
    ensures d == Distance(a, b)
  {
    ghost var t := Table(a, b);
    var dp := new nat[|a| + 1, |b| + 1];
    for i := 0 to |a| + 1
      invariant forall k :: 0 <= k < i ==> dp[k, 0] == k
    {
      dp[i, 0] := i;
    }
    for j := 0 to |b| + 1
      invariant forall k :: 0 <= k <= |a| ==> dp[k, 0] == k
      invariant forall l :: 0 <= l < j ==> dp[0, l] == l
    {
      dp[0, j] := j;
    }
    for i := 1 to |a| + 1
      invariant forall k :: 0 <= k <= |a| ==> dp[k, 0] == k
      invariant forall k, l :: 0 <= k < i && 0 <= l <= |b| ==> dp[k, l] == t[k][l]
    {
      for j := 1 to |b| + 1
        invariant forall k :: 0 <= k <= |a| ==> dp[k, 0] == k
        invariant forall k, l :: 0 <= k < i && 0 <= l <= |b| ==> dp[k, l] == t[k][l]
        invariant forall l :: 0 <= l < j ==> dp[i, l] == t[i][l]
      {
        assert StepsTo(t, a, i, b, j);
        dp[i, j] := Min(Min(dp[i - 1, j] + 1, dp[i, j - 1] + 1), dp[i - 1, j - 1] + Cost(a[i - 1], b[j - 1]));
      }
    }
    d := dp[|a|, |b|];
  }

  /** Two rolling rows, swapped after each character of `a`. */
  method ConventionsLevenshtein(a: string, b: string) returns (d: nat)
    ensures d == Distance(a, b)
  {
    var n, m := |a|, |b|;
    if n == 0 {
      return m;
    }
    if m == 0 {
      return n;
    }
    ghost var t := Table(a, b);
    var prev := new nat[m + 1](j => j);
    var curr := new nat[m + 1](_ => 0);
    for i := 1 to n + 1
      invariant prev != curr && prev.Length == curr.Length == m + 1
      invariant fresh(prev) && fresh(curr)
      invariant forall l :: 0 <= l <= m ==> prev[l] == t[i - 1][l]
    {
      curr[0] := i;
      for j := 1 to m + 1
        invariant forall l :: 0 <= l <= m ==> prev[l] == t[i - 1][l]
        invariant forall l :: 0 <= l < j ==> curr[l] == t[i][l]
      {
        assert StepsTo(t, a, i, b, j);
        curr[j] := Min(Min(curr[j - 1] + 1, prev[j] + 1), prev[j - 1] + Cost(a[i - 1], b[j - 1]));
      }
      prev, curr := curr, prev;
    }
    d := prev[m];
  }

  // ---- the suggestion ---------------------------------------------------------

  const CONVENTION_CATALOG: seq<string> := ["crud", "me"]

  /** `name` is the first entry of `catalog` at the least distance from `identifier`. */
  ghost predicate IsEarliestNearest(catalog: seq<string>, identifier: string, name: string) {
    exists k :: 0 <= k < |catalog| && catalog[k] == name
      && (forall j :: 0 <= j < |catalog| ==> Distance(identifier, name) <= Distance(identifier, catalog[j]))
      && (forall j :: 0 <= j < k ==> Distance(identifier, name) < Distance(identifier, catalog[j]))
  }

  method ConventionsUnknownSuggestion(catalog: seq<string>, identifier: string)
    returns (suggestion: Option<string>)
    ensures suggestion.Some? <==> exists name :: name in catalog && Distance(identifier, name) <= 1
    ensures suggestion.Some? ==> IsEarliestNearest(catalog, identifier, suggestion.value)
  {
    var best: Option<(string, nat)> := None;
    ghost var at := 0;
    for i := 0 to |catalog|
      invariant best.None? ==> forall j :: 0 <= j < i ==> Distance(identifier, catalog[j]) > 1
      invariant best.Some? ==>
        && 0 <= at < i && catalog[at] == best.value.0
        && best.value.1 == Distance(identifier, best.value.0) <= 1
        && (forall j :: 0 <= j < i ==> best.value.1 <= Distance(identifier, catalog[j]))
        && (forall j :: 0 <= j < at ==> best.value.1 < Distance(identifier, catalog[j]))
    {
      var d := ConventionsLevenshtein(identifier, catalog[i]);
      if d > 1 {
        continue;
      }
      match best {
        case None => best, at := Some((catalog[i], d)), i;
        case Some(b) =>
          if d < b.1 {
            best, at := Some((catalog[i], d)), i;
          }
      }
    }
    suggestion := if best.Some? then Some(best.value.0) else None;
    if best.Some? {
      assert best.value.0 in catalog;
    }
  }

  /** Texts without a common character are at least as far apart as the longer is long. */
  lemma {:induction false} DisjointTexts(a: string, i: nat, b: string, j: nat)
    requires i <= |a| && j <= |b|
    requires forall x, y :: 0 <= x < i && 0 <= y < j ==> a[x] != b[y]
    ensures Cell(a, i, b, j) >= i && Cell(a, i, b, j) >= j
  {
    if i != 0 && j != 0 {
      DisjointTexts(a, i - 1, b, j);
      DisjointTexts(a, i, b, j - 1);
      DisjointTexts(a, i - 1, b, j - 1);
      assert Cost(a[i - 1], b[j - 1]) == 1;
    }
  }

  /** With the shipped catalog a misspelling is near at most one entry, so the
      tie-breaking order never decides a suggestion. */
  lemma ShippedCatalogIsUnambiguous(identifier: string, x: string, y: string)
    requires x in CONVENTION_CATALOG && y in CONVENTION_CATALOG
    requires Distance(identifier, x) <= 1 && Distance(identifier, y) <= 1
    ensures x == y
  {
    DisjointTexts("crud", 4, "me", 2);
    DistanceIsMetric("crud", identifier, "me");
    DistanceIsMetric(identifier, "me", "me");
    DistanceIsMetric(identifier, "crud", "crud");
  }
}
