/** Lexical path handling behind the runtime `replace` / `use` wiring.

    A path is its list of components, as Rust's `Path::components` yields it.
    Component equality is a parameter of the relativizer: exact on Unix, folding
    ASCII case on Windows. */
module Paths {
  import opened Wrappers
  import opened Text

  datatype Component =
    | Prefix(name: string)
    | RootDir
    | CurDir
    | ParentDir
    | Normal(name: string)

  type Path = seq<Component>

  predicate IsAnchor(c: Component) {
    c.Prefix? || c.RootDir?
  }

  // ---- collapsing `.` and `..` ------------------------------------------------

  /** What one component does to the stack of components kept so far. */
  function Push(out: Path, c: Component): Path {
    match c
    case ParentDir => if out != [] && out[|out| - 1].Normal? then out[..|out| - 1] else out + [c]
    case CurDir => out
    case _ => out + [c]
  }

  function Collapse(out: Path, path: Path): Path
    decreases |path|
  {
    if path == [] then out else Collapse(Push(out, path[0]), path[1..])
  }

  function Normalize(path: Path): Path {
    Collapse([], path)
  }

  method NormalizeDots(path: Path) returns (out: Path)
    ensures out == Normalize(path)
  {
    out := [];
    for i := 0 to |path|
      invariant Collapse(out, path[i..]) == Normalize(path)
    {
      assert path[i..][1..] == path[i + 1..];
      match path[i] {
        case ParentDir =>
          if out != [] && out[|out| - 1].Normal? {
            out := out[..|out| - 1];
          } else {
            out := out + [path[i]];
          }
        case CurDir =>
        case _ =>
          out := out + [path[i]];
      }
    }
  }

  lemma {:induction false} CollapseConcat(out: Path, p: Path, q: Path)
    ensures Collapse(out, p + q) == Collapse(Collapse(out, p), q)
    decreases |p|
  {
    if p == [] {
      assert p + q == q;
    } else {
      assert (p + q)[1..] == p[1..] + q;
      CollapseConcat(Push(out, p[0]), p[1..], q);
    }
  }

  /** No `.`, and no `..` that a name in front of it could cancel. */
  predicate Reduced(path: Path) {
    && (forall i :: 0 <= i < |path| ==> !path[i].CurDir?)
    && (forall i :: 0 < i < |path| && path[i].ParentDir? ==> !path[i - 1].Normal?)
  }

  lemma {:induction false} CollapseReduces(out: Path, path: Path)
    requires Reduced(out)
    ensures Reduced(Collapse(out, path))
    decreases |path|
  {
    if path != [] {
      CollapseReduces(Push(out, path[0]), path[1..]);
    }
  }

  lemma {:induction false} CollapseKeepsReduced(out: Path, path: Path)
    requires Reduced(out + path)
    ensures Collapse(out, path) == out + path
    decreases |path|
  {
    if path == [] {
      assert out + path == out;
    } else {
      assert (out + path)[|out|] == path[0];
      assert out != [] ==> (out + path)[|out| - 1] == out[|out| - 1];
      assert out + path == (out + [path[0]]) + path[1..];
      CollapseKeepsReduced(out + [path[0]], path[1..]);
    }
  }

  lemma NormalizeIdempotent(path: Path)
    ensures Normalize(Normalize(path)) == Normalize(path)
  {
    CollapseReduces([], path);
    assert [] + Normalize(path) == Normalize(path);
    CollapseKeepsReduced([], Normalize(path));
  }

  /** Collapsing a first part early changes nothing. */
  lemma NormalizeConcat(a: Path, b: Path)
    ensures Normalize(a + b) == Normalize(Normalize(a) + b)
  {
    NormalizeIdempotent(a);
    CollapseConcat([], a, b);
    CollapseConcat([], Normalize(a), b);
  }

  /** Anchors stand only at the front, as in every path the platform yields. */
  predicate WellFormed(path: Path) {
    forall i, j :: 0 <= i < j < |path| && IsAnchor(path[j]) ==> IsAnchor(path[i])
  }

  lemma {:induction false} CollapseWellFormed(out: Path, path: Path)
    requires WellFormed(out) && WellFormed(path)
    requires path != [] && IsAnchor(path[0]) ==> forall i :: 0 <= i < |out| ==> IsAnchor(out[i])
    ensures WellFormed(Collapse(out, path))
    decreases |path|
  {
    if path != [] {
      CollapseWellFormed(Push(out, path[0]), path[1..]);
    }
  }

  function Rank(c: Component): nat {
    match c
    case Prefix(_) => 0
    case RootDir => 0
    case ParentDir => 1
    case Normal(_) => 2
    case CurDir => 3
  }

  lemma {:induction false} ReducedIsSorted(path: Path, i: nat, j: nat)
    requires Reduced(path) && WellFormed(path)
    requires i < j < |path|
    ensures Rank(path[i]) <= Rank(path[j])
    decreases j
  {
    if i + 1 < j {
      ReducedIsSorted(path, i, j - 1);
    }
  }

  /** Anchors, then `..` parts, then names, and no `.` anywhere. */
  lemma NormalizeShape(path: Path)
    requires WellFormed(path)
    ensures forall i :: 0 <= i < |Normalize(path)| ==> Rank(Normalize(path)[i]) <= 2
    ensures forall i, j :: 0 <= i < j < |Normalize(path)| ==> Rank(Normalize(path)[i]) <= Rank(Normalize(path)[j])
  {
    var n := Normalize(path);
    CollapseReduces([], path);
    CollapseWellFormed([], path);
    forall i, j | 0 <= i < j < |n|
      ensures Rank(n[i]) <= Rank(n[j])
    {
      ReducedIsSorted(n, i, j);
    }
  }

  // ---- the directory a path denotes ---------------------------------------------

  /** A directory in a tree without links. */
  datatype Place = Place(drive: Option<string>, names: seq<string>)

  /** One step of a walk; `home` gives the current directory of each drive. */
  function Step(home: string -> Place, at: Place, c: Component): Place {
    match c
    case Prefix(d) => home(d)
    case RootDir => Place(at.drive, [])
    case CurDir => at
    case ParentDir => if at.names == [] then at else Place(at.drive, at.names[..|at.names| - 1])
    case Normal(n) => Place(at.drive, at.names + [n])
  }

  function Walk(home: string -> Place, at: Place, path: Path): Place
    decreases |path|
  {
    if path == [] then at else Walk(home, Step(home, at, path[0]), path[1..])
  }

  /** A walk that fails as soon as it leaves the directories that exist. */
  ghost function Resolve(exist: iset<Place>, home: string -> Place, at: Place, path: Path): Option<Place> {
    if path == [] then Some(at)
    else
      match Resolve(exist, home, at, path[..|path| - 1])
      case None => None
      case Some(here) =>
        var next := Step(home, here, path[|path| - 1]);
        if next in exist then Some(next) else None
  }

  lemma {:induction false} WalkConcat(home: string -> Place, at: Place, p: Path, q: Path)
    ensures Walk(home, at, p + q) == Walk(home, Walk(home, at, p), q)
    decreases |p|
  {
    if p == [] {
      assert p + q == q;
    } else {
      assert (p + q)[1..] == p[1..] + q;
      WalkConcat(home, Step(home, at, p[0]), p[1..], q);
    }
  }

  lemma WalkPush(home: string -> Place, at: Place, out: Path, c: Component)
    ensures Walk(home, at, Push(out, c)) == Step(home, Walk(home, at, out), c)
  {
    WalkConcat(home, at, out, [c]);
    if c.ParentDir? && out != [] && out[|out| - 1].Normal? {
      var o, n := out[..|out| - 1], out[|out| - 1];
      assert out == o + [n];
      WalkConcat(home, at, o, [n]);
    }
  }

  lemma {:induction false} WalkCollapse(home: string -> Place, at: Place, out: Path, path: Path)
    ensures Walk(home, at, Collapse(out, path)) == Walk(home, Walk(home, at, out), path)
    decreases |path|
  {
    if path != [] {
      WalkPush(home, at, out, path[0]);
      WalkCollapse(home, at, Push(out, path[0]), path[1..]);
    }
  }

  /** Collapsing dots keeps the directory, wherever the walk starts. */
  lemma NormalizeDenotesSamePlace(home: string -> Place, at: Place, path: Path)
    ensures Walk(home, at, Normalize(path)) == Walk(home, at, path)
  {
    WalkCollapse(home, at, [], path);
  }

  lemma {:induction false} ResolveCollapse(exist: iset<Place>, home: string -> Place, at: Place, p: Path, k: nat)
    requires k <= |p|
    requires Resolve(exist, home, at, p).Some?
    ensures Resolve(exist, home, at, p[..k]).Some?
    ensures Resolve(exist, home, at, Normalize(p[..k])) == Resolve(exist, home, at, p[..k])
    decreases |p|, k
  {
    if k < |p| {
      ResolveCollapse(exist, home, at, p[..|p| - 1], k);
      assert p[..|p| - 1][..k] == p[..k];
    } else if p != [] {
      var q, c := p[..|p| - 1], p[|p| - 1];
      assert p[..k] == p == q + [c];
      ResolveCollapse(exist, home, at, q, |q|);
      assert q[..|q|] == q;
      CollapseConcat([], q, [c]);
      var out := Normalize(q);
      assert Collapse(out, [c]) == Push(out, c);
      assert (out + [c])[..|out|] == out;
    }
  }

  /** Where the given path leads somewhere that exists, so does the collapsed one, to the same place. */
  lemma NormalizeKeepsExistingTarget(exist: iset<Place>, home: string -> Place, at: Place, path: Path)
    requires Resolve(exist, home, at, path).Some?
    ensures Resolve(exist, home, at, Normalize(path)) == Resolve(exist, home, at, path)
  {
    ResolveCollapse(exist, home, at, path, |path|);
    assert path[..|path|] == path;
  }

  // ---- relative paths -------------------------------------------------------------

  function FoldCase(c: char): char {
    if 'A' <= c <= 'Z' then (c as int + 32) as char else c
  }

  predicate EqIgnoreCase(a: string, b: string) {
    |a| == |b| && forall i :: 0 <= i < |a| ==> FoldCase(a[i]) == FoldCase(b[i])
  }

  function ExactEq(a: Component, b: Component): bool {
    a == b
  }

  /** The Windows comparison of two components. */
  function FoldingEq(a: Component, b: Component): bool {
    match (a, b)
    case (Prefix(x), Prefix(y)) => EqIgnoreCase(x, y)
    case (Normal(x), Normal(y)) => EqIgnoreCase(x, y)
    case _ => a == b
  }

  predicate SameKind(a: Component, b: Component) {
    && a.Prefix? == b.Prefix? && a.RootDir? == b.RootDir? && a.CurDir? == b.CurDir?
    && a.ParentDir? == b.ParentDir? && a.Normal? == b.Normal?
  }

  /** What the relativizer needs of a component comparison. */
  ghost predicate ComponentEq(eq: (Component, Component) -> bool) {
    && (forall c :: eq(c, c))
    && (forall a, b :: eq(a, b) ==> SameKind(a, b))
  }

  ghost predicate IsEquivalence(eq: (Component, Component) -> bool) {
    && (forall c :: eq(c, c))
    && (forall a, b :: eq(a, b) ==> eq(b, a))
    && (forall a, b, c :: eq(a, b) && eq(b, c) ==> eq(a, c))
  }

  lemma BothComparisonsQualify()
    ensures ComponentEq(ExactEq) && ComponentEq(FoldingEq)
    ensures IsEquivalence(ExactEq) && IsEquivalence(FoldingEq)
  {
    forall a, b, c | FoldingEq(a, b) && FoldingEq(b, c)
      ensures FoldingEq(a, c)
    {
      if (a.Normal? || a.Prefix?) && a != b && b != c {
        FoldingTransitive(a.name, b.name, c.name);
      }
    }
  }

  lemma FoldingTransitive(a: string, b: string, c: string)
    requires EqIgnoreCase(a, b) && EqIgnoreCase(b, c)
    ensures EqIgnoreCase(a, c)
  {
  }

  ghost predicate Matches(eq: (Component, Component) -> bool, p: Path, q: Path) {
    |p| == |q| && forall i :: 0 <= i < |p| ==> eq(p[i], q[i])
  }

  /** Length of the common front of two paths, from index `k` on. */
  function CommonFrom(eq: (Component, Component) -> bool, a: Path, b: Path, k: nat): (common: nat)
    requires k <= |a| && k <= |b|
    ensures k <= common <= |a| && common <= |b|
    ensures forall i :: k <= i < common ==> eq(a[i], b[i])
    ensures common < |a| && common < |b| ==> !eq(a[common], b[common])
    decreases |a| - k
  {
    if k < |a| && k < |b| && eq(a[k], b[k]) then CommonFrom(eq, a, b, k + 1) else k
  }

  function Common(eq: (Component, Component) -> bool, a: Path, b: Path): nat {
    CommonFrom(eq, a, b, 0)
  }

  function Ups(n: nat): Path {
    seq(n, _ => ParentDir)
  }

  /** The component list of the relative path: `to` itself when nothing is shared. */
  function Relative(eq: (Component, Component) -> bool, from: Path, to: Path): Path {
    var common := Common(eq, from, to);
    if common == 0 then to else Ups(|from| - common) + to[common..]
  }

  method RelativePath(eq: (Component, Component) -> bool, from: Path, to: Path) returns (parts: Path)
    ensures parts == Relative(eq, from, to)
  {
    var common := 0;
    while common < |from| && common < |to| && eq(from[common], to[common])
      invariant common <= |from| && common <= |to|
      invariant CommonFrom(eq, from, to, common) == Common(eq, from, to)
    {
      common := common + 1;
    }
    assert common == Common(eq, from, to);
    if common == 0 {
      return to;
    }
    parts := [];
    for i := common to |from|
      invariant parts == Ups(i - common)
    {
      parts := parts + [ParentDir];
    }
    for i := common to |to|
      invariant parts == Ups(|from| - common) + to[common..i]
    {
      parts := parts + [to[i]];
    }
    assert to[common..|to|] == to[common..];
  }

  /** Names entered minus names left: collapsing dots never changes it. */
  function Net(path: Path): int {
    if path == [] then 0
    else Net(path[..|path| - 1]) + NetOf(path[|path| - 1])
  }

  function NetOf(c: Component): int {
    if c.Normal? then 1 else if c.ParentDir? then -1 else 0
  }

  lemma {:induction false} NetConcat(p: Path, q: Path)
    ensures Net(p + q) == Net(p) + Net(q)
    decreases |q|
  {
    if q == [] {
      assert p + q == p;
    } else {
      assert (p + q)[..|p + q| - 1] == p + q[..|q| - 1];
      NetConcat(p, q[..|q| - 1]);
    }
  }

  lemma NetSplit(path: Path, k: nat)
    requires k <= |path|
    ensures Net(path) == Net(path[..k]) + Net(path[k..])
  {
    assert path == path[..k] + path[k..];
    NetConcat(path[..k], path[k..]);
  }

  lemma {:induction false} NetCollapse(out: Path, path: Path)
    ensures Net(Collapse(out, path)) == Net(out) + Net(path)
    decreases |path|
  {
    if path != [] {
      assert (out + [path[0]])[..|out|] == out;
      NetCollapse(Push(out, path[0]), path[1..]);
      NetConcat([path[0]], path[1..]);
      assert [path[0]] + path[1..] == path && [path[0]][..0] == [];
    }
  }

  lemma {:induction false} NetBound(path: Path)
    ensures Net(path) <= |path|
    ensures Net(path) == |path| <==> forall c :: c in path ==> c.Normal?
  {
    if path != [] {
      NetBound(path[..|path| - 1]);
      assert path == path[..|path| - 1] + [path[|path| - 1]];
    }
  }

  lemma {:induction false} NetUps(n: nat)
    ensures Net(Ups(n)) + n == 0
  {
    if n != 0 {
      assert Ups(n)[..n - 1] == Ups(n - 1);
      NetUps(n - 1);
    }
  }

  lemma {:induction false} NetMatches(eq: (Component, Component) -> bool, p: Path, q: Path)
    requires ComponentEq(eq) && Matches(eq, p, q)
    ensures Net(p) == Net(q)
    decreases |p|
  {
    if p != [] {
      NetMatches(eq, p[..|p| - 1], q[..|q| - 1]);
      assert SameKind(p[|p| - 1], q[|q| - 1]);
    }
  }

  lemma {:induction false} UpsCancelNames(out: Path, names: Path)
    requires forall c :: c in names ==> c.Normal?
    ensures Collapse(out + names, Ups(|names|)) == out
    decreases |names|
  {
    if names == [] {
      assert out + names == out;
    } else {
      var n := |names| - 1;
      assert (out + names)[|out| + n] == names[n];
      assert (out + names)[..|out| + n] == out + names[..n];
      assert Ups(n + 1)[1..] == Ups(n);
      UpsCancelNames(out, names[..n]);
    }
  }

  lemma ReducedByMatch(eq: (Component, Component) -> bool, p: Path, q: Path)
    requires ComponentEq(eq) && Matches(eq, p, q) && Reduced(q)
    ensures Reduced(p)
  {
    assert forall i :: 0 <= i < |p| ==> SameKind(p[i], q[i]);
  }

  /** Past the shared front, `from` has names only. */
  ghost predicate DescendsByNames(eq: (Component, Component) -> bool, from: Path, to: Path) {
    forall c :: c in from[Common(eq, from, to)..] ==> c.Normal?
  }

  lemma ReducedThenNames(path: Path, names: Path)
    requires Reduced(path) && forall c :: c in names ==> c.Normal?
    ensures Reduced(path + names)
  {
    assert forall i :: 0 <= i < |names| ==> names[i] in names;
  }

  lemma RelativeReaches(eq: (Component, Component) -> bool, from: Path, to: Path)
    requires ComponentEq(eq) && Reduced(to) && Common(eq, from, to) > 0
    requires DescendsByNames(eq, from, to)
    ensures Reduced(from)
    ensures Normalize(from + Relative(eq, from, to)) == from[..Common(eq, from, to)] + to[Common(eq, from, to)..]
  {
    var k := Common(eq, from, to);
    var shared, rest, tail := from[..k], from[k..], to[k..];
    assert from == shared + rest;
    ReducedByMatch(eq, shared + tail, to);
    assert shared == (shared + tail)[..k];
    assert forall i :: 0 <= i < k ==> shared[i] == (shared + tail)[i];
    ReducedThenNames(shared, rest);
    var ups := Ups(|rest|);
    CollapseConcat([], from, ups + tail);
    assert [] + from == from;
    CollapseKeepsReduced([], from);
    CollapseConcat(from, ups, tail);
    UpsCancelNames(shared, rest);
    CollapseKeepsReduced(shared, tail);
  }

  /** Walking up once per component leaves as many names as are wanted only if
      every component walked over was a name. */
  lemma NetOfRelative(eq: (Component, Component) -> bool, from: Path, to: Path)
    requires ComponentEq(eq) && Common(eq, from, to) > 0
    ensures Net(Normalize(from + Relative(eq, from, to))) == Net(to) ==> DescendsByNames(eq, from, to)
  {
    var k := Common(eq, from, to);
    var rest, tail := from[k..], to[k..];
    NetCollapse([], from + Relative(eq, from, to));
    NetConcat(from, Relative(eq, from, to));
    NetSplit(from, k);
    NetSplit(to, k);
    NetConcat(Ups(|rest|), tail);
    NetUps(|rest|);
    NetMatches(eq, from[..k], to[..k]);
    NetBound(rest);
  }

  /** Collapsing `from` and the relative path gives `to` back exactly when `from`
      only descends by names past the shared front. */
  lemma RelativeLeadsBackIff(eq: (Component, Component) -> bool, from: Path, to: Path)
    requires ComponentEq(eq) && Reduced(to) && Common(eq, from, to) > 0
    ensures Matches(eq, Normalize(from + Relative(eq, from, to)), to) <==> DescendsByNames(eq, from, to)
  {
    var end := Normalize(from + Relative(eq, from, to));
    if DescendsByNames(eq, from, to) {
      RelativeReaches(eq, from, to);
    } else if Matches(eq, end, to) {
      NetMatches(eq, end, to);
      NetOfRelative(eq, from, to);
    }
  }

  /** Steps left between a stack of components and the target, in the directory tree. */
  function Gap(eq: (Component, Component) -> bool, out: Path, to: Path): int {
    |out| + |to| - 2 * Common(eq, out, to)
  }

  lemma GapPush(eq: (Component, Component) -> bool, out: Path, c: Component, to: Path)
    requires c.ParentDir? || c.Normal?
    ensures Gap(eq, Push(out, c), to) >= Gap(eq, out, to) - 1
  {
    var next := Push(out, c);
    var m, n := Common(eq, out, to), Common(eq, next, to);
    if |next| > |out| {
      assert forall i :: 0 <= i < |out| ==> next[i] == out[i];
    } else {
      assert forall i :: 0 <= i < |next| ==> next[i] == out[i];
    }
  }

  lemma {:induction false} GapCollapse(eq: (Component, Component) -> bool, out: Path, steps: Path, to: Path)
    requires forall c :: c in steps ==> c.ParentDir? || c.Normal?
    ensures Gap(eq, Collapse(out, steps), to) >= Gap(eq, out, to) - |steps|
    decreases |steps|
  {
    if steps != [] {
      GapPush(eq, out, steps[0], to);
      GapCollapse(eq, Push(out, steps[0]), steps[1..], to);
    }
  }

  /** No list of `..` and name steps from `from` to `to` is shorter than the relative path. */
  lemma RelativeIsShortest(eq: (Component, Component) -> bool, from: Path, to: Path, steps: Path)
    requires ComponentEq(eq) && Reduced(to) && Common(eq, from, to) > 0
    requires DescendsByNames(eq, from, to)
    requires forall c :: c in steps ==> c.ParentDir? || c.Normal?
    requires Matches(eq, Normalize(from + steps), to)
    ensures |Relative(eq, from, to)| <= |steps|
  {
    RelativeReaches(eq, from, to);
    CollapseConcat([], from, steps);
    assert [] + from == from;
    CollapseKeepsReduced([], from);
    GapCollapse(eq, from, steps, to);
  }

  // ---- where a relative path leads ------------------------------------------------

  predicate NoAnchor(path: Path) {
    forall i :: 0 <= i < |path| ==> !IsAnchor(path[i])
  }

  /** How many root parts a path begins with: a drive, a root, or both. */
  function Anchors(path: Path): (n: nat)
    ensures n <= |path|
  {
    if path == [] then 0
    else if path[0].RootDir? then 1
    else if !path[0].Prefix? then 0
    else if |path| > 1 && path[1].RootDir? then 2
    else 1
  }

  /** A component list the platform yields: drives exist on Windows only, and
      root parts stand only at the front. */
  predicate IsPath(windows: bool, path: Path) {
    (path != [] && path[0].Prefix? ==> windows) && NoAnchor(path[Anchors(path)..])
  }

  predicate IsAbsolute(windows: bool, path: Path) {
    if windows then |path| > 1 && path[0].Prefix? && path[1].RootDir? else path != [] && path[0].RootDir?
  }

  /** An absolute path; on Windows a drive without a root will do. */
  predicate IsAnchored(windows: bool, path: Path) {
    path != [] && if windows then path[0].Prefix? else path[0].RootDir?
  }

  /** `X:name`, below whatever the current directory of that drive is. */
  predicate IsDriveRelative(path: Path) {
    path != [] && path[0].Prefix? && Anchors(path) == 1
  }

  /** Two places whose drives and names compare equal one by one. */
  ghost predicate PlaceEq(eq: (Component, Component) -> bool, p: Place, q: Place) {
    && (p.drive == q.drive || (p.drive.Some? && q.drive.Some? && eq(Prefix(p.drive.value), Prefix(q.drive.value))))
    && |p.names| == |q.names|
    && forall i :: 0 <= i < |p.names| ==> eq(Normal(p.names[i]), Normal(q.names[i]))
  }

  /** A drive has one current directory, however its name is spelled. */
  ghost predicate HomeRespects(eq: (Component, Component) -> bool, home: string -> Place) {
    forall a, b :: eq(Prefix(a), Prefix(b)) ==> PlaceEq(eq, home(a), home(b))
  }

  /** Under the exact comparison all of this is plain equality. */
  lemma ExactPlaces(home: string -> Place, p: Place, q: Place)
    ensures PlaceEq(ExactEq, p, q) <==> p == q
    ensures HomeRespects(ExactEq, home)
  {
  }

  lemma StepMatches(eq: (Component, Component) -> bool, home: string -> Place, x: Place, y: Place,
                    a: Component, b: Component)
    requires ComponentEq(eq) && HomeRespects(eq, home) && PlaceEq(eq, x, y) && eq(a, b)
    ensures PlaceEq(eq, Step(home, x, a), Step(home, y, b))
  {
    assert SameKind(a, b);
  }

  lemma {:induction false} WalkMatches(eq: (Component, Component) -> bool, home: string -> Place, x: Place, y: Place,
                                       p: Path, q: Path)
    requires ComponentEq(eq) && HomeRespects(eq, home) && PlaceEq(eq, x, y) && Matches(eq, p, q)
    ensures PlaceEq(eq, Walk(home, x, p), Walk(home, y, q))
    decreases |p|
  {
    if p != [] {
      StepMatches(eq, home, x, y, p[0], q[0]);
      WalkMatches(eq, home, Step(home, x, p[0]), Step(home, y, q[0]), p[1..], q[1..]);
    }
  }

  lemma {:induction false} WalkDepth(home: string -> Place, x: Place, p: Path)
    requires NoAnchor(p)
    ensures Walk(home, x, p).drive == x.drive
    ensures |Walk(home, x, p).names| <= |x.names| + |p|
    ensures |Walk(home, x, p).names| == |x.names| + |p| <==> forall c :: c in p ==> c.Normal?
    decreases |p|
  {
    if p != [] {
      assert !IsAnchor(p[0]);
      WalkDepth(home, Step(home, x, p[0]), p[1..]);
      assert p == [p[0]] + p[1..];
      assert (forall c :: c in p ==> c.Normal?) <==> p[0].Normal? && forall c :: c in p[1..] ==> c.Normal?;
    }
  }

  /** Climbing stops at the root of the drive. */
  function Climb(x: Place, n: nat): Place {
    Place(x.drive, x.names[..if n < |x.names| then |x.names| - n else 0])
  }

  lemma {:induction false} WalkUps(home: string -> Place, x: Place, n: nat)
    ensures Walk(home, x, Ups(n)) == Climb(x, n)
    decreases n
  {
    if n != 0 {
      assert Ups(n)[0] == ParentDir && Ups(n)[1..] == Ups(n - 1);
      WalkUps(home, Step(home, x, ParentDir), n - 1);
    }
  }

  /** Where the relative path leads: up from `from`, then down `to` past the shared front. */
  lemma WalkRelative(eq: (Component, Component) -> bool, home: string -> Place, at: Place, from: Path, to: Path)
    requires Common(eq, from, to) > 0
    ensures var k := Common(eq, from, to);
            Walk(home, at, from + Relative(eq, from, to)) ==
              Walk(home, Climb(Walk(home, at, from), |from| - k), to[k..])
  {
    var k := Common(eq, from, to);
    WalkConcat(home, at, from, Relative(eq, from, to));
    WalkConcat(home, Walk(home, at, from), Ups(|from| - k), to[k..]);
    WalkUps(home, Walk(home, at, from), |from| - k);
  }

  /** The shared front holds no name: the two share at most a root. */
  ghost predicate SharesNoName(eq: (Component, Component) -> bool, from: Path, to: Path) {
    forall i :: 0 <= i < Common(eq, from, to) ==> !to[i].Normal?
  }

  /** How far a path climbs right after its root parts. */
  function LeadingParents(path: Path): (n: nat)
    ensures Anchors(path) + n <= |path|
  {
    ParentsFrom(path[Anchors(path)..])
  }

  function ParentsFrom(path: Path): (n: nat)
    ensures n <= |path|
    ensures forall i :: 0 <= i < n ==> path[i].ParentDir?
    ensures n < |path| ==> !path[n].ParentDir?
  {
    if path == [] || !path[0].ParentDir? then 0 else 1 + ParentsFrom(path[1..])
  }

  /** When the relative path from an absolute directory leads to `to`. */
  ghost predicate Leads(eq: (Component, Component) -> bool, home: string -> Place, from: Path, to: Path) {
    || Common(eq, from, to) == 0
    || DescendsByNames(eq, from, to)
    || (SharesNoName(eq, from, to) &&
        (IsDriveRelative(to) ==> |home(to[0].name).names| <= LeadingParents(to)))
  }

  /** The shared front covers the root parts of `to`. */
  lemma SharedAnchors(eq: (Component, Component) -> bool, windows: bool, from: Path, to: Path)
    requires ComponentEq(eq) && IsPath(windows, from) && IsAbsolute(windows, from)
    requires IsPath(windows, to) && IsAnchored(windows, to)
    requires Common(eq, from, to) > 0
    ensures Common(eq, from, to) >= Anchors(to)
    ensures IsDriveRelative(to) ==> Common(eq, from, to) == 1
    ensures !IsDriveRelative(to) ==> Anchors(from) == Anchors(to)
    ensures NoAnchor(to[Common(eq, from, to)..])
    ensures !IsDriveRelative(to) ==> NoAnchor(from[Common(eq, from, to)..])
  {
    var k := Common(eq, from, to);
    assert eq(from[0], to[0]);
    if windows {
      if !IsDriveRelative(to) {
        assert eq(RootDir, RootDir);
      } else if |to| > 1 {
        assert !eq(from[1], to[1]);
      }
    }
    var a := Anchors(to);
    forall i | k <= i < |to|
      ensures !IsAnchor(to[i])
    {
      assert to[a..][i - a] == to[i];
    }
    if !IsDriveRelative(to) {
      forall i | k <= i < |from|
        ensures !IsAnchor(from[i])
      {
        assert from[a..][i - a] == from[i];
      }
    }
  }

  /** A walk over root parts and `..` ends at a root. */
  lemma {:induction false} NamelessWalk(home: string -> Place, at: Place, path: Path, windows: bool)
    requires IsPath(windows, path) && IsAbsolute(windows, path)
    requires forall i :: 0 <= i < |path| ==> !path[i].Normal? && !path[i].CurDir?
    ensures Walk(home, at, path).names == []
    decreases |path|
  {
    var front, last := path[..|path| - 1], path[|path| - 1];
    assert path == front + [last];
    WalkConcat(home, at, front, [last]);
    if |path| > Anchors(path) {
      assert path[Anchors(path)..][..|path| - 1 - Anchors(path)] == front[Anchors(front)..];
      NamelessWalk(home, at, front, windows);
    }
  }

  /** An absolute path walks to at most one name per component past the shared front
      more than the front does. */
  lemma WalkFrom(home: string -> Place, at: Place, from: Path, k: nat)
    requires k <= |from| && NoAnchor(from[k..])
    ensures var x, y := Walk(home, at, from[..k]), Walk(home, at, from);
            && y.drive == x.drive && |y.names| <= |x.names| + |from| - k
            && (|y.names| == |x.names| + |from| - k <==> forall c :: c in from[k..] ==> c.Normal?)
  {
    assert from == from[..k] + from[k..];
    WalkConcat(home, at, from[..k], from[k..]);
    WalkDepth(home, Walk(home, at, from[..k]), from[k..]);
  }

  /** Spelled as `from` spells it up to the shared front, `to` is the same place. */
  lemma SharedSpelling(eq: (Component, Component) -> bool, home: string -> Place, at: Place, from: Path, to: Path)
    requires ComponentEq(eq) && HomeRespects(eq, home)
    ensures var k := Common(eq, from, to);
            && PlaceEq(eq, Walk(home, at, from[..k]), Walk(home, at, to[..k]))
            && PlaceEq(eq, Walk(home, Walk(home, at, from[..k]), to[k..]), Walk(home, at, to))
  {
    var k := Common(eq, from, to);
    assert PlaceEq(eq, at, at);
    WalkMatches(eq, home, at, at, from[..k], to[..k]);
    WalkMatches(eq, home, Walk(home, at, from[..k]), Walk(home, at, to[..k]), to[k..], to[k..]);
    assert to == to[..k] + to[k..];
    WalkConcat(home, at, to[..k], to[k..]);
  }

  lemma LeadsByNames(eq: (Component, Component) -> bool, home: string -> Place, at: Place, from: Path, to: Path)
    requires ComponentEq(eq) && HomeRespects(eq, home) && Reduced(to) && Common(eq, from, to) > 0
    requires DescendsByNames(eq, from, to)
    ensures PlaceEq(eq, Walk(home, at, from + Relative(eq, from, to)), Walk(home, at, to))
  {
    var k := Common(eq, from, to);
    RelativeReaches(eq, from, to);
    NormalizeDenotesSamePlace(home, at, from + Relative(eq, from, to));
    WalkConcat(home, at, from[..k], to[k..]);
    SharedSpelling(eq, home, at, from, to);
  }

  /** Nothing named is shared: the climb ends at the shared root. */
  lemma LeadsFromRoot(eq: (Component, Component) -> bool, windows: bool, home: string -> Place, at: Place,
                      from: Path, to: Path)
    requires ComponentEq(eq) && HomeRespects(eq, home) && Reduced(to) && Common(eq, from, to) > 0
    requires IsPath(windows, from) && IsAbsolute(windows, from) && IsPath(windows, to) && IsAnchored(windows, to)
    requires SharesNoName(eq, from, to) && !IsDriveRelative(to)
    ensures PlaceEq(eq, Walk(home, at, from + Relative(eq, from, to)), Walk(home, at, to))
  {
    var k := Common(eq, from, to);
    var shared := from[..k];
    SharedAnchors(eq, windows, from, to);
    assert forall i :: 0 <= i < k ==> SameKind(from[i], to[i]);
    assert NoAnchor(shared[Anchors(shared)..]) by {
      assert forall i :: Anchors(from) <= i < |from| ==> from[i] == from[Anchors(from)..][i - Anchors(from)];
    }
    NamelessWalk(home, at, shared, windows);
    WalkFrom(home, at, from, k);
    WalkRelative(eq, home, at, from, to);
    SharedSpelling(eq, home, at, from, to);
  }

  /** A name is shared and `from` has a `..` below: the climb leaves too few names. */
  lemma MissesTarget(eq: (Component, Component) -> bool, windows: bool, home: string -> Place, at: Place,
                     from: Path, to: Path)
    requires ComponentEq(eq) && HomeRespects(eq, home) && Reduced(to) && Common(eq, from, to) > 0
    requires IsPath(windows, from) && IsAbsolute(windows, from) && IsPath(windows, to) && IsAnchored(windows, to)
    requires !SharesNoName(eq, from, to) && !DescendsByNames(eq, from, to)
    ensures !PlaceEq(eq, Walk(home, at, from + Relative(eq, from, to)), Walk(home, at, to))
  {
    var k := Common(eq, from, to);
    SharedAnchors(eq, windows, from, to);
    AfterName(windows, to, k);
    assert SameKind(from[k - 1], to[k - 1]);
    EndsInName(home, at, from[..k]);
    WalkFrom(home, at, from, k);
    WalkRelative(eq, home, at, from, to);
    SharedSpelling(eq, home, at, from, to);
    DepthBelow(home, Walk(home, at, from[..k]), to[k..]);
    DepthBelow(home, Climb(Walk(home, at, from), |from| - k), to[k..]);
  }

  lemma EndsInName(home: string -> Place, at: Place, path: Path)
    requires path != [] && path[|path| - 1].Normal?
    ensures Walk(home, at, path).names != []
  {
    var front, last := path[..|path| - 1], path[|path| - 1];
    assert path == front + [last] && [last][1..] == [];
    WalkConcat(home, at, front, [last]);
  }

  lemma DepthBelow(home: string -> Place, x: Place, names: Path)
    requires forall c :: c in names ==> c.Normal?
    ensures |Walk(home, x, names).names| == |x.names| + |names|
  {
    assert forall i :: 0 <= i < |names| ==> names[i] in names;
    WalkDepth(home, x, names);
  }

  /** From the first name on, a reduced path has names only. */
  lemma AfterName(windows: bool, to: Path, k: nat)
    requires Reduced(to) && IsPath(windows, to) && k <= |to|
    requires exists i :: 0 <= i < k && to[i].Normal?
    ensures to[k - 1].Normal? && forall c :: c in to[k..] ==> c.Normal?
  {
    var i :| 0 <= i < k && to[i].Normal?;
    PathIsWellFormed(windows, to);
    forall j | i < j < |to|
      ensures to[j].Normal?
    {
      ReducedIsSorted(to, i, j);
    }
  }

  lemma PathIsWellFormed(windows: bool, path: Path)
    requires IsPath(windows, path)
    ensures WellFormed(path)
  {
    var a := Anchors(path);
    assert forall j :: a <= j < |path| ==> path[j] == path[a..][j - a];
  }

  /** A path below a drive's current directory, reached from the drive's root. */
  lemma DriveRelativeLeadsIff(eq: (Component, Component) -> bool, windows: bool, home: string -> Place, at: Place,
                              from: Path, to: Path)
    requires ComponentEq(eq) && HomeRespects(eq, home) && Reduced(to) && Common(eq, from, to) > 0
    requires IsPath(windows, from) && IsAbsolute(windows, from) && IsPath(windows, to) && IsAnchored(windows, to)
    requires IsDriveRelative(to)
    ensures PlaceEq(eq, Walk(home, at, from + Relative(eq, from, to)), Walk(home, at, to)) <==>
              |home(to[0].name).names| <= LeadingParents(to)
  {
    SharedAnchors(eq, windows, from, to);
    WalkRelative(eq, home, at, from, to);
    ClimbsToDriveRoot(home, at, from);
    BelowDrive(windows, home, at, to);
    assert eq(from[0], to[0]);
    var n := LeadingParents(to);
    ClimbedTails(eq, home, Place(home(from[0].name).drive, []), home(to[0].name), n, to[1 + n..]);
  }

  lemma BelowDrive(windows: bool, home: string -> Place, at: Place, to: Path)
    requires Reduced(to) && IsPath(windows, to) && IsDriveRelative(to)
    ensures var n := LeadingParents(to);
            && to[1..] == Ups(n) + to[1 + n..] && (forall c :: c in to[1 + n..] ==> c.Normal?)
            && Walk(home, at, to) == Walk(home, home(to[0].name), Ups(n) + to[1 + n..])
  {
    var n := LeadingParents(to);
    ParentsThenNames(windows, to);
    assert to[1..] == to[1..1 + n] + to[1 + n..];
  }

  lemma ClimbsToDriveRoot(home: string -> Place, at: Place, from: Path)
    requires |from| > 1 && from[0].Prefix? && from[1].RootDir? && NoAnchor(from[2..])
    ensures Climb(Walk(home, at, from), |from| - 1) == Place(home(from[0].name).drive, [])
  {
    var root := from[..2];
    assert root[1..] == [RootDir] && [RootDir][1..] == [];
    assert Walk(home, at, root) == Walk(home, home(from[0].name), [RootDir]);
    WalkFrom(home, at, from, 2);
  }

  lemma ParentsAreUps(path: Path)
    ensures path[..ParentsFrom(path)] == Ups(ParentsFrom(path))
  {
    forall i | 0 <= i < ParentsFrom(path)
      ensures path[i] == ParentDir
    {
      assert path[i].ParentDir?;
    }
  }

  lemma ParentsThenNames(windows: bool, to: Path)
    requires Reduced(to) && IsPath(windows, to)
    ensures var a, n := Anchors(to), LeadingParents(to);
            to[a..a + n] == Ups(n) && forall c :: c in to[a + n..] ==> c.Normal?
  {
    var a, n := Anchors(to), LeadingParents(to);
    var below := to[a..];
    ParentsAreUps(below);
    assert to[a..a + n] == below[..n];
    if a + n < |to| {
      assert to[a + n] == below[n];
      assert to[a + n].Normal?;
      NamesFrom(windows, to, a + n);
    }
  }

  lemma NamesFrom(windows: bool, to: Path, k: nat)
    requires Reduced(to) && IsPath(windows, to) && k < |to| && to[k].Normal?
    ensures forall c :: c in to[k..] ==> c.Normal?
  {
    AfterName(windows, to, k + 1);
    assert to[k..] == [to[k]] + to[k + 1..];
  }

  /** Below `y`, a path that climbs `n` steps and then names directories leads where it
      leads from the root of the same drive exactly when `y` is at most `n` deep. */
  lemma ClimbedTails(eq: (Component, Component) -> bool, home: string -> Place, root: Place, y: Place, n: nat,
                     names: Path)
    requires ComponentEq(eq) && HomeRespects(eq, home)
    requires root.names == [] && PlaceEq(eq, root, Place(y.drive, []))
    requires forall c :: c in names ==> c.Normal?
    ensures PlaceEq(eq, Walk(home, root, Ups(n) + names), Walk(home, y, Ups(n) + names)) <==> |y.names| <= n
  {
    WalkUpsThenNames(home, root, n, names);
    WalkUpsThenNames(home, y, n, names);
    if |y.names| <= n {
      assert Climb(root, n) == root && Climb(y, n) == Place(y.drive, []);
      WalkMatches(eq, home, root, Place(y.drive, []), names, names);
    }
  }

  lemma WalkUpsThenNames(home: string -> Place, x: Place, n: nat, names: Path)
    requires forall c :: c in names ==> c.Normal?
    ensures Walk(home, x, Ups(n) + names) == Walk(home, Climb(x, n), names)
    ensures |Walk(home, x, Ups(n) + names).names| == |Climb(x, n).names| + |names|
  {
    assert forall i :: 0 <= i < |names| ==> names[i] in names;
    WalkConcat(home, x, Ups(n), names);
    WalkUps(home, x, n);
    WalkDepth(home, Climb(x, n), names);
  }

  /** The relative path from an absolute directory leads to `to` exactly when `from` descends
      by names past the shared front, or nothing named is shared (and, for a path below a
      drive's current directory, that directory is no deeper than the path climbs). */
  lemma RelativeLeadsIff(eq: (Component, Component) -> bool, windows: bool, home: string -> Place, at: Place,
                         from: Path, to: Path)
    requires ComponentEq(eq) && HomeRespects(eq, home) && Reduced(to)
    requires IsPath(windows, from) && IsAbsolute(windows, from) && IsPath(windows, to) && IsAnchored(windows, to)
    ensures PlaceEq(eq, Walk(home, at, from + Relative(eq, from, to)), Walk(home, at, to)) <==>
              Leads(eq, home, from, to)
  {
    if Common(eq, from, to) == 0 {
      assert eq(RootDir, RootDir);
      WalkConcat(home, at, from, to);
    } else if DescendsByNames(eq, from, to) {
      LeadsByNames(eq, home, at, from, to);
    } else if !SharesNoName(eq, from, to) {
      MissesTarget(eq, windows, home, at, from, to);
    } else if IsDriveRelative(to) {
      DriveRelativeLeadsIff(eq, windows, home, at, from, to);
    } else {
      LeadsFromRoot(eq, windows, home, at, from, to);
    }
  }

  // ---- the text that is written -------------------------------------------------

  function ComponentText(c: Component): string {
    match c
    case Prefix(n) => n
    case RootDir => "/"
    case CurDir => "."
    case ParentDir => ".."
    case Normal(n) => n
  }

  function JoinSlash(parts: Path): string {
    if parts == [] then ""
    else if |parts| == 1 then ComponentText(parts[0])
    else ComponentText(parts[0]) + "/" + JoinSlash(parts[1..])
  }

  /** A whole path; no separator follows a root part. */
  function PathText(path: Path): string {
    if path == [] then ""
    else if |path| == 1 then ComponentText(path[0])
    else ComponentText(path[0]) + (if IsAnchor(path[0]) then "" else "/") + PathText(path[1..])
  }

  function ForwardSlashes(text: string): string {
    seq(|text|, i requires 0 <= i < |text| => if text[i] == '\\' then '/' else text[i])
  }

  function RelativeText(eq: (Component, Component) -> bool, from: Path, to: Path): string {
    if Common(eq, from, to) == 0 then ForwardSlashes(PathText(to))
    else if Relative(eq, from, to) == [] then "."
    else JoinSlash(Relative(eq, from, to))
  }

  predicate IsAlphabetic(c: char) {
    'a' <= c <= 'z' || 'A' <= c <= 'Z'
  }

  predicate IsAbsoluteRuntimePath(path: string) {
    var p := Trim(path);
    || StartsWith(p, "\\\\")
    || StartsWith(p, "/")
    || (|p| >= 3 && IsAlphabetic(p[0]) && p[1] == ':' && (p[2] == '/' || p[2] == '\\'))
  }

  /** How Windows spells a drive: `X:`, or a share or device behind two backslashes. */
  predicate DriveText(name: string) {
    || (|name| == 2 && IsAlphabetic(name[0]) && name[1] == ':')
    || StartsWith(name, "\\\\")
  }

  lemma AbsoluteTextIsAbsolute(windows: bool, path: Path)
    requires IsAbsolute(windows, path) && (windows ==> DriveText(path[0].name))
    ensures IsAbsoluteRuntimePath(ForwardSlashes(PathText(path)))
  {
    if windows && !StartsWith(path[0].name, "\\\\") {
      DriveTextIsAbsolute(path);
    } else {
      assert PathText(path)[0] in "/\\";
      SlashTextIsAbsolute(ForwardSlashes(PathText(path)));
    }
  }

  lemma SlashTextIsAbsolute(text: string)
    requires text != "" && text[0] == '/'
    ensures IsAbsoluteRuntimePath(text)
  {
    TrimEndSplits(text);
    assert text[0] == text[0..][0];
  }

  lemma DriveTextIsAbsolute(path: Path)
    requires IsAbsolute(true, path) && DriveText(path[0].name) && !StartsWith(path[0].name, "\\\\")
    ensures IsAbsoluteRuntimePath(ForwardSlashes(PathText(path)))
  {
    var text := ForwardSlashes(PathText(path));
    assert PathText(path) == path[0].name + PathText(path[1..]) && PathText(path[1..])[0] == '/';
    assert text[0] == path[0].name[0] && text[1] == ':' && text[2] == '/';
    TrimEndSplits(text);
  }

  /** A name whose text cannot be taken for a root or a drive. */
  predicate PlainName(c: Component) {
    c.Normal? && c.name != "" && !IsSpace(c.name[0])
    && forall i :: 0 <= i < |c.name| ==> c.name[i] !in "/\\:"
  }

  lemma PlainStartIsRelative(t: string)
    requires t != "" && !IsSpace(t[0]) && t[0] !in "/\\"
    requires |t| > 1 ==> t[1] != ':'
    ensures !IsAbsoluteRuntimePath(t)
  {
    TrimEndSplits(t);
  }

  lemma PlainTextIsRelative(parts: Path)
    requires parts != [] && (parts[0].ParentDir? || PlainName(parts[0]))
    ensures !IsAbsoluteRuntimePath(JoinSlash(parts))
  {
    var first, t := ComponentText(parts[0]), JoinSlash(parts);
    assert t == first || t == first + ("/" + JoinSlash(parts[1..]));
    PlainStartIsRelative(t);
  }

  /** Past its root parts, an absolute path climbs and names plain directories only. */
  predicate IsPlain(path: Path) {
    forall i :: Anchors(path) <= i < |path| ==> path[i].ParentDir? || PlainName(path[i])
  }

  lemma {:induction false} TrimStartKeeps(s: string, rest: string)
    requires TrimStart(s) != ""
    ensures TrimStart(s + rest) == TrimStart(s) + rest
  {
    if IsSpace(s[0]) {
      assert (s + rest)[1..] == s[1..] + rest;
      TrimStartKeeps(s[1..], rest);
    }
  }

  lemma {:induction false} TrimStartOfSlashed(s: string)
    requires s != "" && s[|s| - 1] == '/'
    ensures TrimStart(s) != "" && TrimStart(s)[|TrimStart(s)| - 1] == '/'
  {
    if IsSpace(s[0]) {
      TrimStartOfSlashed(s[1..]);
    }
  }

  lemma TrimKeepsFront(h: string, rest: string)
    requires h != "" && h[|h| - 1] == '/'
    ensures |h| <= |TrimEnd(h + rest)| && TrimEnd(h + rest)[..|h|] == h && TrimEnd(h) == h
  {
    var text := h + rest;
    TrimEndSplits(text);
    var n := |TrimEnd(text)|;
    assert forall i :: n <= i < |text| ==> text[i] == text[n..][i - n];
    assert text[|h| - 1] == '/';
  }

  /** What follows the first separator has no say in whether a text reads as absolute. */
  lemma AbsoluteByFront(front: string, rest: string)
    requires front != "" && front[|front| - 1] == '/'
    ensures IsAbsoluteRuntimePath(front + rest) <==> IsAbsoluteRuntimePath(front)
  {
    var h := TrimStart(front);
    TrimStartOfSlashed(front);
    TrimStartKeeps(front, rest);
    TrimKeepsFront(h, rest);
    var p := Trim(front + rest);
    assert p[..|h|] == h && Trim(front) == h;
    assert forall i :: 0 <= i < |h| ==> p[i] == h[i];
  }

  /** The first component reads as a root or a drive: what the check for absolute paths refuses. */
  predicate ReadsAsRoot(parts: Path) {
    parts != [] && IsAbsoluteRuntimePath(ComponentText(parts[0]) + if |parts| > 1 then "/" else "")
  }

  lemma JoinedIsAbsoluteIff(parts: Path)
    requires parts != []
    ensures IsAbsoluteRuntimePath(JoinSlash(parts)) <==> ReadsAsRoot(parts)
  {
    var first := ComponentText(parts[0]);
    if |parts| == 1 {
      assert first + "" == first;
    } else {
      AbsoluteByFront(first + "/", JoinSlash(parts[1..]));
    }
  }

  /** `to` lies below `from`, and its first part there reads as a root or a drive. */
  predicate Refused(eq: (Component, Component) -> bool, from: Path, to: Path) {
    Common(eq, from, to) == |from| && ReadsAsRoot(to[|from|..])
  }

  /** Between absolute directories the relative text reads as absolute exactly where nothing is
      shared or the check takes its first part for a root. */
  lemma TextIsAbsoluteIff(eq: (Component, Component) -> bool, windows: bool, from: Path, to: Path)
    requires ComponentEq(eq) && IsPath(windows, from) && IsAbsolute(windows, from)
    requires IsPath(windows, to) && IsAbsolute(windows, to) && (windows ==> DriveText(to[0].name))
    ensures IsAbsoluteRuntimePath(RelativeText(eq, from, to)) <==>
              Common(eq, from, to) == 0 || Refused(eq, from, to)
  {
    var k := Common(eq, from, to);
    var parts := Relative(eq, from, to);
    if k == 0 {
      AbsoluteTextIsAbsolute(windows, to);
    } else if parts == [] {
      PlainStartIsRelative(".");
    } else if k < |from| {
      PlainTextIsRelative(parts);
    } else {
      assert parts == to[k..];
      JoinedIsAbsoluteIff(parts);
    }
  }

  lemma PlainIsNotRefused(eq: (Component, Component) -> bool, windows: bool, from: Path, to: Path)
    requires ComponentEq(eq) && IsPath(windows, from) && IsAbsolute(windows, from)
    requires IsPath(windows, to) && IsAbsolute(windows, to) && IsPlain(to)
    ensures !Refused(eq, from, to)
  {
    if Common(eq, from, to) == |from| < |to| {
      SharedAnchors(eq, windows, from, to);
      var parts := to[|from|..];
      PlainTextIsRelative(parts);
      JoinedIsAbsoluteIff(parts);
    }
  }

  // ---- the runtime wiring -----------------------------------------------------------

  /** Joining a path onto an absolute one: a drive replaces it, a root keeps its drive. */
  function Join(base: Path, path: Path): Path {
    if path != [] && path[0].Prefix? then path
    else if path != [] && path[0].RootDir? then
      (if base != [] && base[0].Prefix? then [base[0]] else []) + path
    else base + path
  }

  /** The two relative paths written out: go.mod's from the out dir, go.work's from the project root. */
  datatype RuntimeDevReplace = RuntimeDevReplace(goMod: Path, goWork: Path)

  function RelativizeRuntimeDir(eq: (Component, Component) -> bool, project: Path, out: Path, runtimeDir: Path)
    : Option<RuntimeDevReplace>
  {
    if IsAbsoluteRuntimePath(RelativeText(eq, out, runtimeDir)) ||
       IsAbsoluteRuntimePath(RelativeText(eq, project, runtimeDir)) then None
    else Some(RuntimeDevReplace(Relative(eq, out, runtimeDir), Relative(eq, project, runtimeDir)))
  }

  const RUNTIME_DIR: Path := [Normal("runtime"), Normal("go")]

  /** The runtime directory below `[lazuli] path`, which is given relative to the project. */
  function RuntimeDir(windows: bool, project: Path, lazuliRoot: Path): Path {
    var rootAbs := if IsAbsolute(windows, lazuliRoot) then lazuliRoot else Join(project, lazuliRoot);
    Normalize(rootAbs + RUNTIME_DIR)
  }

  function ResolveRuntimeReplace(eq: (Component, Component) -> bool, windows: bool,
                                 project: Path, out: Path, lazuliRoot: Path): Option<RuntimeDevReplace> {
    RelativizeRuntimeDir(eq, project, out, RuntimeDir(windows, project, lazuliRoot))
  }

  lemma {:induction false} CollapseAboveAnchors(anchors: Path, out: Path, path: Path)
    requires forall i :: 0 <= i < |anchors| ==> IsAnchor(anchors[i])
    requires NoAnchor(out) && NoAnchor(path)
    ensures var end := Collapse(anchors + out, path);
            |anchors| <= |end| && end[..|anchors|] == anchors && NoAnchor(end[|anchors|..])
    decreases |path|
  {
    if path != [] {
      var next := Push(anchors + out, path[0]);
      assert next == anchors + next[|anchors|..];
      CollapseAboveAnchors(anchors, next[|anchors|..], path[1..]);
    }
  }

  /** The root parts of an anchored path: a drive, a root, or both. */
  predicate AreAnchors(windows: bool, anchors: Path) {
    if windows then
      |anchors| in {1, 2} && anchors[0].Prefix? && (|anchors| == 2 ==> anchors[1].RootDir?)
    else |anchors| == 1 && anchors[0].RootDir?
  }

  lemma BelowAnchors(windows: bool, anchors: Path, rest: Path)
    requires AreAnchors(windows, anchors) && NoAnchor(rest)
    ensures IsPath(windows, anchors + rest) && IsAnchored(windows, anchors + rest)
    ensures Anchors(anchors + rest) == |anchors| && (anchors + rest)[0] == anchors[0]
  {
    assert (anchors + rest)[|anchors|..] == rest;
    assert rest != [] ==> (anchors + rest)[|anchors|] == rest[0];
  }

  lemma NormalizeAnchored(anchors: Path, rest: Path)
    requires (forall i :: 0 <= i < |anchors| ==> IsAnchor(anchors[i])) && NoAnchor(rest)
    ensures var n := Normalize(anchors + rest);
            |anchors| <= |n| && n[..|anchors|] == anchors && NoAnchor(n[|anchors|..])
  {
    CollapseConcat([], anchors, rest);
    assert anchors + [] == anchors && [] + anchors == anchors;
    CollapseKeepsReduced([], anchors);
    CollapseAboveAnchors(anchors, [], rest);
  }

  lemma NormalizeKeepsAnchors(windows: bool, path: Path)
    requires IsPath(windows, path) && IsAnchored(windows, path)
    ensures IsPath(windows, Normalize(path)) && IsAnchored(windows, Normalize(path))
    ensures Anchors(Normalize(path)) == Anchors(path) && Normalize(path)[0] == path[0]
  {
    var anchors, rest := path[..Anchors(path)], path[Anchors(path)..];
    assert path == anchors + rest && AreAnchors(windows, anchors);
    NormalizeAnchored(anchors, rest);
    var below := Normalize(path)[|anchors|..];
    assert Normalize(path) == anchors + below;
    BelowAnchors(windows, anchors, below);
  }

  lemma JoinIsPath(windows: bool, base: Path, path: Path)
    requires IsPath(windows, base) && IsAbsolute(windows, base) && IsPath(windows, path)
    ensures IsPath(windows, Join(base, path)) && IsAnchored(windows, Join(base, path))
    ensures IsDriveRelative(Join(base, path)) <==> IsDriveRelative(path)
    ensures IsAbsolute(windows, path) ==> Join(base, path) == path
  {
    var j, a, b := Join(base, path), Anchors(base), Anchors(path);
    assert forall i :: a <= i < |base| ==> base[i] == base[a..][i - a];
    assert forall i :: b <= i < |path| ==> path[i] == path[b..][i - b];
  }

  /** Joining is walking on from the base. */
  lemma JoinWalks(windows: bool, home: string -> Place, at: Place, base: Path, path: Path)
    requires IsPath(windows, base) && IsAbsolute(windows, base) && IsPath(windows, path)
    ensures Walk(home, at, Join(base, path)) == Walk(home, Walk(home, at, base), path)
  {
    WalkConcat(home, at, base, path);
    if path != [] && path[0].RootDir? {
      var a := Anchors(base);
      assert base == base[..a] + base[a..];
      WalkConcat(home, at, base[..a], base[a..]);
      WalkDepth(home, Walk(home, at, base[..a]), base[a..]);
      if windows {
        assert base[..a] == [base[0], RootDir] && base[..a][1..] == [RootDir] && [RootDir][1..] == [];
        assert ([base[0]] + path)[1..] == path;
      } else {
        assert base[..a] == [RootDir] && [] + path == path;
      }
    }
  }

  /** The runtime directory, reached from the project directory by `[lazuli] path`. */
  function RuntimePlace(home: string -> Place, at: Place, project: Path, lazuliRoot: Path): Place {
    Walk(home, Walk(home, at, project), lazuliRoot + RUNTIME_DIR)
  }

  lemma RuntimeDirIsPath(windows: bool, project: Path, lazuliRoot: Path)
    requires IsPath(windows, project) && IsAbsolute(windows, project) && IsPath(windows, lazuliRoot)
    ensures var dir := RuntimeDir(windows, project, lazuliRoot);
            && Reduced(dir) && IsPath(windows, dir) && IsAnchored(windows, dir)
            && (IsDriveRelative(dir) <==> IsDriveRelative(lazuliRoot))
            && dir == Normalize(Join(project, lazuliRoot) + RUNTIME_DIR)
            && dir[0] == if lazuliRoot != [] && lazuliRoot[0].Prefix? then lazuliRoot[0] else project[0]
  {
    var root := Join(project, lazuliRoot);
    var full := root + RUNTIME_DIR;
    JoinIsPath(windows, project, lazuliRoot);
    assert Anchors(full) == Anchors(root) && full[0] == root[0];
    assert full[Anchors(full)..] == root[Anchors(root)..] + RUNTIME_DIR;
    NormalizeKeepsAnchors(windows, full);
    CollapseReduces([], full);
  }

  lemma RuntimeDirDenotes(windows: bool, home: string -> Place, at: Place, project: Path, lazuliRoot: Path)
    requires IsPath(windows, project) && IsAbsolute(windows, project) && IsPath(windows, lazuliRoot)
    ensures Walk(home, at, RuntimeDir(windows, project, lazuliRoot)) == RuntimePlace(home, at, project, lazuliRoot)
  {
    var root := Join(project, lazuliRoot);
    RuntimeDirIsPath(windows, project, lazuliRoot);
    NormalizeDenotesSamePlace(home, at, root + RUNTIME_DIR);
    WalkConcat(home, at, root, RUNTIME_DIR);
    JoinWalks(windows, home, at, project, lazuliRoot);
    WalkConcat(home, Walk(home, at, project), lazuliRoot, RUNTIME_DIR);
  }

  /** When the two emitted paths name the runtime directory: for absolute project and out
      directories, whatever `[lazuli] path` says. */
  lemma RuntimeWiringIff(eq: (Component, Component) -> bool, windows: bool, home: string -> Place, at: Place,
                         project: Path, out: Path, lazuliRoot: Path)
    requires ComponentEq(eq) && HomeRespects(eq, home) && IsPath(windows, lazuliRoot)
    requires IsPath(windows, project) && IsAbsolute(windows, project)
    requires IsPath(windows, out) && IsAbsolute(windows, out)
    ensures
      var dir, target := RuntimeDir(windows, project, lazuliRoot), RuntimePlace(home, at, project, lazuliRoot);
      match ResolveRuntimeReplace(eq, windows, project, out, lazuliRoot)
      case None => true
      case Some(r) =>
        && (PlaceEq(eq, Walk(home, at, out + r.goMod), target) <==> Leads(eq, home, out, dir))
        && (PlaceEq(eq, Walk(home, at, project + r.goWork), target) <==> Leads(eq, home, project, dir))
  {
    var dir := RuntimeDir(windows, project, lazuliRoot);
    RuntimeDirIsPath(windows, project, lazuliRoot);
    RuntimeDirDenotes(windows, home, at, project, lazuliRoot);
    RelativeLeadsIff(eq, windows, home, at, out, dir);
    RelativeLeadsIff(eq, windows, home, at, project, dir);
  }

  /** Root parts and then names only. */
  predicate IsClean(path: Path) {
    forall i :: Anchors(path) <= i < |path| ==> path[i].Normal?
  }

  lemma CleanDescends(eq: (Component, Component) -> bool, windows: bool, from: Path, to: Path)
    requires ComponentEq(eq) && IsPath(windows, from) && IsAbsolute(windows, from) && IsClean(from)
    requires IsPath(windows, to) && IsAnchored(windows, to) && !IsDriveRelative(to)
    requires Common(eq, from, to) > 0
    ensures DescendsByNames(eq, from, to)
  {
    SharedAnchors(eq, windows, from, to);
  }

  /** For absolute project and out directories without dots, and any `[lazuli] path` but one
      below a drive's current directory, go.mod's path and go.work's path both name the
      directory `<root>/runtime/go`. */
  lemma RuntimeWiringNamesOneDirectory(eq: (Component, Component) -> bool, windows: bool,
                                       home: string -> Place, at: Place,
                                       project: Path, out: Path, lazuliRoot: Path)
    requires ComponentEq(eq) && HomeRespects(eq, home)
    requires IsPath(windows, lazuliRoot) && !IsDriveRelative(lazuliRoot)
    requires IsPath(windows, project) && IsAbsolute(windows, project) && IsClean(project)
    requires IsPath(windows, out) && IsAbsolute(windows, out) && IsClean(out)
    ensures
      var target := RuntimePlace(home, at, project, lazuliRoot);
      match ResolveRuntimeReplace(eq, windows, project, out, lazuliRoot)
      case None => true
      case Some(r) =>
        && PlaceEq(eq, Walk(home, at, out + r.goMod), target)
        && PlaceEq(eq, Walk(home, at, project + r.goWork), target)
  {
    var dir := RuntimeDir(windows, project, lazuliRoot);
    RuntimeDirIsPath(windows, project, lazuliRoot);
    RuntimeDirDenotes(windows, home, at, project, lazuliRoot);
    RuntimeWiringIff(eq, windows, home, at, project, out, lazuliRoot);
    if Common(eq, out, dir) > 0 { CleanDescends(eq, windows, out, dir); }
    if Common(eq, project, dir) > 0 { CleanDescends(eq, windows, project, dir); }
  }

  /** An absolute runtime directory is never written out as such: wiring for it means that
      it shares a root with both directories. */
  lemma NoAbsolutePathIsEmitted(eq: (Component, Component) -> bool, windows: bool, project: Path, out: Path,
                                runtimeDir: Path)
    requires IsAbsolute(windows, runtimeDir) && (windows ==> DriveText(runtimeDir[0].name))
    ensures RelativizeRuntimeDir(eq, project, out, runtimeDir).Some? ==>
              Common(eq, project, runtimeDir) > 0 && Common(eq, out, runtimeDir) > 0
  {
    AbsoluteTextIsAbsolute(windows, runtimeDir);
  }

  /** Between absolute directories, wiring is emitted exactly when the runtime directory is on
      the drive of both, and below neither under a name that reads as a root or a drive. */
  lemma DirectoriesAreWiredIff(eq: (Component, Component) -> bool, windows: bool, project: Path, out: Path,
                               runtimeDir: Path)
    requires ComponentEq(eq)
    requires IsPath(windows, project) && IsAbsolute(windows, project)
    requires IsPath(windows, out) && IsAbsolute(windows, out)
    requires IsPath(windows, runtimeDir) && IsAbsolute(windows, runtimeDir)
    requires windows ==> DriveText(runtimeDir[0].name)
    ensures RelativizeRuntimeDir(eq, project, out, runtimeDir).Some? <==>
              && eq(project[0], runtimeDir[0]) && eq(out[0], runtimeDir[0])
              && !Refused(eq, project, runtimeDir) && !Refused(eq, out, runtimeDir)
  {
    TextIsAbsoluteIff(eq, windows, project, runtimeDir);
    TextIsAbsoluteIff(eq, windows, out, runtimeDir);
  }

  /** With plain names only the drive decides. */
  lemma PlainDirectoriesAreWiredIff(eq: (Component, Component) -> bool, windows: bool, project: Path, out: Path,
                                    runtimeDir: Path)
    requires ComponentEq(eq)
    requires IsPath(windows, project) && IsAbsolute(windows, project)
    requires IsPath(windows, out) && IsAbsolute(windows, out)
    requires IsPath(windows, runtimeDir) && IsAbsolute(windows, runtimeDir)
    requires (windows ==> DriveText(runtimeDir[0].name)) && IsPlain(runtimeDir)
    ensures RelativizeRuntimeDir(eq, project, out, runtimeDir).Some? <==>
              eq(project[0], runtimeDir[0]) && eq(out[0], runtimeDir[0])
  {
    DirectoriesAreWiredIff(eq, windows, project, out, runtimeDir);
    PlainIsNotRefused(eq, windows, project, runtimeDir);
    PlainIsNotRefused(eq, windows, out, runtimeDir);
  }

  lemma CommonOfPrefix(eq: (Component, Component) -> bool, path: Path, below: Path)
    requires ComponentEq(eq)
    ensures Common(eq, path, path + below) == |path|
  {
    assert forall i :: 0 <= i < |path| ==> (path + below)[i] == path[i];
  }

  lemma DriveNameReadsAsRoot(name: string, rest: Path)
    requires rest != [] && |name| == 2 && IsAlphabetic(name[0]) && name[1] == ':'
    ensures ReadsAsRoot([Normal(name)] + rest)
  {
    var text := name + "/";
    assert text[0] == name[0] && text[1] == ':' && text[2] == '/';
    TrimOfTrimmed(text);
  }

  /** A directory that is named like a drive and lies below the project is refused, although the
      relative path exists: `C:` in `/p/C:/go`, seen from `/p`. */
  lemma DriveLikeNameIsRefused(eq: (Component, Component) -> bool, project: Path, out: Path, name: string, rest: Path)
    requires ComponentEq(eq) && project != [] && rest != []
    requires |name| == 2 && IsAlphabetic(name[0]) && name[1] == ':'
    ensures Relative(eq, project, project + ([Normal(name)] + rest)) == [Normal(name)] + rest
    ensures RelativizeRuntimeDir(eq, project, out, project + ([Normal(name)] + rest)).None?
  {
    var below := [Normal(name)] + rest;
    CommonOfPrefix(eq, project, below);
    assert (project + below)[|project|..] == below;
    DriveNameReadsAsRoot(name, rest);
    JoinedIsAbsoluteIff(below);
  }

  // ---- relative or absent -------------------------------------------------------------------

  /** A relative path has no root part exactly when the two paths start alike. */
  lemma RelativeHasNoAnchorIff(eq: (Component, Component) -> bool, windows: bool, from: Path, to: Path)
    requires ComponentEq(eq) && IsPath(windows, from) && IsAbsolute(windows, from)
    requires IsPath(windows, to) && IsAnchored(windows, to)
    ensures NoAnchor(Relative(eq, from, to)) <==> eq(from[0], to[0])
  {
    if Common(eq, from, to) == 0 {
      assert IsAnchor(Relative(eq, from, to)[0]);
    } else {
      SharedAnchors(eq, windows, from, to);
    }
  }

  /** When an emitted path is relative: always, unless `[lazuli] path` is below the current
      directory of a drive, and then exactly for the directory on that drive. */
  lemma EmittedIsRelativeIff(eq: (Component, Component) -> bool, windows: bool, project: Path, out: Path,
                             lazuliRoot: Path)
    requires ComponentEq(eq) && IsPath(windows, lazuliRoot)
    requires IsPath(windows, project) && IsAbsolute(windows, project)
    requires IsPath(windows, out) && IsAbsolute(windows, out)
    requires windows ==> DriveText(project[0].name)
    requires lazuliRoot != [] && lazuliRoot[0].Prefix? ==> DriveText(lazuliRoot[0].name)
    ensures
      match ResolveRuntimeReplace(eq, windows, project, out, lazuliRoot)
      case None => true
      case Some(r) =>
        && (NoAnchor(r.goMod) <==> (IsDriveRelative(lazuliRoot) ==> eq(out[0], lazuliRoot[0])))
        && (NoAnchor(r.goWork) <==> (IsDriveRelative(lazuliRoot) ==> eq(project[0], lazuliRoot[0])))
  {
    var dir := RuntimeDir(windows, project, lazuliRoot);
    RuntimeDirIsPath(windows, project, lazuliRoot);
    RelativeHasNoAnchorIff(eq, windows, out, dir);
    RelativeHasNoAnchorIff(eq, windows, project, dir);
    if !IsDriveRelative(lazuliRoot) {
      NoAbsolutePathIsEmitted(eq, windows, project, out, dir);
    }
  }

  lemma {:induction false} CollapseMembers(out: Path, path: Path)
    ensures forall c :: c in Collapse(out, path) ==> c in out || c in path
    decreases |path|
  {
    if path != [] {
      CollapseMembers(Push(out, path[0]), path[1..]);
      assert path == [path[0]] + path[1..];
    }
  }

  predicate LetterDrive(c: Component) {
    c.Prefix? && |c.name| == 2 && IsAlphabetic(c.name[0]) && c.name[1] == ':'
  }

  predicate PlainPart(c: Component) {
    c.CurDir? || c.ParentDir? || PlainName(c)
  }

  lemma RuntimeNamesArePlain()
    ensures PlainName(Normal("runtime")) && PlainName(Normal("go"))
  {
    assert "runtime"[0] == 'r' && "go"[0] == 'g';
  }

  lemma PartsArePlain(lazuliRoot: Path)
    requires lazuliRoot != [] && lazuliRoot[0].Prefix?
    requires forall i :: 1 <= i < |lazuliRoot| ==> PlainPart(lazuliRoot[i])
    ensures forall c :: c in lazuliRoot + RUNTIME_DIR ==> c.Prefix? || PlainPart(c)
  {
    RuntimeNamesArePlain();
    forall c | c in lazuliRoot
      ensures c.Prefix? || PlainPart(c)
    {
      var i :| 0 <= i < |lazuliRoot| && lazuliRoot[i] == c;
    }
  }

  lemma NormalizeEnds(path: Path, last: Component)
    requires last.Normal?
    ensures Normalize(path + [last]) == Normalize(path) + [last]
  {
    CollapseConcat([], path, [last]);
    assert [last][1..] == [];
  }

  lemma DriveRelativeDir(project: Path, lazuliRoot: Path)
    requires IsPath(true, project) && IsAbsolute(true, project) && IsPath(true, lazuliRoot)
    requires IsDriveRelative(lazuliRoot) && forall i :: 1 <= i < |lazuliRoot| ==> PlainPart(lazuliRoot[i])
    ensures var dir := RuntimeDir(true, project, lazuliRoot);
            |dir| > 1 && dir[0] == lazuliRoot[0] && (dir[1].ParentDir? || PlainName(dir[1]))
  {
    var dir, full := RuntimeDir(true, project, lazuliRoot), lazuliRoot + RUNTIME_DIR;
    RuntimeDirIsPath(true, project, lazuliRoot);
    assert full == (lazuliRoot + [Normal("runtime")]) + [Normal("go")];
    NormalizeEnds(lazuliRoot + [Normal("runtime")], Normal("go"));
    assert |dir| > 1;
    SecondIsPlain(full, dir, lazuliRoot);
  }

  lemma SecondIsPlain(full: Path, dir: Path, lazuliRoot: Path)
    requires full == lazuliRoot + RUNTIME_DIR && dir == Normalize(full)
    requires lazuliRoot != [] && lazuliRoot[0].Prefix?
    requires forall i :: 1 <= i < |lazuliRoot| ==> PlainPart(lazuliRoot[i])
    requires Reduced(dir) && IsPath(true, dir) && IsDriveRelative(dir) && |dir| > 1
    ensures dir[1].ParentDir? || PlainName(dir[1])
  {
    PartsArePlain(lazuliRoot);
    CollapseMembers([], full);
    assert dir[1..][0] == dir[1] && dir[1] in dir;
  }

  lemma DriveRelativeTextIsEmitted(eq: (Component, Component) -> bool, from: Path, dir: Path)
    requires ComponentEq(eq) && IsPath(true, from) && IsAbsolute(true, from) && IsPath(true, dir)
    requires IsDriveRelative(dir) && |dir| > 1 && LetterDrive(dir[0]) && (dir[1].ParentDir? || PlainName(dir[1]))
    ensures !IsAbsoluteRuntimePath(RelativeText(eq, from, dir))
  {
    if Common(eq, from, dir) == 0 {
      DriveRelativeText(dir);
    } else {
      SharedAnchors(eq, true, from, dir);
      PlainTextIsRelative(Relative(eq, from, dir));
    }
  }

  /** A `[lazuli] path` below the current directory of a drive passes the check for absolute
      paths: with plain names wiring is always emitted for it. */
  lemma DriveRelativeIsEmitted(eq: (Component, Component) -> bool, project: Path, out: Path, lazuliRoot: Path)
    requires ComponentEq(eq) && IsPath(true, lazuliRoot) && IsDriveRelative(lazuliRoot) && LetterDrive(lazuliRoot[0])
    requires forall i :: 1 <= i < |lazuliRoot| ==> PlainPart(lazuliRoot[i])
    requires IsPath(true, project) && IsAbsolute(true, project)
    requires IsPath(true, out) && IsAbsolute(true, out)
    ensures ResolveRuntimeReplace(eq, true, project, out, lazuliRoot).Some?
  {
    var dir := RuntimeDir(true, project, lazuliRoot);
    RuntimeDirIsPath(true, project, lazuliRoot);
    DriveRelativeDir(project, lazuliRoot);
    DriveRelativeTextIsEmitted(eq, out, dir);
    DriveRelativeTextIsEmitted(eq, project, dir);
  }

  const ON_C: Path := [Prefix("C:"), RootDir, Normal("app")]
  const ON_D: Path := [Prefix("D:"), RootDir, Normal("out")]
  const BELOW_D: Path := [Prefix("D:"), Normal("lazuli")]

  lemma HalfRelativeInputs()
    ensures IsPath(true, ON_C) && IsAbsolute(true, ON_C) && IsPath(true, ON_D) && IsAbsolute(true, ON_D)
    ensures IsPath(true, BELOW_D) && IsDriveRelative(BELOW_D) && LetterDrive(BELOW_D[0]) && LetterDrive(ON_C[0])
    ensures FoldingEq(ON_D[0], BELOW_D[0]) && !FoldingEq(ON_C[0], BELOW_D[0])
  {
    assert "C:"[0] == 'C' && "D:"[0] == 'D';
  }

  lemma HalfRelativeName()
    ensures PlainName(BELOW_D[1])
  {
    assert "lazuli"[0] == 'l';
  }

  /** `D:lazuli`, with the project on C and the out directory on D: go.mod's path is relative,
      go.work's keeps the drive. */
  lemma DriveRelativeRootIsHalfRelative()
    ensures match ResolveRuntimeReplace(FoldingEq, true, ON_C, ON_D, BELOW_D)
            case None => false
            case Some(r) => NoAnchor(r.goMod) && !NoAnchor(r.goWork)
  {
    HalfRelativeInputs();
    HalfRelativeName();
    BothComparisonsQualify();
    DriveRelativeIsEmitted(FoldingEq, ON_C, ON_D, BELOW_D);
    EmittedIsRelativeIff(FoldingEq, true, ON_C, ON_D, BELOW_D);
  }

  lemma DriveRelativeText(path: Path)
    requires |path| > 1 && path[0].Prefix? && |path[0].name| == 2
    requires IsAlphabetic(path[0].name[0]) && path[0].name[1] == ':'
    requires path[1].ParentDir? || PlainName(path[1])
    ensures !IsAbsoluteRuntimePath(ForwardSlashes(PathText(path)))
  {
    var drive, below := path[0].name, PathText(path[1..]);
    assert below[0] == ComponentText(path[1])[0];
    assert PathText(path) == drive + below;
    PlainTextIsDriveRelative(ForwardSlashes(drive + below));
  }

  lemma PlainTextIsDriveRelative(text: string)
    requires |text| > 2 && IsAlphabetic(text[0]) && text[2] != '/' && text[2] != '\\'
    ensures !IsAbsoluteRuntimePath(text)
  {
    TrimEndSplits(text);
  }

  const DOTTED_PROJECT: Path := [RootDir, Normal("home"), Normal("me"), ParentDir, Normal("app")]
  const DOTTED_ROOT: Path := [ParentDir, Normal("lazuli")]
  const DOTTED_RUNTIME: Path := [RootDir, Normal("home"), Normal("lazuli"), Normal("runtime"), Normal("go")]

  /** A project directory given with `..` in it breaks the wiring: the walk up
      counts raw components. */
  lemma DottedProjectMissesRuntime(home: string -> Place, at: Place)
    ensures
      match ResolveRuntimeReplace(ExactEq, false, DOTTED_PROJECT, DOTTED_PROJECT, DOTTED_ROOT)
      case None => false
      case Some(r) =>
        Walk(home, at, DOTTED_PROJECT + r.goWork) != RuntimePlace(home, at, DOTTED_PROJECT, DOTTED_ROOT)
  {
    DottedPaths();
    DottedRuntimeDir();
    DottedFront(DOTTED_PROJECT, DOTTED_RUNTIME);
    BothComparisonsQualify();
    ExactPlaces(home, at, at);
    RuntimeWiringIff(ExactEq, false, home, at, DOTTED_PROJECT, DOTTED_PROJECT, DOTTED_ROOT);
    PlainTextIsRelative(Relative(ExactEq, DOTTED_PROJECT, DOTTED_RUNTIME));
    var r := RelativizeRuntimeDir(ExactEq, DOTTED_PROJECT, DOTTED_PROJECT, DOTTED_RUNTIME).value;
    ExactPlaces(home, Walk(home, at, DOTTED_PROJECT + r.goWork),
                RuntimePlace(home, at, DOTTED_PROJECT, DOTTED_ROOT));
  }

  lemma DottedPaths()
    ensures IsPath(false, DOTTED_PROJECT) && IsPath(false, DOTTED_ROOT) && IsPath(false, DOTTED_RUNTIME)
    ensures IsAbsolute(false, DOTTED_PROJECT) && IsAbsolute(false, DOTTED_RUNTIME)
  {
  }

  lemma DottedFront(project: Path, dir: Path)
    requires |project| == 5 && project[0] == RootDir && project[1] == Normal("home") && project[2] == Normal("me")
    requires project[3] == ParentDir
    requires |dir| > 2 && dir[0] == RootDir && dir[1] == Normal("home") && dir[2] == Normal("lazuli")
    ensures Common(ExactEq, project, dir) == 2
    ensures !DescendsByNames(ExactEq, project, dir) && !SharesNoName(ExactEq, project, dir)
  {
    var k := Common(ExactEq, project, dir);
    assert |"me"| != |"lazuli"|;
    assert k > 2 ==> ExactEq(project[2], dir[2]);
    assert k == 2;
    assert project[2..][1] == ParentDir && ParentDir in project[2..];
    assert dir[1].Normal?;
  }

  lemma DottedRuntimeDir()
    ensures RuntimeDir(false, DOTTED_PROJECT, DOTTED_ROOT) == DOTTED_RUNTIME
  {
    var project, root := DOTTED_PROJECT, DOTTED_ROOT;
    CollapseConcat([], project + root, RUNTIME_DIR);
    CollapseConcat([], project, root);
    assert Normalize(project) == [RootDir, Normal("home"), Normal("app")];
    assert Normalize(project + root) == [RootDir, Normal("home"), Normal("lazuli")];
    CollapseKeepsReduced([RootDir, Normal("home"), Normal("lazuli")], RUNTIME_DIR);
  }
}
