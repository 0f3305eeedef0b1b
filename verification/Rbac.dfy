/** The RBAC catalog: duplicate and reference checks, the inheritance walk that
    finds cycles, and the permission closure of every role. Spans and message
    texts are dropped; a permission is its name. */
module Rbac {
  import opened Wrappers
  import opened Order
  import opened Text

  datatype Grants = Explicit(perms: seq<string>) | All | InheritedOnly

  datatype RoleDecl = RoleDecl(name: string, inherits: Option<string>, grants: Grants)

  datatype RoleEntry = RoleEntry(decl: RoleDecl, closure: seq<string>)

  datatype Catalog = Catalog(permissions: seq<string>, roles: seq<RoleEntry>)

  datatype Issue =
    | PermDuplicate(perm: string)
    | RoleDuplicate(role: string)
    | PermUnknown(role: string, perm: string)
    | InheritUnknown(role: string, parent: string)
    | Cycle(chain: seq<string>, reentered: string)
    | PermUnused(perm: string)

  // ---- the inheritance graph -----------------------------------------------------

  function Find(roles: seq<RoleDecl>, name: string): Option<RoleDecl> {
    if roles == [] then None
    else if roles[0].name == name then Some(roles[0])
    else Find(roles[1..], name)
  }

  lemma {:induction false} FindIsMember(roles: seq<RoleDecl>, name: string)
    ensures Find(roles, name).Some? ==> Find(roles, name).value in roles && Find(roles, name).value.name == name
    ensures Find(roles, name).None? ==> forall r :: r in roles ==> r.name != name
    decreases |roles|
  {
    if roles != [] {
      FindIsMember(roles[1..], name);
      assert roles == [roles[0]] + roles[1..];
    }
  }

  function Parent(roles: seq<RoleDecl>, name: string): Option<string> {
    match Find(roles, name)
    case None => None
    case Some(r) => r.inherits
  }

  /** The name reached after `k` steps up, if the walk gets that far. */
  function Ancestor(roles: seq<RoleDecl>, name: string, k: nat): Option<string> {
    if k == 0 then Some(name)
    else
      match Ancestor(roles, name, k - 1)
      case None => None
      case Some(n) => Parent(roles, n)
  }

  ghost predicate IsAncestor(roles: seq<RoleDecl>, name: string, other: string) {
    exists k: nat :: Ancestor(roles, name, k) == Some(other)
  }

  lemma {:induction false} AncestorCompose(roles: seq<RoleDecl>, name: string, j: nat, k: nat)
    requires Ancestor(roles, name, j).Some?
    ensures Ancestor(roles, name, j + k) == Ancestor(roles, Ancestor(roles, name, j).value, k)
  {
    if k != 0 {
      AncestorCompose(roles, name, j, k - 1);
    }
  }

  lemma {:induction false} AncestorPrefix(roles: seq<RoleDecl>, name: string, j: nat, k: nat)
    requires j <= k && Ancestor(roles, name, k).Some?
    ensures Ancestor(roles, name, j).Some?
    decreases k
  {
    if j < k {
      AncestorPrefix(roles, name, j, k - 1);
    }
  }

  /** All names a walk can meet. */
  function Names(roles: seq<RoleDecl>): set<string> {
    (set r | r in roles :: r.name) + (set r | r in roles && r.inherits.Some? :: r.inherits.value)
  }

  predicate Declared(roles: seq<RoleDecl>, name: string) {
    exists r :: r in roles && r.name == name
  }

  lemma ParentIsKnown(roles: seq<RoleDecl>, name: string)
    requires Parent(roles, name).Some?
    ensures Parent(roles, name).value in Names(roles) && name in Names(roles)
    ensures Declared(roles, name)
  {
    FindIsMember(roles, name);
    var r := Find(roles, name).value;
    assert r in roles && r.inherits.Some?;
  }

  // ---- cycle detection --------------------------------------------------------------

  ghost predicate NeverEnds(roles: seq<RoleDecl>, name: string) {
    forall k: nat :: Ancestor(roles, name, k).Some?
  }

  /** The distinct names met on the way up from `name`. */
  ghost predicate IsChain(roles: seq<RoleDecl>, name: string, chain: seq<string>) {
    && Distinct(chain)
    && forall i :: 0 <= i < |chain| ==> Ancestor(roles, name, i) == Some(chain[i])
  }

  /** The walk from `name` met exactly `chain` and then `again`, which it had seen. */
  ghost predicate IsLoop(roles: seq<RoleDecl>, name: string, chain: seq<string>, again: string) {
    IsChain(roles, name, chain) && again in chain && Ancestor(roles, name, |chain|) == Some(again)
  }

  method WalkUp(roles: seq<RoleDecl>, name: string) returns (chain: seq<string>, again: Option<string>)
    ensures IsChain(roles, name, chain) && |chain| <= |roles| + 1
    ensures again.Some? ==> IsLoop(roles, name, chain, again.value)
    ensures again.None? ==> Ancestor(roles, name, |chain|) == None
  {
    chain := [];
    var cur := Some(name);
    ghost var all := Names(roles) + {name};
    while cur.Some?
      invariant IsChain(roles, name, chain)
      invariant cur == Ancestor(roles, name, |chain|)
      invariant cur.Some? ==> cur.value in all
      decreases cur.Some?, all - (set c | c in chain)
    {
      if cur.value in chain {
        ChainIsShort(roles, name, chain);
        return chain, cur;
      }
      ghost var before := set c | c in chain;
      chain := chain + [cur.value];
      assert (set c | c in chain) == before + {cur.value};
      if Parent(roles, cur.value).Some? {
        ParentIsKnown(roles, cur.value);
      }
      cur := Parent(roles, cur.value);
    }
    ChainIsShort(roles, name, chain);
    again := None;
  }

  /** Every name of a chain but the last is a declared role, each role once. */
  lemma ChainIsShort(roles: seq<RoleDecl>, name: string, chain: seq<string>)
    requires IsChain(roles, name, chain)
    ensures |chain| <= |roles| + 1
  {
    if |chain| > 0 {
      var front := chain[..|chain| - 1];
      forall i | 0 <= i < |front|
        ensures Declared(roles, front[i])
      {
        assert Ancestor(roles, name, i + 1) == Some(chain[i + 1]);
        assert Parent(roles, chain[i]) == Some(chain[i + 1]);
        ParentIsKnown(roles, chain[i]);
      }
      DistinctNamesFit(roles, front);
    }
  }

  lemma {:induction false} DistinctNamesFit(roles: seq<RoleDecl>, names: seq<string>)
    requires Distinct(names)
    requires forall n :: n in names ==> Declared(roles, n)
    ensures |names| <= |roles|
    decreases |roles|
  {
    if names != [] {
      assert Declared(roles, names[0]);
      assert roles == [roles[0]] + roles[1..];
      var first := roles[0].name;
      var i := if first in names then IndexOf(names, first) else |names|;
      var others := if first in names then names[..i] + names[i + 1..] else names;
      forall n | n in others
        ensures Declared(roles[1..], n)
      {
        assert n in names;
        assert n != first;
      }
      DistinctNamesFit(roles[1..], others);
    }
  }

  function IndexOf(names: seq<string>, n: string): (i: nat)
    requires n in names
    ensures i < |names| && names[i] == n
  {
    if names[0] == n then 0 else 1 + IndexOf(names[1..], n)
  }

  /** Once a name has come back, the walk goes round for ever inside the chain. */
  lemma {:induction false} LoopGoesRound(roles: seq<RoleDecl>, name: string, chain: seq<string>, m: nat, k: nat)
    requires m < |chain| && IsLoop(roles, name, chain, chain[m]) && m <= k
    ensures Ancestor(roles, name, k).Some?
    ensures Ancestor(roles, name, k).value in chain[m..]
    decreases k
  {
    if k < |chain| {
      assert chain[m..][k - m] == chain[k];
    } else if k == |chain| {
      assert chain[m..][0] == chain[m];
    } else {
      LoopGoesRound(roles, name, chain, m, k - 1);
      var i :| 0 <= i < |chain[m..]| && chain[m..][i] == Ancestor(roles, name, k - 1).value;
      var next := Ancestor(roles, name, m + i + 1);
      assert Ancestor(roles, name, m + i) == Some(chain[m + i]);
      assert next == Parent(roles, chain[m + i]) == Ancestor(roles, name, k);
      if m + i + 1 < |chain| {
        assert chain[m..][i + 1] == chain[m + i + 1];
      } else {
        assert chain[m..][0] == chain[m];
      }
    }
  }

  /** A loop is found exactly on the walks that never reach an end. */
  lemma LoopIffNeverEnds(roles: seq<RoleDecl>, name: string, chain: seq<string>, again: Option<string>)
    requires IsChain(roles, name, chain)
    requires again.Some? ==> IsLoop(roles, name, chain, again.value)
    requires again.None? ==> Ancestor(roles, name, |chain|) == None
    ensures again.Some? <==> NeverEnds(roles, name)
  {
    if again.Some? {
      var m :| 0 <= m < |chain| && chain[m] == again.value;
      forall k: nat
        ensures Ancestor(roles, name, k).Some?
      {
        LoopGoesRound(roles, name, chain, m, m + k);
        AncestorPrefix(roles, name, k, m + k);
      }
    }
  }

  /** A role that meets itself again re-enters its own walk at the start. */
  lemma OnCycleReentersAtStart(roles: seq<RoleDecl>, name: string, chain: seq<string>, again: string, c: nat)
    requires IsLoop(roles, name, chain, again)
    requires c > 0 && Ancestor(roles, name, c) == Some(name)
    ensures again == name
  {
    var m :| 0 <= m < |chain| && chain[m] == again;
    assert chain[0] == name;
    if m > 0 {
      if c >= |chain| {
        LoopGoesRound(roles, name, chain, m, c);
      }
    }
  }

  function SortInsert(s: seq<string>, x: string): (r: seq<string>)
    ensures multiset(r) == multiset(s) + multiset{x}
  {
    if s == [] || Less(x, s[0]) then [x] + s
    else
      assert s == [s[0]] + s[1..];
      [s[0]] + SortInsert(s[1..], x)
  }

  function Sort(s: seq<string>): (r: seq<string>)
    ensures multiset(r) == multiset(s)
  {
    if s == [] then []
    else
      assert s == s[..|s| - 1] + [s[|s| - 1]];
      SortInsert(Sort(s[..|s| - 1]), s[|s| - 1])
  }

  /** The text under which a cycle is reported at most once. */
  function CycleKey(chain: seq<string>, again: string): string {
    JoinWith(Sort(chain + [again]), ',')
  }

  /** Role names as the parser admits them hold no comma. */
  predicate CommaFree(roles: seq<RoleDecl>) {
    forall r :: r in roles ==> ',' !in r.name && (r.inherits.Some? ==> ',' !in r.inherits.value)
  }

  lemma {:induction false} AncestorCommaFree(roles: seq<RoleDecl>, name: string, k: nat)
    requires CommaFree(roles) && ',' !in name && Ancestor(roles, name, k).Some?
    ensures ',' !in Ancestor(roles, name, k).value
  {
    if k != 0 {
      AncestorCommaFree(roles, name, k - 1);
      FindIsMember(roles, Ancestor(roles, name, k - 1).value);
    }
  }

  lemma KeyDeterminesNames(chain: seq<string>, again: string, chain': seq<string>, again': string)
    requires forall n :: n in chain + [again] ==> ',' !in n
    requires forall n :: n in chain' + [again'] ==> ',' !in n
    requires CycleKey(chain, again) == CycleKey(chain', again')
    ensures multiset(chain + [again]) == multiset(chain' + [again'])
  {
    var s, t := Sort(chain + [again]), Sort(chain' + [again']);
    assert again in multiset(s) && again' in multiset(t);
    forall n | n in s
      ensures ',' !in n
    {
      assert n in multiset(s);
    }
    forall n | n in t
      ensures ',' !in n
    {
      assert n in multiset(t);
    }
    SplitJoined(s, ',');
    SplitJoined(t, ',');
  }

  lemma {:induction false} DistinctCounts(chain: seq<string>, x: string)
    requires Distinct(chain)
    ensures multiset(chain)[x] == if x in chain then 1 else 0
    decreases |chain|
  {
    if chain != [] {
      var front := chain[..|chain| - 1];
      assert chain == front + [chain[|chain| - 1]];
      DistinctCounts(front, x);
    }
  }

  /** The keys of two different roles are never equal, so no report is suppressed. */
  lemma KeysOfDistinctRoles(roles: seq<RoleDecl>, a: string, chain: seq<string>, again: string,
                            b: string, chain': seq<string>, again': string)
    requires CommaFree(roles) && ',' !in a && ',' !in b && a != b
    requires IsLoop(roles, a, chain, again) && IsLoop(roles, b, chain', again')
    ensures CycleKey(chain, again) != CycleKey(chain', again')
  {
    forall i | 0 <= i < |chain|
      ensures ',' !in chain[i]
    {
      AncestorCommaFree(roles, a, i);
    }
    forall i | 0 <= i < |chain'|
      ensures ',' !in chain'[i]
    {
      AncestorCommaFree(roles, b, i);
    }
    if CycleKey(chain, again) == CycleKey(chain', again') {
      KeyDeterminesNames(chain, again, chain', again');
      DistinctCounts(chain, again);
      DistinctCounts(chain', again);
      assert multiset(chain + [again])[again] == 2;
      assert again == again';
      assert chain[0] == a && chain'[0] == b;
      DistinctCounts(chain', a);
      DistinctCounts(chain, b);
      assert a in multiset(chain + [again]) && b in multiset(chain' + [again']);
      MutualReachMeansStart(roles, a, chain, again, b, chain');
      MutualReachMeansStart(roles, b, chain', again', a, chain);
    }
  }

  lemma MutualReachMeansStart(roles: seq<RoleDecl>, a: string, chain: seq<string>, again: string,
                              b: string, chain': seq<string>)
    requires IsLoop(roles, a, chain, again) && IsChain(roles, b, chain')
    requires a in chain' && b in chain && a != b
    ensures again == a
  {
    var j :| 0 <= j < |chain'| && chain'[j] == a;
    var i :| 0 <= i < |chain| && chain[i] == b;
    assert Ancestor(roles, b, j) == Some(a) && Ancestor(roles, a, i) == Some(b);
    AncestorCompose(roles, a, i, j);
    assert i > 0;
    OnCycleReentersAtStart(roles, a, chain, again, i + j);
  }

  ghost function LoopingRoles(all: seq<RoleDecl>, roles: seq<RoleDecl>): seq<string> {
    if roles == [] then []
    else LoopingRoles(all, roles[..|roles| - 1]) +
         (if NeverEnds(all, roles[|roles| - 1].name) then [roles[|roles| - 1].name] else [])
  }

  lemma {:induction false} LoopingRolesMembers(all: seq<RoleDecl>, roles: seq<RoleDecl>)
    ensures forall n :: n in LoopingRoles(all, roles) <==>
              NeverEnds(all, n) && Declared(roles, n)
  {
    if roles != [] {
      var front, last := roles[..|roles| - 1], roles[|roles| - 1];
      LoopingRolesMembers(all, front);
      assert roles == front + [last];
      assert last in roles;
    }
  }

  /** One issue per role whose walk never ends, in role order, each with that role's walk. */
  ghost predicate ReportsLoops(all: seq<RoleDecl>, looping: seq<string>, issues: seq<Issue>) {
    && |issues| == |looping|
    && forall i :: 0 <= i < |issues| ==>
         issues[i].Cycle? && IsLoop(all, looping[i], issues[i].chain, issues[i].reentered)
  }

  ghost predicate KeyReported(issues: seq<Issue>, key: string) {
    exists j :: 0 <= j < |issues| && issues[j].Cycle? && key == CycleKey(issues[j].chain, issues[j].reentered)
  }

  lemma KeysStayReported(issues: seq<Issue>, last: Issue)
    requires last.Cycle?
    ensures forall key :: KeyReported(issues, key) ==> KeyReported(issues + [last], key)
    ensures KeyReported(issues + [last], CycleKey(last.chain, last.reentered))
  {
    var more := issues + [last];
    assert more[|issues|] == last;
    forall key | KeyReported(issues, key)
      ensures KeyReported(more, key)
    {
      var j :| 0 <= j < |issues| && issues[j].Cycle? && key == CycleKey(issues[j].chain, issues[j].reentered);
      assert more[j] == issues[j];
    }
  }

  predicate DistinctNames(roles: seq<RoleDecl>) {
    forall i, j :: 0 <= i < j < |roles| ==> roles[i].name != roles[j].name
  }

  /** The reports for the first `i` roles are right (as far as names are comma-free). */
  ghost predicate ReportedSoFar(roles: seq<RoleDecl>, i: nat, issues: seq<Issue>)
    requires i <= |roles|
  {
    CommaFree(roles) ==> ReportsLoops(roles, LoopingRoles(roles, roles[..i]), issues)
  }

  lemma NextRoleEnds(roles: seq<RoleDecl>, i: nat, issues: seq<Issue>)
    requires i < |roles| && ReportedSoFar(roles, i, issues) && !NeverEnds(roles, roles[i].name)
    ensures ReportedSoFar(roles, i + 1, issues)
  {
    assert roles[..i + 1][..i] == roles[..i];
  }

  /** A role whose walk loops brings a new key, and one report more. */
  lemma NextRoleLoops(roles: seq<RoleDecl>, i: nat, issues: seq<Issue>, chain: seq<string>, again: string)
    requires DistinctNames(roles) && i < |roles| && ReportedSoFar(roles, i, issues)
    requires IsLoop(roles, roles[i].name, chain, again) && NeverEnds(roles, roles[i].name)
    ensures CommaFree(roles) ==> !KeyReported(issues, CycleKey(chain, again))
    ensures ReportedSoFar(roles, i + 1, issues + [Cycle(chain, again)])
  {
    var looping := LoopingRoles(roles, roles[..i]);
    LoopingRolesMembers(roles, roles[..i]);
    if CommaFree(roles) {
      forall j | 0 <= j < |issues|
        ensures CycleKey(chain, again) != CycleKey(issues[j].chain, issues[j].reentered)
      {
        assert looping[j] in looping;
        KeysOfDistinctRoles(roles, roles[i].name, chain, again, looping[j], issues[j].chain, issues[j].reentered);
      }
    }
    assert roles[..i + 1][..i] == roles[..i];
  }

  method DetectCycles(roles: seq<RoleDecl>) returns (issues: seq<Issue>)
    requires DistinctNames(roles)
    ensures CommaFree(roles) ==> ReportsLoops(roles, LoopingRoles(roles, roles), issues)
  {
    issues := [];
    var reported: set<string> := {};
    for i := 0 to |roles|
      invariant ReportedSoFar(roles, i, issues)
      invariant forall key :: key in reported ==> KeyReported(issues, key)
    {
      var chain, again := WalkUp(roles, roles[i].name);
      LoopIffNeverEnds(roles, roles[i].name, chain, again);
      if again.Some? {
        NextRoleLoops(roles, i, issues, chain, again.value);
        var key := CycleKey(chain, again.value);
        if key !in reported {
          KeysStayReported(issues, Cycle(chain, again.value));
          reported := reported + {key};
          issues := issues + [Cycle(chain, again.value)];
        }
      } else {
        NextRoleEnds(roles, i, issues);
      }
    }
    assert roles[..|roles|] == roles;
  }

  /** A role that inherits from itself, directly or through others. */
  ghost predicate OnCycle(roles: seq<RoleDecl>, name: string) {
    exists k: nat :: k > 0 && Ancestor(roles, name, k) == Some(name)
  }

  ghost predicate HasCycle(roles: seq<RoleDecl>) {
    exists name :: OnCycle(roles, name)
  }

  lemma {:induction false} CycleNeverEnds(roles: seq<RoleDecl>, name: string, k: nat, n: nat)
    requires k > 0 && Ancestor(roles, name, k) == Some(name)
    ensures Ancestor(roles, name, n).Some?
    decreases n
  {
    if n <= k {
      AncestorPrefix(roles, name, n, k);
    } else {
      CycleNeverEnds(roles, name, k, n - k);
      AncestorCompose(roles, name, k, n - k);
    }
  }

  lemma LoopingIsDeclared(roles: seq<RoleDecl>, name: string)
    requires NeverEnds(roles, name)
    ensures Parent(roles, name).Some? && Declared(roles, name) && name in LoopingRoles(roles, roles)
  {
    assert Ancestor(roles, name, 1).Some?;
    assert Ancestor(roles, name, 1) == Parent(roles, name);
    ParentIsKnown(roles, name);
    LoopingRolesMembers(roles, roles);
  }

  lemma OnCycleLoops(roles: seq<RoleDecl>, name: string)
    requires OnCycle(roles, name)
    ensures NeverEnds(roles, name) && name in LoopingRoles(roles, roles)
  {
    var k: nat :| k > 0 && Ancestor(roles, name, k) == Some(name);
    forall n: nat
      ensures Ancestor(roles, name, n).Some?
    {
      CycleNeverEnds(roles, name, k, n);
    }
    LoopingIsDeclared(roles, name);
  }

  /** There is something to report exactly when the inheritance graph has a cycle. */
  lemma SomeLoopIffCycle(roles: seq<RoleDecl>)
    ensures LoopingRoles(roles, roles) != [] <==> HasCycle(roles)
  {
    LoopingRolesMembers(roles, roles);
    if HasCycle(roles) {
      var name :| OnCycle(roles, name);
      OnCycleLoops(roles, name);
    }
    if LoopingRoles(roles, roles) != [] {
      var name := LoopingRoles(roles, roles)[0];
      assert name in LoopingRoles(roles, roles);
      NeverEndingMeetsCycle(roles, name);
    }
  }

  lemma {:induction false} LongChain(roles: seq<RoleDecl>, name: string, n: nat) returns (chain: seq<string>)
    requires NeverEnds(roles, name)
    requires forall m :: IsAncestor(roles, name, m) ==> !OnCycle(roles, m)
    ensures |chain| == n && IsChain(roles, name, chain)
  {
    if n == 0 {
      chain := [];
    } else {
      chain := LongChain(roles, name, n - 1);
      var next := Ancestor(roles, name, n - 1).value;
      if next in chain {
        var i :| 0 <= i < |chain| && chain[i] == next;
        AncestorCompose(roles, name, i, n - 1 - i);
        assert OnCycle(roles, next) && IsAncestor(roles, name, next);
      }
      chain := chain + [next];
    }
  }

  lemma NeverEndingMeetsCycle(roles: seq<RoleDecl>, name: string)
    requires NeverEnds(roles, name)
    ensures exists m :: IsAncestor(roles, name, m) && OnCycle(roles, m)
  {
    if forall m :: IsAncestor(roles, name, m) ==> !OnCycle(roles, m) {
      var chain := LongChain(roles, name, |roles| + 2);
      ChainIsShort(roles, name, chain);
    }
  }

  // ---- reports and cycles, counted -----------------------------------------------------

  /** The cycle a walk ends up in: the names it meets that lie on a cycle. */
  ghost function CycleOf(roles: seq<RoleDecl>, name: string): set<string> {
    set n | n in Names(roles) && IsAncestor(roles, name, n) && OnCycle(roles, n)
  }

  ghost function Cycles(roles: seq<RoleDecl>): set<set<string>> {
    Image(LoopingRoles(roles, roles), n => CycleOf(roles, n))
  }

  ghost function Image(names: seq<string>, f: string -> set<string>): set<set<string>> {
    set n | n in names :: f(n)
  }

  lemma {:induction false} ComesRoundAfter(roles: seq<RoleDecl>, name: string, k: nat, least: nat) returns (steps: nat)
    requires k > 0 && Ancestor(roles, name, k) == Some(name)
    ensures steps >= least && Ancestor(roles, name, steps) == Some(name)
    decreases least
  {
    if least == 0 {
      steps := 0;
    } else {
      var fewer := ComesRoundAfter(roles, name, k, least - 1);
      steps := fewer + k;
      AncestorCompose(roles, name, fewer, k);
    }
  }

  lemma InCycleOf(roles: seq<RoleDecl>, name: string, n: string)
    ensures n in CycleOf(roles, name) <==> IsAncestor(roles, name, n) && OnCycle(roles, n)
  {
    if OnCycle(roles, n) {
      OnCycleLoops(roles, n);
      LoopingIsDeclared(roles, n);
      ParentIsKnown(roles, n);
    }
  }

  /** From a name met at step `i` the walk still meets a name on a cycle. */
  lemma MeetsAgain(roles: seq<RoleDecl>, name: string, i: nat, n: string, j: nat, m: string)
    requires Ancestor(roles, name, i) == Some(n) && Ancestor(roles, name, j) == Some(m) && OnCycle(roles, m)
    ensures IsAncestor(roles, n, m)
  {
    var k: nat :| k > 0 && Ancestor(roles, m, k) == Some(m);
    var round := ComesRoundAfter(roles, m, k, i);
    AncestorCompose(roles, name, j, round);
    AncestorCompose(roles, name, i, j + round - i);
    assert Ancestor(roles, n, j + round - i) == Some(m);
  }

  /** It is one cycle: not empty, and every name on it inherits from every other. */
  lemma CycleOfIsOneCycle(roles: seq<RoleDecl>, name: string)
    requires NeverEnds(roles, name)
    ensures CycleOf(roles, name) != {}
    ensures forall n, m :: n in CycleOf(roles, name) && m in CycleOf(roles, name) ==> IsAncestor(roles, n, m)
  {
    NeverEndingMeetsCycle(roles, name);
    var some :| IsAncestor(roles, name, some) && OnCycle(roles, some);
    InCycleOf(roles, name, some);
    forall n, m | n in CycleOf(roles, name) && m in CycleOf(roles, name) ensures IsAncestor(roles, n, m) {
      var i: nat :| Ancestor(roles, name, i) == Some(n);
      var j: nat :| Ancestor(roles, name, j) == Some(m);
      MeetsAgain(roles, name, i, n, j, m);
    }
  }

  lemma ParentSharesCycle(roles: seq<RoleDecl>, name: string)
    requires Parent(roles, name).Some?
    ensures CycleOf(roles, Parent(roles, name).value) == CycleOf(roles, name)
  {
    var parent := Parent(roles, name).value;
    assert Ancestor(roles, name, 1) == Some(parent) by {
      assert Ancestor(roles, name, 0) == Some(name);
    }
    forall n ensures n in CycleOf(roles, parent) <==> n in CycleOf(roles, name) {
      if n in CycleOf(roles, parent) {
        var k: nat :| Ancestor(roles, parent, k) == Some(n);
        AncestorCompose(roles, name, 1, k);
        assert Ancestor(roles, name, 1 + k) == Some(n);
      }
      if n in CycleOf(roles, name) {
        var k: nat :| Ancestor(roles, name, k) == Some(n);
        if k == 0 {
          k :| k > 0 && Ancestor(roles, name, k) == Some(n);
        }
        AncestorCompose(roles, name, 1, k - 1);
        assert Ancestor(roles, parent, k - 1) == Some(n);
      }
    }
  }

  lemma {:induction false} SelfParentStays(roles: seq<RoleDecl>, name: string, k: nat)
    requires Parent(roles, name) == Some(name)
    ensures Ancestor(roles, name, k) == Some(name)
  {
    if k > 0 {
      SelfParentStays(roles, name, k - 1);
    }
  }

  lemma SelfParentCycle(roles: seq<RoleDecl>, name: string)
    requires Parent(roles, name) == Some(name)
    ensures CycleOf(roles, name) == {name}
  {
    SelfParentStays(roles, name, 0);
    SelfParentStays(roles, name, 1);
    InCycleOf(roles, name, name);
    forall n | n in CycleOf(roles, name) ensures n == name {
      var k: nat :| Ancestor(roles, name, k) == Some(n);
      SelfParentStays(roles, name, k);
    }
  }

  ghost predicate Injective(names: seq<string>, f: string -> set<string>) {
    forall i, j :: 0 <= i < j < |names| ==> f(names[i]) != f(names[j])
  }

  lemma InjectiveSnoc(front: seq<string>, last: string, f: string -> set<string>)
    ensures Injective(front + [last], f) <==> Injective(front, f) && f(last) !in Image(front, f)
  {
    var names := front + [last];
    assert forall i :: 0 <= i < |front| ==> names[i] == front[i] && front[i] in front;
    if f(last) in Image(front, f) {
      var n :| n in front && f(n) == f(last);
      var i :| 0 <= i < |front| && front[i] == n;
      assert f(names[i]) == f(names[|front|]);
    }
    if Injective(names, f) {
      forall i, j | 0 <= i < j < |front| ensures f(front[i]) != f(front[j]) {
        assert f(names[i]) != f(names[j]);
      }
    }
  }

  lemma ImageSnoc(front: seq<string>, last: string, f: string -> set<string>)
    ensures Image(front + [last], f) == Image(front, f) + {f(last)}
  {
    var names := front + [last];
    forall x ensures x in Image(names, f) <==> x in Image(front, f) + {f(last)} {
      if x in Image(names, f) {
        var n :| n in names && f(n) == x;
        assert n in front || n == last;
      }
      if x in Image(front, f) {
        var n :| n in front && f(n) == x;
        assert n in names;
      }
      assert last in names;
    }
  }

  /** An image is as large as the list exactly when no two elements share a value. */
  lemma {:induction false} ImageSize(names: seq<string>, f: string -> set<string>)
    ensures |Image(names, f)| <= |names|
    ensures |Image(names, f)| == |names| <==> Injective(names, f)
    decreases |names|
  {
    if names != [] {
      var front, last := names[..|names| - 1], names[|names| - 1];
      assert names == front + [last];
      ImageSize(front, f);
      ImageSnoc(front, last, f);
      InjectiveSnoc(front, last, f);
      if f(last) in Image(front, f) {
        assert Image(front, f) + {f(last)} == Image(front, f);
      }
    }
  }

  lemma {:induction false} LoopingAreDistinct(all: seq<RoleDecl>, roles: seq<RoleDecl>)
    requires DistinctNames(roles)
    ensures Distinct(LoopingRoles(all, roles))
    decreases |roles|
  {
    if roles != [] {
      var front := roles[..|roles| - 1];
      LoopingAreDistinct(all, front);
      LoopingRolesMembers(all, front);
      assert forall n :: n in LoopingRoles(all, front) ==> n != roles[|roles| - 1].name;
    }
  }

  lemma SelfParentsHaveOwnCycles(roles: seq<RoleDecl>, looping: seq<string>, cycleOf: string -> set<string>)
    requires Distinct(looping) && forall n :: n in looping ==> NeverEnds(roles, n) && Parent(roles, n) == Some(n)
    requires forall n :: cycleOf(n) == CycleOf(roles, n)
    ensures Injective(looping, cycleOf)
  {
    forall i, j | 0 <= i < j < |looping|
      ensures cycleOf(looping[i]) != cycleOf(looping[j])
    {
      assert looping[i] in looping && looping[j] in looping;
      SelfParentCycle(roles, looping[i]);
      SelfParentCycle(roles, looping[j]);
    }
  }

  lemma ParentSharesReport(roles: seq<RoleDecl>, looping: seq<string>, cycleOf: string -> set<string>, n: string)
    requires looping == LoopingRoles(roles, roles) && n in looping && NeverEnds(roles, n)
    requires Parent(roles, n).Some? && Parent(roles, n) != Some(n)
    requires forall m :: cycleOf(m) == CycleOf(roles, m)
    ensures !Injective(looping, cycleOf)
  {
    var parent := Parent(roles, n).value;
    ParentSharesCycle(roles, n);
    ParentLoops(roles, n);
    var i :| 0 <= i < |looping| && looping[i] == n;
    var j :| 0 <= j < |looping| && looping[j] == parent;
    assert cycleOf(looping[i]) == cycleOf(looping[j]);
  }

  /** There are at least as many reports as cycles, and as many exactly when every looping
      role inherits from itself. */
  lemma OneReportPerCycleIff(roles: seq<RoleDecl>)
    requires DistinctNames(roles)
    ensures |Cycles(roles)| <= |LoopingRoles(roles, roles)|
    ensures |Cycles(roles)| == |LoopingRoles(roles, roles)| <==>
            forall n :: n in LoopingRoles(roles, roles) ==> Parent(roles, n) == Some(n)
  {
    var looping := LoopingRoles(roles, roles);
    var cycleOf := n => CycleOf(roles, n);
    LoopingAreDistinct(roles, roles);
    LoopingRolesMembers(roles, roles);
    ImageSize(looping, cycleOf);
    if n :| n in looping && Parent(roles, n) != Some(n) {
      LoopingIsDeclared(roles, n);
      ParentSharesReport(roles, looping, cycleOf, n);
    } else {
      SelfParentsHaveOwnCycles(roles, looping, cycleOf);
    }
  }

  lemma ParentLoops(roles: seq<RoleDecl>, name: string)
    requires NeverEnds(roles, name) && Parent(roles, name).Some?
    ensures Parent(roles, name).value in LoopingRoles(roles, roles)
  {
    var parent := Parent(roles, name).value;
    assert Ancestor(roles, name, 1) == Some(parent) by {
      assert Ancestor(roles, name, 0) == Some(name);
    }
    forall k: nat ensures Ancestor(roles, parent, k).Some? {
      AncestorCompose(roles, name, 1, k);
      assert Ancestor(roles, name, 1 + k).Some?;
    }
    LoopingIsDeclared(roles, parent);
  }

  /** Two roles that inherit from each other: one cycle, two reports. */
  lemma TwoRoleCycleIsReportedTwice()
    ensures var roles := [RoleDecl("a", Some("b"), InheritedOnly), RoleDecl("b", Some("a"), InheritedOnly)];
            DistinctNames(roles) && |LoopingRoles(roles, roles)| == 2 && |Cycles(roles)| == 1
  {
    var roles := [RoleDecl("a", Some("b"), InheritedOnly), RoleDecl("b", Some("a"), InheritedOnly)];
    assert Parent(roles, "a") == Some("b") && Parent(roles, "b") == Some("a");
    assert Ancestor(roles, "a", 0) == Some("a") && Ancestor(roles, "a", 1) == Some("b");
    assert Ancestor(roles, "a", 2) == Some("a");
    assert Ancestor(roles, "b", 0) == Some("b") && Ancestor(roles, "b", 1) == Some("a");
    assert Ancestor(roles, "b", 2) == Some("b");
    OnCycleLoops(roles, "a");
    OnCycleLoops(roles, "b");
    assert roles[..1] == [roles[0]] && roles[..1][..0] == [];
    assert LoopingRoles(roles, roles[..1]) == ["a"];
    assert LoopingRoles(roles, roles) == ["a", "b"];
    ParentSharesCycle(roles, "a");
    assert Cycles(roles) == {CycleOf(roles, "a")};
  }

  // ---- closures ----------------------------------------------------------------------

  /** What a role grants by itself, within the catalog. */
  function Own(roles: seq<RoleDecl>, perms: seq<string>, name: string): set<string> {
    match Find(roles, name)
    case None => {}
    case Some(r) =>
      match r.grants
      case Explicit(list) => set p | p in list && p in perms
      case All => set p | p in perms
      case InheritedOnly => {}
  }

  /** Everything granted by some role met on the way up. */
  ghost function ClosureSet(roles: seq<RoleDecl>, perms: seq<string>, name: string): set<string> {
    set p | p in perms && exists n :: IsAncestor(roles, name, n) && p in Own(roles, perms, n)
  }

  ghost function ParentPart(roles: seq<RoleDecl>, f: string -> set<string>, name: string): set<string> {
    match Parent(roles, name)
    case None => {}
    case Some(q) => f(q)
  }

  /** `f` gives every name its own grants and whatever it gives the parent. */
  ghost predicate Solves(roles: seq<RoleDecl>, perms: seq<string>, f: string -> set<string>) {
    forall name :: f(name) == Own(roles, perms, name) + ParentPart(roles, f, name)
  }

  lemma AncestorOrSelf(roles: seq<RoleDecl>, name: string, n: string)
    ensures IsAncestor(roles, name, n) <==>
              n == name || (Parent(roles, name).Some? && IsAncestor(roles, Parent(roles, name).value, n))
  {
    assert Ancestor(roles, name, 0) == Some(name);
    assert Ancestor(roles, name, 1) == Parent(roles, name);
    if IsAncestor(roles, name, n) && n != name {
      var k: nat :| Ancestor(roles, name, k) == Some(n);
      AncestorPrefix(roles, name, 1, k);
      AncestorCompose(roles, name, 1, k - 1);
    }
    if Parent(roles, name).Some? && IsAncestor(roles, Parent(roles, name).value, n) {
      var k: nat :| Ancestor(roles, Parent(roles, name).value, k) == Some(n);
      AncestorCompose(roles, name, 1, k);
    }
  }

  /** The closure solves the inheritance equations, cycles and unknown parents included. */
  lemma ClosureSolves(roles: seq<RoleDecl>, perms: seq<string>)
    ensures Solves(roles, perms, name => ClosureSet(roles, perms, name))
  {
    var f := name => ClosureSet(roles, perms, name);
    forall name
      ensures f(name) == Own(roles, perms, name) + ParentPart(roles, f, name)
    {
      forall n {
        AncestorOrSelf(roles, name, n);
      }
      forall p
        ensures p in f(name) <==> p in Own(roles, perms, name) + ParentPart(roles, f, name)
      {
        OwnWithinCatalog(roles, perms, name, p);
      }
    }
  }

  lemma OwnWithinCatalog(roles: seq<RoleDecl>, perms: seq<string>, name: string, p: string)
    ensures p in Own(roles, perms, name) ==> p in perms
  {
  }

  lemma {:induction false} SolutionHoldsAncestors(roles: seq<RoleDecl>, perms: seq<string>, f: string -> set<string>,
                                                  name: string, k: nat)
    requires Solves(roles, perms, f) && Ancestor(roles, name, k).Some?
    ensures f(Ancestor(roles, name, k).value) <= f(name)
  {
    if k != 0 {
      SolutionHoldsAncestors(roles, perms, f, name, k - 1);
      var n := Ancestor(roles, name, k - 1).value;
      assert f(n) == Own(roles, perms, n) + ParentPart(roles, f, n);
    }
  }

  /** And it is the least solution. */
  lemma ClosureIsLeast(roles: seq<RoleDecl>, perms: seq<string>, f: string -> set<string>, name: string)
    requires Solves(roles, perms, f)
    ensures ClosureSet(roles, perms, name) <= f(name)
  {
    forall p | p in ClosureSet(roles, perms, name)
      ensures p in f(name)
    {
      var n :| IsAncestor(roles, name, n) && p in Own(roles, perms, n);
      var k: nat :| Ancestor(roles, name, k) == Some(n);
      SolutionHoldsAncestors(roles, perms, f, name, k);
      assert f(n) == Own(roles, perms, n) + ParentPart(roles, f, n);
    }
  }

  /** A role has every permission of its parent. */
  lemma ClosureInherits(roles: seq<RoleDecl>, perms: seq<string>, name: string)
    requires Parent(roles, name).Some?
    ensures ClosureSet(roles, perms, Parent(roles, name).value) <= ClosureSet(roles, perms, name)
  {
    forall n {
      AncestorOrSelf(roles, name, n);
    }
  }

  lemma {:induction false} ClosedSetHoldsAncestors(roles: seq<RoleDecl>, name: string, s: set<string>, k: nat)
    requires name in s && (forall n :: n in s && Parent(roles, n).Some? ==> Parent(roles, n).value in s)
    ensures Ancestor(roles, name, k).Some? ==> Ancestor(roles, name, k).value in s
  {
    if k != 0 {
      ClosedSetHoldsAncestors(roles, name, s, k - 1);
    }
  }

  lemma VisitedAreAncestors(roles: seq<RoleDecl>, name: string, visited: set<string>)
    requires name in visited
    requires forall n :: n in visited ==> IsAncestor(roles, name, n)
    requires forall n :: n in visited && Parent(roles, n).Some? ==> Parent(roles, n).value in visited
    ensures forall n :: IsAncestor(roles, name, n) <==> n in visited
  {
    forall n | IsAncestor(roles, name, n)
      ensures n in visited
    {
      var k: nat :| Ancestor(roles, name, k) == Some(n);
      ClosedSetHoldsAncestors(roles, name, visited, k);
    }
  }

  lemma StepIsAncestor(roles: seq<RoleDecl>, name: string, n: string)
    requires IsAncestor(roles, name, n) && Parent(roles, n).Some?
    ensures IsAncestor(roles, name, Parent(roles, n).value)
  {
    var k: nat :| Ancestor(roles, name, k) == Some(n);
    assert Ancestor(roles, name, k + 1) == Parent(roles, n);
  }

  method CollectOwn(acc: seq<string>, list: seq<string>, perms: seq<string>) returns (out: seq<string>)
    requires Ascending(acc)
    ensures Ascending(out)
    ensures forall p :: p in out <==> p in acc || (p in list && p in perms)
  {
    out := acc;
    for i := 0 to |list|
      invariant Ascending(out)
      invariant forall p :: p in out <==> p in acc || (p in list[..i] && p in perms)
    {
      if list[i] in perms {
        InsertAscending(out, list[i]);
        InsertMembers(out, list[i]);
        out := Insert(out, list[i]);
      }
    }
  }

  /** The worklist walk for one role. */
  method ClosureOf(roles: seq<RoleDecl>, perms: seq<string>, name: string) returns (closure: seq<string>)
    requires Distinct(perms)
    ensures forall p :: p in closure <==> p in ClosureSet(roles, perms, name)
    ensures Distinct(closure)
  {
    var acc: seq<string> := [];
    var visited: set<string> := {};
    var stack := [name];
    ghost var all := Names(roles) + {name};
    assert Ancestor(roles, name, 0) == Some(name);
    while stack != []
      invariant |stack| <= 1 && (forall n :: n in stack ==> n in all && IsAncestor(roles, name, n))
      invariant visited <= all && (name in visited || stack == [name])
      invariant forall n :: n in visited ==> IsAncestor(roles, name, n)
      invariant forall n :: n in visited && Parent(roles, n).Some? ==>
        Parent(roles, n).value in visited || Parent(roles, n).value in stack
      invariant Ascending(acc)
      invariant forall p :: p in acc <==> exists n :: n in visited && p in Own(roles, perms, n)
      decreases all - visited, |stack|
    {
      var cur := stack[|stack| - 1];
      stack := stack[..|stack| - 1];
      if cur in visited {
        continue;
      }
      visited := visited + {cur};
      var entry := Find(roles, cur);
      if entry.Some? && entry.value.grants.All? {
        assert IsAncestor(roles, name, cur) && Own(roles, perms, cur) == set p | p in perms;
        return perms;
      }
      if entry.Some? && entry.value.grants.Explicit? {
        acc := CollectOwn(acc, entry.value.grants.perms, perms);
      }
      if Parent(roles, cur).Some? {
        ParentIsKnown(roles, cur);
        StepIsAncestor(roles, name, cur);
        stack := stack + [Parent(roles, cur).value];
      }
    }
    VisitedAreAncestors(roles, name, visited);
    forall p
      ensures p in acc <==> p in ClosureSet(roles, perms, name)
    {
      if p in acc {
        var n :| n in visited && p in Own(roles, perms, n);
        OwnWithinCatalog(roles, perms, n, p);
      }
    }
    AscendingIsDistinct(acc);
    closure := acc;
  }

  // ---- the catalog as a whole --------------------------------------------------------

  /** Each name at its first occurrence. */
  function FirstOccurrences(xs: seq<string>): seq<string> {
    if xs == [] then []
    else
      var front, last := xs[..|xs| - 1], xs[|xs| - 1];
      FirstOccurrences(front) + (if last in front then [] else [last])
  }

  function DuplicatePermIssues(xs: seq<string>): seq<Issue> {
    if xs == [] then []
    else
      var front, last := xs[..|xs| - 1], xs[|xs| - 1];
      DuplicatePermIssues(front) + (if last in front then [PermDuplicate(last)] else [])
  }

  lemma {:induction false} FirstOccurrencesMembers(xs: seq<string>)
    ensures forall x :: x in FirstOccurrences(xs) <==> x in xs
    ensures Distinct(FirstOccurrences(xs))
  {
    if xs != [] {
      var front := xs[..|xs| - 1];
      FirstOccurrencesMembers(front);
      assert xs == front + [xs[|xs| - 1]];
    }
  }

  lemma OccurrencesStep(perms: seq<string>, i: nat)
    requires i < |perms|
    ensures FirstOccurrences(perms[..i + 1])
         == if perms[i] in perms[..i] then FirstOccurrences(perms[..i]) else FirstOccurrences(perms[..i]) + [perms[i]]
    ensures DuplicatePermIssues(perms[..i + 1])
         == if perms[i] in perms[..i] then DuplicatePermIssues(perms[..i]) + [PermDuplicate(perms[i])]
            else DuplicatePermIssues(perms[..i])
  {
    assert perms[..i + 1][..i] == perms[..i];
  }

  /** `names` holds what the list holds. */
  ghost predicate HoldsAll(names: set<string>, list: seq<string>) {
    forall p :: p in names <==> p in list
  }

  lemma HoldsStep(names: set<string>, perms: seq<string>, i: nat)
    requires i < |perms| && HoldsAll(names, perms[..i])
    ensures HoldsAll(names + {perms[i]}, perms[..i + 1])
    ensures perms[i] in names ==> HoldsAll(names, perms[..i + 1])
    ensures perms[i] in names <==> perms[i] in perms[..i]
  {
    assert perms[..i + 1] == perms[..i] + [perms[i]];
  }

  method CatalogPermissions(perms: seq<string>) returns (entries: seq<string>, issues: seq<Issue>)
    ensures entries == FirstOccurrences(perms)
    ensures issues == DuplicatePermIssues(perms)
  {
    entries, issues := [], [];
    var names: set<string> := {};
    for i := 0 to |perms|
      invariant HoldsAll(names, perms[..i])
      invariant entries == FirstOccurrences(perms[..i]) && issues == DuplicatePermIssues(perms[..i])
    {
      OccurrencesStep(perms, i);
      HoldsStep(names, perms, i);
      if perms[i] in names {
        issues := issues + [PermDuplicate(perms[i])];
      } else {
        names := names + {perms[i]};
        entries := entries + [perms[i]];
      }
    }
    assert perms[..|perms|] == perms;
  }

  /** Each role at its first declaration. */
  function FirstRoles(decls: seq<RoleDecl>): seq<RoleDecl> {
    if decls == [] then []
    else
      var front, last := decls[..|decls| - 1], decls[|decls| - 1];
      FirstRoles(front) + (if Declared(front, last.name) then [] else [last])
  }

  function UnknownGrants(role: string, list: seq<string>, perms: set<string>): seq<Issue> {
    if list == [] then []
    else
      var last := list[|list| - 1];
      UnknownGrants(role, list[..|list| - 1], perms) + (if last in perms then [] else [PermUnknown(role, last)])
  }

  function RoleIssues(decls: seq<RoleDecl>, perms: set<string>): seq<Issue> {
    if decls == [] then []
    else
      var front, last := decls[..|decls| - 1], decls[|decls| - 1];
      RoleIssues(front, perms) +
      (if Declared(front, last.name) then [RoleDuplicate(last.name)]
       else if last.grants.Explicit? then UnknownGrants(last.name, last.grants.perms, perms)
       else [])
  }

  lemma {:induction false} FirstRolesMembers(decls: seq<RoleDecl>)
    ensures forall n :: Declared(FirstRoles(decls), n) <==> Declared(decls, n)
    ensures DistinctNames(FirstRoles(decls))
    ensures forall r :: r in FirstRoles(decls) ==> r in decls
  {
    if decls != [] {
      var front, last := decls[..|decls| - 1], decls[|decls| - 1];
      var kept := FirstRoles(front);
      FirstRolesMembers(front);
      assert decls == front + [last];
      DeclaredAppend(front, last);
      DeclaredAppend(kept, last);
      if !Declared(front, last.name) {
        forall i | 0 <= i < |kept|
          ensures kept[i].name != last.name
        {
          assert kept[i] in kept;
        }
      }
    }
  }

  lemma NextRole(decls: seq<RoleDecl>, i: nat, perms: set<string>)
    requires i < |decls|
    ensures forall n :: Declared(decls[..i + 1], n) <==> Declared(decls[..i], n) || n == decls[i].name
    ensures FirstRoles(decls[..i + 1]) ==
            FirstRoles(decls[..i]) + (if Declared(decls[..i], decls[i].name) then [] else [decls[i]])
    ensures RoleIssues(decls[..i + 1], perms) == RoleIssues(decls[..i], perms) +
            (if Declared(decls[..i], decls[i].name) then [RoleDuplicate(decls[i].name)]
             else if decls[i].grants.Explicit? then UnknownGrants(decls[i].name, decls[i].grants.perms, perms)
             else [])
  {
    assert decls[..i + 1] == decls[..i] + [decls[i]] && decls[..i + 1][..i] == decls[..i];
    DeclaredAppend(decls[..i], decls[i]);
  }

  lemma DeclaredAppend(decls: seq<RoleDecl>, last: RoleDecl)
    ensures forall n :: Declared(decls + [last], n) <==> Declared(decls, n) || n == last.name
  {
    forall n
      ensures Declared(decls + [last], n) <==> Declared(decls, n) || n == last.name
    {
      assert last in decls + [last];
    }
  }

  method CatalogRoles(decls: seq<RoleDecl>, perms: set<string>) returns (roles: seq<RoleDecl>, issues: seq<Issue>)
    ensures roles == FirstRoles(decls)
    ensures issues == RoleIssues(decls, perms)
  {
    roles, issues := [], [];
    var names: set<string> := {};
    for i := 0 to |decls|
      invariant forall n :: n in names <==> Declared(decls[..i], n)
      invariant roles == FirstRoles(decls[..i]) && issues == RoleIssues(decls[..i], perms)
    {
      var r := decls[i];
      NextRole(decls, i, perms);
      if r.name in names {
        issues := issues + [RoleDuplicate(r.name)];
        continue;
      }
      names := names + {r.name};
      if r.grants.Explicit? {
        var unknown := CheckGrants(r.name, r.grants.perms, perms);
        issues := issues + unknown;
      }
      roles := roles + [r];
    }
    assert decls[..|decls|] == decls;
  }

  method CheckGrants(role: string, list: seq<string>, perms: set<string>) returns (issues: seq<Issue>)
    ensures issues == UnknownGrants(role, list, perms)
  {
    issues := [];
    for i := 0 to |list|
      invariant issues == UnknownGrants(role, list[..i], perms)
    {
      assert list[..i + 1][..i] == list[..i];
      if list[i] !in perms {
        issues := issues + [PermUnknown(role, list[i])];
      }
    }
    assert list[..|list|] == list;
  }

  function InheritIssues(decls: seq<RoleDecl>, roles: seq<RoleDecl>): seq<Issue> {
    if decls == [] then []
    else
      var last := decls[|decls| - 1];
      InheritIssues(decls[..|decls| - 1], roles) +
      (if last.inherits.Some? && !Declared(roles, last.inherits.value)
       then [InheritUnknown(last.name, last.inherits.value)] else [])
  }

  method CheckInherits(decls: seq<RoleDecl>, roles: seq<RoleDecl>) returns (issues: seq<Issue>)
    ensures issues == InheritIssues(decls, roles)
  {
    issues := [];
    for i := 0 to |decls|
      invariant issues == InheritIssues(decls[..i], roles)
    {
      assert decls[..i + 1][..i] == decls[..i];
      if decls[i].inherits.Some? && !Declared(roles, decls[i].inherits.value) {
        issues := issues + [InheritUnknown(decls[i].name, decls[i].inherits.value)];
      }
    }
    assert decls[..|decls|] == decls;
  }

  predicate Granted(entries: seq<RoleEntry>, p: string) {
    exists e :: e in entries && p in e.closure
  }

  function UnusedIssues(perms: seq<string>, entries: seq<RoleEntry>): seq<Issue> {
    if perms == [] then []
    else
      var last := perms[|perms| - 1];
      UnusedIssues(perms[..|perms| - 1], entries) + (if Granted(entries, last) then [] else [PermUnused(last)])
  }

  lemma {:induction false} NoneUnusedIfAllGranted(perms: seq<string>, entries: seq<RoleEntry>)
    requires forall p :: p in perms ==> Granted(entries, p)
    ensures UnusedIssues(perms, entries) == []
  {
    if perms != [] {
      NoneUnusedIfAllGranted(perms[..|perms| - 1], entries);
      assert perms[|perms| - 1] in perms;
    }
  }

  method CheckUnused(perms: seq<string>, entries: seq<RoleEntry>) returns (issues: seq<Issue>)
    ensures issues == UnusedIssues(perms, entries)
  {
    issues := [];
    for i := 0 to |perms|
      invariant issues == UnusedIssues(perms[..i], entries)
    {
      assert perms[..i + 1][..i] == perms[..i];
      if !Granted(entries, perms[i]) {
        issues := issues + [PermUnused(perms[i])];
      }
    }
    assert perms[..|perms|] == perms;
  }

  /** Roles with their closures: complete, sound, without repetition. */
  ghost predicate HasClosures(c: Catalog, roles: seq<RoleDecl>) {
    && |c.roles| == |roles|
    && forall i :: 0 <= i < |roles| ==>
         && c.roles[i].decl == roles[i]
         && Distinct(c.roles[i].closure)
         && forall p :: p in c.roles[i].closure <==> p in ClosureSet(roles, c.permissions, roles[i].name)
  }

  /** A role that grants everything leaves nothing unused, so not looking changes nothing. */
  lemma GrantsAllCoversCatalog(c: Catalog, roles: seq<RoleDecl>, i: nat)
    requires HasClosures(c, roles) && DistinctNames(roles)
    requires i < |roles| && roles[i].grants.All?
    ensures UnusedIssues(c.permissions, c.roles) == []
  {
    FindIsMember(roles, roles[i].name);
    assert Find(roles, roles[i].name) == Some(roles[i]);
    assert Ancestor(roles, roles[i].name, 0) == Some(roles[i].name);
    assert IsAncestor(roles, roles[i].name, roles[i].name);
    forall p | p in c.permissions
      ensures Granted(c.roles, p)
    {
      assert p in Own(roles, c.permissions, roles[i].name);
      assert p in ClosureSet(roles, c.permissions, roles[i].name);
      assert c.roles[i] in c.roles;
    }
    NoneUnusedIfAllGranted(c.permissions, c.roles);
  }

  method ComputeClosures(roles: seq<RoleDecl>, perms: seq<string>) returns (entries: seq<RoleEntry>)
    requires Distinct(perms)
    ensures HasClosures(Catalog(perms, entries), roles)
  {
    entries := [];
    for i := 0 to |roles|
      invariant |entries| == i
      invariant forall j :: 0 <= j < i ==>
        && entries[j].decl == roles[j]
        && Distinct(entries[j].closure)
        && forall p :: p in entries[j].closure <==> p in ClosureSet(roles, perms, roles[j].name)
    {
      var closure := ClosureOf(roles, perms, roles[i].name);
      entries := entries + [RoleEntry(roles[i], closure)];
    }
  }

  /** Unused permissions are looked for only when no role grants everything. */
  method ReportUnused(c: Catalog, roles: seq<RoleDecl>) returns (issues: seq<Issue>)
    requires HasClosures(c, roles) && DistinctNames(roles)
    ensures issues == UnusedIssues(c.permissions, c.roles)
  {
    var anyGrantsAll := exists i :: 0 <= i < |roles| && roles[i].grants.All?;
    if anyGrantsAll {
      ghost var i :| 0 <= i < |roles| && roles[i].grants.All?;
      GrantsAllCoversCatalog(c, roles, i);
      issues := [];
    } else {
      issues := CheckUnused(c.permissions, c.roles);
    }
  }

  /** All issues in report order; the cycle part is described by its own predicate. */
  ghost predicate IssuesAre(perms: seq<string>, decls: seq<RoleDecl>, c: Catalog,
                            cycles: seq<Issue>, issues: seq<Issue>) {
    var roles := FirstRoles(decls);
    && (CommaFree(roles) ==> ReportsLoops(roles, LoopingRoles(roles, roles), cycles))
    && issues == DuplicatePermIssues(perms) + RoleIssues(decls, set p | p in perms)
                 + InheritIssues(decls, roles) + cycles + UnusedIssues(c.permissions, c.roles)
  }

  method AnalyzeRbacCatalog(perms: seq<string>, decls: seq<RoleDecl>)
    returns (catalog: Option<Catalog>, issues: seq<Issue>)
    ensures catalog.None? <==> perms == [] && decls == []
    ensures catalog.None? ==> issues == []
    ensures catalog.Some? ==>
              && catalog.value.permissions == FirstOccurrences(perms)
              && HasClosures(catalog.value, FirstRoles(decls))
              && exists cycles :: IssuesAre(perms, decls, catalog.value, cycles, issues)
  {
    if perms == [] && decls == [] {
      return None, [];
    }
    var entries, permIssues := CatalogPermissions(perms);
    FirstOccurrencesMembers(perms);
    assert (set p | p in entries) == (set p | p in perms);
    var roles, roleIssues := CatalogRoles(decls, set p | p in entries);
    FirstRolesMembers(decls);
    var inheritIssues := CheckInherits(decls, roles);
    var cycleIssues := DetectCycles(roles);
    var closed := ComputeClosures(roles, entries);
    var unused := ReportUnused(Catalog(entries, closed), roles);
    issues := permIssues + roleIssues + inheritIssues + cycleIssues + unused;
    catalog := Some(Catalog(entries, closed));
    assert IssuesAre(perms, decls, catalog.value, cycleIssues, issues);
  }

  function FindEntry(entries: seq<RoleEntry>, role: string): Option<RoleEntry> {
    if entries == [] then None
    else if entries[0].decl.name == role then Some(entries[0])
    else FindEntry(entries[1..], role)
  }

  predicate RoleGrantsPermission(c: Catalog, role: string, perm: string) {
    match FindEntry(c.roles, role)
    case None => false
    case Some(e) => perm in e.closure
  }

  lemma {:induction false} FindEntryIsMember(entries: seq<RoleEntry>, role: string)
    ensures FindEntry(entries, role).Some? ==>
              exists i :: 0 <= i < |entries| &&
                entries[i] == FindEntry(entries, role).value && entries[i].decl.name == role
    ensures FindEntry(entries, role).None? ==> forall i :: 0 <= i < |entries| ==> entries[i].decl.name != role
    decreases |entries|
  {
    if entries != [] && entries[0].decl.name != role {
      FindEntryIsMember(entries[1..], role);
      if FindEntry(entries, role).Some? {
        var i :| 0 <= i < |entries[1..]| && entries[1..][i] == FindEntry(entries, role).value &&
                 entries[1..][i].decl.name == role;
        assert entries[i + 1] == entries[1..][i];
      }
      forall i | 0 <= i < |entries| && FindEntry(entries, role).None?
        ensures entries[i].decl.name != role
      {
        assert i > 0 ==> entries[i] == entries[1..][i - 1];
      }
    }
  }

  /** The query answers yes exactly for declared roles that reach a grant of the permission. */
  lemma RoleGrantsPermissionIff(c: Catalog, roles: seq<RoleDecl>, role: string, perm: string)
    requires HasClosures(c, roles)
    ensures RoleGrantsPermission(c, role, perm) <==>
              Declared(roles, role) && perm in ClosureSet(roles, c.permissions, role)
  {
    FindEntryIsMember(c.roles, role);
    if Declared(roles, role) {
      var r :| r in roles && r.name == role;
      var i :| 0 <= i < |roles| && roles[i] == r;
      assert c.roles[i].decl.name == role;
    }
    if FindEntry(c.roles, role).Some? {
      var i :| 0 <= i < |c.roles| && c.roles[i] == FindEntry(c.roles, role).value && c.roles[i].decl.name == role;
      assert roles[i] in roles;
    }
  }
}
