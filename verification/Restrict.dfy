/** Scopes of `restrict on_delete` guards: flags read off the schema of the relation that a
    guard names, first within a feature, then across the whole module. */
module Restrict {
  import opened Wrappers
  import opened Casing

  datatype Tenancy = Org | Team | Custom(axis: string) | NoTenancy

  datatype Guard = Guard(
    relation: string, fk: string, extraWhere: Option<string>,
    tenantScoped: bool, softDelete: bool, errorCode: Option<string>)

  datatype Resource = Resource(name: string, tenancy: Option<Tenancy>, softDelete: bool, guards: seq<Guard>)

  datatype Scope = Scope(tenantScoped: bool, softDelete: bool)

  type ScopeIndex = map<string, Scope>

  function ScopeOf(res: Resource): Scope {
    Scope(res.tenancy.Some? && !res.tenancy.value.NoTenancy?, res.softDelete)
  }

  type Entry = (string, Scope)

  function EntryOf(res: Resource): Entry {
    (Snake(res.name), ScopeOf(res))
  }

  function Entries(resources: seq<Resource>): seq<Entry> {
    seq(|resources|, i requires 0 <= i < |resources| => EntryOf(resources[i]))
  }

  /** Entries collected in order; a later one of the same name replaces an earlier one. */
  function Index(entries: seq<Entry>): ScopeIndex {
    if entries == [] then map[]
    else
      var last := entries[|entries| - 1];
      Index(entries[..|entries| - 1])[last.0 := last.1]
  }

  function Scopes(resources: seq<Resource>): ScopeIndex {
    Index(Entries(resources))
  }

  function Scoped(g: Guard, scopes: ScopeIndex): Guard {
    var key := Snake(g.relation);
    if key in scopes then g.(tenantScoped := scopes[key].tenantScoped, softDelete := scopes[key].softDelete) else g
  }

  function ScopedAll(guards: seq<Guard>, scopes: ScopeIndex): seq<Guard> {
    seq(|guards|, i requires 0 <= i < |guards| => Scoped(guards[i], scopes))
  }

  function Applied(res: Resource, scopes: ScopeIndex): Resource {
    res.(guards := ScopedAll(res.guards, scopes))
  }

  function AppliedAll(resources: seq<Resource>, scopes: ScopeIndex): seq<Resource> {
    seq(|resources|, i requires 0 <= i < |resources| => Applied(resources[i], scopes))
  }

  method BuildScopes(resources: seq<Resource>, scopes0: ScopeIndex) returns (scopes: ScopeIndex)
    ensures scopes == scopes0 + Scopes(resources)
  {
    scopes := scopes0;
    ghost var entries := Entries(resources);
    for i := 0 to |resources|
      invariant scopes == scopes0 + Index(entries[..i])
    {
      assert entries[..i + 1][..i] == entries[..i];
      var key := PascalToSnake(resources[i].name);
      scopes := scopes[key := ScopeOf(resources[i])];
    }
    assert entries[..|resources|] == entries;
  }

  /** Guards are rewritten in place, resource by resource. */
  method ApplyRestrictOnDeleteScopes(resources: array<Resource>, scopes: ScopeIndex)
    modifies resources
    ensures resources[..] == AppliedAll(old(resources[..]), scopes)
  {
    ghost var was := resources[..];
    for i := 0 to resources.Length
      invariant forall k :: 0 <= k < i ==> resources[k] == Applied(was[k], scopes)
      invariant forall k :: i <= k < resources.Length ==> resources[k] == was[k]
    {
      ghost var now := resources[..];
      var guards := resources[i].guards;
      for j := 0 to |guards|
        invariant resources[..] == now
        invariant |guards| == |was[i].guards|
        invariant forall k :: 0 <= k < j ==> guards[k] == Scoped(was[i].guards[k], scopes)
        invariant forall k :: j <= k < |guards| ==> guards[k] == was[i].guards[k]
      {
        var key := PascalToSnake(guards[j].relation);
        if key in scopes {
          guards := guards[j := guards[j].(
            tenantScoped := scopes[key].tenantScoped, softDelete := scopes[key].softDelete)];
        }
      }
      assert guards == ScopedAll(was[i].guards, scopes);
      assert forall k :: 0 <= k < resources.Length ==> resources[k] == now[k];
      resources[i] := resources[i].(guards := guards);
    }
  }

  /** The per-feature pass: the index is built from the feature's own resources. */
  method ResolveRestrictOnDeleteScopes(resources: array<Resource>)
    modifies resources
    ensures resources[..] == AppliedAll(old(resources[..]), Scopes(old(resources[..])))
  {
    var scopes := BuildScopes(resources[..], map[]);
    assert map[] + Scopes(resources[..]) == Scopes(resources[..]);
    ApplyRestrictOnDeleteScopes(resources, scopes);
  }

  // ---- the module pass ---------------------------------------------------------------------------

  function Flat(features: seq<seq<Resource>>): seq<Resource> {
    if features == [] then [] else Flat(features[..|features| - 1]) + features[|features| - 1]
  }

  function ModulePass(features: seq<seq<Resource>>): seq<seq<Resource>> {
    seq(|features|, i requires 0 <= i < |features| => AppliedAll(features[i], Scopes(Flat(features))))
  }

  function FeaturePass(features: seq<seq<Resource>>): seq<seq<Resource>> {
    seq(|features|, i requires 0 <= i < |features| => AppliedAll(features[i], Scopes(features[i])))
  }

  /** A module's features are separate collections of resources. */
  predicate Separate(module_: seq<array<Resource>>) {
    forall i, j :: 0 <= i < j < |module_| ==> module_[i] != module_[j]
  }

  ghost function Contents(module_: seq<array<Resource>>): seq<seq<Resource>>
    reads module_
  {
    seq(|module_|, i requires 0 <= i < |module_| reads module_ => module_[i][..])
  }

  lemma {:induction false} IndexAppend(a: seq<Entry>, b: seq<Entry>)
    ensures Index(a + b) == Index(a) + Index(b)
    decreases |b|
  {
    if b == [] {
      assert a + b == a;
    } else {
      var front := b[..|b| - 1];
      assert (a + b)[..|a + b| - 1] == a + front;
      IndexAppend(a, front);
    }
  }

  lemma EntriesAppend(a: seq<Resource>, b: seq<Resource>)
    ensures Entries(a + b) == Entries(a) + Entries(b)
  {
    forall i | 0 <= i < |a + b| ensures Entries(a + b)[i] == (Entries(a) + Entries(b))[i] {
      assert (a + b)[i] == if i < |a| then a[i] else b[i - |a|];
    }
  }

  lemma ScopesAppend(a: seq<Resource>, b: seq<Resource>)
    ensures Scopes(a + b) == Scopes(a) + Scopes(b)
  {
    EntriesAppend(a, b);
    IndexAppend(Entries(a), Entries(b));
  }

  method BuildModuleScopes(module_: seq<array<Resource>>) returns (scopes: ScopeIndex)
    ensures scopes == Scopes(Flat(Contents(module_)))
  {
    ghost var was := Contents(module_);
    scopes := map[];
    for i := 0 to |module_|
      invariant Contents(module_) == was
      invariant scopes == Scopes(Flat(was[..i]))
    {
      assert was[..i + 1][..i] == was[..i] && was[i] == module_[i][..];
      ScopesAppend(Flat(was[..i]), was[i]);
      scopes := BuildScopes(module_[i][..], scopes);
    }
    assert was[..|module_|] == was;
  }

  method ApplyToModule(module_: seq<array<Resource>>, scopes: ScopeIndex)
    requires Separate(module_)
    modifies module_
    ensures forall k :: 0 <= k < |module_| ==> module_[k][..] == AppliedAll(old(module_[k][..]), scopes)
  {
    ghost var was := Contents(module_);
    for i := 0 to |module_|
      invariant forall k :: 0 <= k < i ==> module_[k][..] == AppliedAll(was[k], scopes)
      invariant forall k :: i <= k < |module_| ==> module_[k][..] == was[k]
    {
      ApplyRestrictOnDeleteScopes(module_[i], scopes);
    }
  }

  /** The module pass: one index over every feature, applied to every guard. */
  method ResolveRestrictOnDeleteScopesModule(module_: seq<array<Resource>>)
    requires Separate(module_)
    modifies module_
    ensures Contents(module_) == ModulePass(old(Contents(module_)))
  {
    ghost var was := Contents(module_);
    var scopes := BuildModuleScopes(module_);
    ApplyToModule(module_, scopes);
    assert forall k :: 0 <= k < |module_| ==> Contents(module_)[k] == ModulePass(was)[k];
  }

  // ---- what the passes guarantee -------------------------------------------------------------------

  predicate DistinctKeys(entries: seq<Entry>) {
    forall i, j :: 0 <= i < j < |entries| ==> entries[i].0 != entries[j].0
  }

  /** Resource names differ in snake case. */
  predicate UniqueNames(resources: seq<Resource>) {
    DistinctKeys(Entries(resources))
  }

  lemma {:induction false} IndexKeys(entries: seq<Entry>, key: string)
    ensures key in Index(entries) <==> exists i :: 0 <= i < |entries| && entries[i].0 == key
    decreases |entries|
  {
    if entries != [] {
      var front := entries[..|entries| - 1];
      IndexKeys(front, key);
      if key in Index(front) {
        var i :| 0 <= i < |front| && front[i].0 == key;
        assert entries[i].0 == key;
      }
      if exists i :: 0 <= i < |entries| && entries[i].0 == key {
        var i :| 0 <= i < |entries| && entries[i].0 == key;
        assert i < |front| ==> front[i].0 == key;
      }
    }
  }

  lemma {:induction false} IndexOfDistinct(entries: seq<Entry>, i: nat)
    requires DistinctKeys(entries) && i < |entries|
    ensures entries[i].0 in Index(entries) && Index(entries)[entries[i].0] == entries[i].1
    decreases |entries|
  {
    if i < |entries| - 1 {
      IndexOfDistinct(entries[..|entries| - 1], i);
    }
  }

  /** With unique names, a guard that names a relation in either case gets the flags of that
      relation's schema, and nothing else about it changes. */
  lemma GuardGetsItsSchema(resources: seq<Resource>, i: nat, g: Guard)
    requires UniqueNames(resources) && i < |resources|
    requires g.relation == resources[i].name || g.relation == Snake(resources[i].name)
    ensures Scoped(g, Scopes(resources))
         == g.(tenantScoped := ScopeOf(resources[i]).tenantScoped, softDelete := resources[i].softDelete)
  {
    SnakeIdempotent(resources[i].name);
    IndexOfDistinct(Entries(resources), i);
  }

  /** A guard whose relation is the snake-case name of no resource is left as it is. */
  lemma UnresolvedIsUntouched(resources: seq<Resource>, g: Guard)
    requires forall i :: 0 <= i < |resources| ==> EntryOf(resources[i]).0 != Snake(g.relation)
    ensures Scoped(g, Scopes(resources)) == g
  {
    IndexKeys(Entries(resources), Snake(g.relation));
  }

  /** Two resources with the same schema: guards are the only difference. */
  predicate SameSchemas(a: seq<Resource>, b: seq<Resource>) {
    |a| == |b| && forall i :: 0 <= i < |a| ==> a[i] == b[i].(guards := a[i].guards)
  }

  lemma ScopesIgnoreGuards(a: seq<Resource>, b: seq<Resource>)
    requires SameSchemas(a, b)
    ensures Scopes(a) == Scopes(b)
  {
    forall i | 0 <= i < |a| ensures EntryOf(a[i]) == EntryOf(b[i]) {
      assert a[i] == b[i].(guards := a[i].guards);
    }
    assert Entries(a) == Entries(b);
  }

  lemma SameSchemasAppend(a: seq<Resource>, b: seq<Resource>, c: seq<Resource>, d: seq<Resource>)
    requires SameSchemas(a, b) && SameSchemas(c, d)
    ensures SameSchemas(a + c, b + d)
  {
    forall i | 0 <= i < |a + c| ensures (a + c)[i] == (b + d)[i].(guards := (a + c)[i].guards) {
      if i >= |a| {
        assert (a + c)[i] == c[i - |a|] && (b + d)[i] == d[i - |a|];
      }
    }
  }

  lemma {:induction false} FlatSameSchemas(a: seq<seq<Resource>>, b: seq<seq<Resource>>)
    requires |a| == |b| && forall i :: 0 <= i < |a| ==> SameSchemas(a[i], b[i])
    ensures SameSchemas(Flat(a), Flat(b))
    decreases |a|
  {
    if a != [] {
      var n := |a| - 1;
      FlatSameSchemas(a[..n], b[..n]);
      SameSchemasAppend(Flat(a[..n]), Flat(b[..n]), a[n], b[n]);
    }
  }

  lemma PassesKeepScopes(features: seq<seq<Resource>>)
    ensures Scopes(Flat(ModulePass(features))) == Scopes(Flat(features))
    ensures Scopes(Flat(FeaturePass(features))) == Scopes(Flat(features))
  {
    FlatSameSchemas(ModulePass(features), features);
    FlatSameSchemas(FeaturePass(features), features);
    ScopesIgnoreGuards(Flat(ModulePass(features)), Flat(features));
    ScopesIgnoreGuards(Flat(FeaturePass(features)), Flat(features));
  }

  lemma AppliedTwice(resources: seq<Resource>, first: ScopeIndex, second: ScopeIndex)
    requires first.Keys <= second.Keys
    ensures AppliedAll(AppliedAll(resources, first), second) == AppliedAll(resources, second)
  {
    forall i | 0 <= i < |resources|
      ensures ScopedAll(ScopedAll(resources[i].guards, first), second) == ScopedAll(resources[i].guards, second)
    {
    }
  }

  /** Running the module pass again changes nothing. */
  lemma ModulePassIdempotent(features: seq<seq<Resource>>)
    ensures ModulePass(ModulePass(features)) == ModulePass(features)
  {
    PassesKeepScopes(features);
    forall i | 0 <= i < |features| ensures ModulePass(ModulePass(features))[i] == ModulePass(features)[i] {
      AppliedTwice(features[i], Scopes(Flat(features)), Scopes(Flat(features)));
    }
  }

  /** Where a feature's resources begin in the module's. */
  function Offset(features: seq<seq<Resource>>, i: nat): nat
    requires i < |features|
  {
    |Flat(features[..i])|
  }

  /** A feature's entries stand together among the module's. */
  lemma {:induction false} FlatHolds(features: seq<seq<Resource>>, i: nat)
    requires i < |features|
    ensures Offset(features, i) + |features[i]| <= |Flat(features)|
    ensures Flat(features)[Offset(features, i)..][..|features[i]|] == features[i]
    decreases |features|
  {
    var front := features[..|features| - 1];
    if i < |features| - 1 {
      FlatHolds(front, i);
      assert front[..i] == features[..i];
    }
  }

  lemma EntriesHold(features: seq<seq<Resource>>, i: nat)
    requires i < |features|
    ensures Offset(features, i) + |features[i]| <= |Flat(features)|
    ensures Entries(Flat(features))[Offset(features, i)..][..|features[i]|] == Entries(features[i])
  {
    FlatHolds(features, i);
    var all, at, part := Flat(features), Offset(features, i), features[i];
    forall j | 0 <= j < |part| ensures Entries(all)[at..][..|part|][j] == Entries(part)[j] {
      assert all[at..][..|part|][j] == all[at + j];
    }
  }

  lemma PartKeys(all: seq<Entry>, at: nat, part: seq<Entry>, key: string)
    requires at + |part| <= |all| && all[at..][..|part|] == part && key in Index(part)
    ensures key in Index(all)
    ensures DistinctKeys(all) ==> Index(all)[key] == Index(part)[key]
  {
    IndexKeys(part, key);
    var j :| 0 <= j < |part| && part[j].0 == key;
    assert forall k :: 0 <= k < |part| ==> part[k] == all[at + k];
    IndexKeys(all, key);
    if DistinctKeys(all) {
      IndexOfDistinct(all, at + j);
      IndexOfDistinct(part, j);
    }
  }

  lemma FeatureKeysAreModuleKeys(features: seq<seq<Resource>>, i: nat)
    requires i < |features|
    ensures Scopes(features[i]).Keys <= Scopes(Flat(features)).Keys
  {
    EntriesHold(features, i);
    forall key | key in Scopes(features[i]) ensures key in Scopes(Flat(features)) {
      PartKeys(Entries(Flat(features)), Offset(features, i), Entries(features[i]), key);
    }
  }

  /** An earlier per-feature pass makes no difference to the module pass. */
  lemma ModulePassAbsorbs(features: seq<seq<Resource>>)
    ensures ModulePass(FeaturePass(features)) == ModulePass(features)
  {
    PassesKeepScopes(features);
    forall i | 0 <= i < |features| ensures ModulePass(FeaturePass(features))[i] == ModulePass(features)[i] {
      FeatureKeysAreModuleKeys(features, i);
      AppliedTwice(features[i], Scopes(features[i]), Scopes(Flat(features)));
    }
  }

  /** The last resource declared under a snake-case name. */
  function LastNamed(resources: seq<Resource>, key: string): Option<Resource> {
    if resources == [] then None
    else if Snake(resources[|resources| - 1].name) == key then Some(resources[|resources| - 1])
    else LastNamed(resources[..|resources| - 1], key)
  }

  lemma {:induction false} ScopesAreOfLast(resources: seq<Resource>, key: string)
    ensures match LastNamed(resources, key)
            case None => key !in Scopes(resources)
            case Some(last) => key in Scopes(resources) && Scopes(resources)[key] == ScopeOf(last)
    decreases |resources|
  {
    if resources != [] {
      var front, last := resources[..|resources| - 1], resources[|resources| - 1];
      assert Entries(resources)[..|front|] == Entries(front);
      assert Entries(resources)[|front|] == EntryOf(last);
      ScopesAreOfLast(front, key);
    }
  }

  /** The module pass keeps the flags that the per-feature pass derived exactly when the last
      resource of that name in the whole module has the scope of the feature's own last one. */
  lemma FeatureFlagsKeptIff(features: seq<seq<Resource>>, i: nat, g: Guard)
    requires i < |features| && LastNamed(features[i], Snake(g.relation)).Some?
    ensures LastNamed(Flat(features), Snake(g.relation)).Some?
    ensures Scoped(Scoped(g, Scopes(features[i])), Scopes(Flat(features))) == Scoped(g, Scopes(features[i]))
            <==> ScopeOf(LastNamed(Flat(features), Snake(g.relation)).value)
                 == ScopeOf(LastNamed(features[i], Snake(g.relation)).value)
  {
    ScopesAreOfLast(features[i], Snake(g.relation));
    ScopesAreOfLast(Flat(features), Snake(g.relation));
    FeatureKeysAreModuleKeys(features, i);
  }

  /** Two features with a resource of one name: the second feature's schema replaces the
      flags that the first derived from its own. */
  lemma SameNameElsewhereOverrides()
    ensures var owned, other := Resource("Note", Some(Org), false, []), Resource("Note", None, true, []);
            var g := Guard("note", "note_id", None, false, false, None);
            var features := [[owned], [other]];
            && Scoped(g, Scopes(features[0])) == g.(tenantScoped := true)
            && Scoped(g.(tenantScoped := true), Scopes(Flat(features))) == g.(softDelete := true)
  {
    var owned, other := Resource("Note", Some(Org), false, []), Resource("Note", None, true, []);
    var features := [[owned], [other]];
    assert Snake("Note") == "note" && Snake("note") == "note";
    assert features[..1] == [[owned]] && features[..1][..0] == [];
    assert Flat(features[..1]) == [owned];
    assert Flat(features) == [owned, other];
    assert [owned, other][..1] == [owned];
    ScopesAreOfLast([owned], "note");
    ScopesAreOfLast([owned, other], "note");
  }

  /** It has when resource names are unique across the module. */
  lemma UniqueNamesAgree(features: seq<seq<Resource>>, i: nat, key: string)
    requires UniqueNames(Flat(features)) && i < |features| && LastNamed(features[i], key).Some?
    ensures LastNamed(Flat(features), key).Some?
    ensures ScopeOf(LastNamed(Flat(features), key).value) == ScopeOf(LastNamed(features[i], key).value)
  {
    ScopesAreOfLast(features[i], key);
    ScopesAreOfLast(Flat(features), key);
    EntriesHold(features, i);
    PartKeys(Entries(Flat(features)), Offset(features, i), Entries(features[i]), key);
  }
}
