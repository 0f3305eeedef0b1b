/** The changelog of two versions of a module: commands joined by feature and name, and sorted
    into added, removed, deprecated, breaking and non-breaking. */
module Changelog {
  import opened Wrappers
  import opened Order
  import opened Compatibility

  datatype Key = Key(feature: string, name: string)

  datatype CommandKind = Create | Update | Delete | Returns | Reorder

  datatype Deprecation = Deprecation(since: Option<string>, replacement: Option<string>, sunset: Option<string>)

  datatype Command = Command(
    name: string, kind: CommandKind, route: seq<string>, input: CommandInput, deprecated: Option<Deprecation>)

  datatype Feature = Feature(name: string, commands: seq<Command>)

  datatype OperationRef = OperationRef(feature: string, name: string, verb: string, path: string)

  datatype Change = Change(op: OperationRef, reason: Reason)

  datatype DeprecatedEntry = DeprecatedEntry(op: OperationRef, deprecation: Deprecation)

  datatype ChangelogReport = ChangelogReport(
    added: seq<OperationRef>, removed: seq<OperationRef>, deprecated: seq<DeprecatedEntry>,
    breaking: seq<Change>, nonBreaking: seq<Change>)

  // ---- the index ------------------------------------------------------------------------------------

  datatype Entry = Entry(key: Key, command: Command)

  /** Keys are ordered by feature, then by name. */
  predicate Before(a: Key, b: Key) {
    Less(a.feature, b.feature) || (a.feature == b.feature && Less(a.name, b.name))
  }

  /** An ordered map, as the list its iterator yields. */
  predicate Sorted(entries: seq<Entry>) {
    forall i, j :: 0 <= i < j < |entries| ==> Before(entries[i].key, entries[j].key)
  }

  /** Inserting an entry; an entry of the same key is replaced. */
  function Put(entries: seq<Entry>, e: Entry): seq<Entry> {
    if entries == [] then [e]
    else if e.key == entries[0].key then [e] + entries[1..]
    else if Before(e.key, entries[0].key) then [e] + entries
    else [entries[0]] + Put(entries[1..], e)
  }

  function Lookup(entries: seq<Entry>, key: Key): Option<Command> {
    if entries == [] then None
    else if entries[0].key == key then Some(entries[0].command)
    else Lookup(entries[1..], key)
  }

  function EntryOf(feature: string, command: Command): Entry {
    Entry(Key(feature, command.name), command)
  }

  function ListedIn(feature: Feature): seq<Entry> {
    seq(|feature.commands|, i requires 0 <= i < |feature.commands| => EntryOf(feature.name, feature.commands[i]))
  }

  /** Every command of a module, feature by feature. */
  function Listed(features: seq<Feature>): seq<Entry> {
    if features == [] then [] else Listed(features[..|features| - 1]) + ListedIn(features[|features| - 1])
  }

  function PutAll(entries: seq<Entry>, listed: seq<Entry>): seq<Entry> {
    if listed == [] then entries else Put(PutAll(entries, listed[..|listed| - 1]), listed[|listed| - 1])
  }

  function IndexOf(features: seq<Feature>): seq<Entry> {
    PutAll([], Listed(features))
  }

  lemma {:induction false} PutAllAppend(entries: seq<Entry>, a: seq<Entry>, b: seq<Entry>)
    ensures PutAll(entries, a + b) == PutAll(PutAll(entries, a), b)
    decreases |b|
  {
    if b == [] {
      assert a + b == a;
    } else {
      assert (a + b)[..|a + b| - 1] == a + b[..|b| - 1];
      PutAllAppend(entries, a, b[..|b| - 1]);
    }
  }

  method IndexCommands(features: seq<Feature>) returns (entries: seq<Entry>)
    ensures entries == IndexOf(features)
  {
    entries := [];
    for f := 0 to |features|
      invariant entries == PutAll([], Listed(features[..f]))
    {
      ghost var start := entries;
      var commands := features[f].commands;
      ghost var listed := ListedIn(features[f]);
      for c := 0 to |commands|
        invariant entries == PutAll(start, listed[..c])
      {
        assert listed[..c + 1][..c] == listed[..c];
        entries := Put(entries, EntryOf(features[f].name, commands[c]));
      }
      assert listed[..|commands|] == listed && features[..f + 1][..f] == features[..f];
      PutAllAppend([], Listed(features[..f]), listed);
    }
    assert features[..|features|] == features;
  }

  lemma BeforeTransitive(a: Key, b: Key, c: Key)
    requires Before(a, b) && Before(b, c)
    ensures Before(a, c)
  {
    if Less(a.feature, b.feature) && Less(b.feature, c.feature) {
      LessTransitive(a.feature, b.feature, c.feature);
    } else if a.feature == b.feature && b.feature == c.feature {
      LessTransitive(a.name, b.name, c.name);
    }
  }

  lemma BeforeTotal(a: Key, b: Key)
    ensures a == b || Before(a, b) || Before(b, a)
    ensures !Before(a, a)
  {
    LessTotal(a.feature, b.feature);
    LessTotal(a.name, b.name);
    LessIrreflexive(a.feature);
    LessIrreflexive(a.name);
  }

  lemma {:induction false} PutKeys(entries: seq<Entry>, e: Entry, k: nat)
    requires k < |Put(entries, e)|
    ensures Put(entries, e)[k] == e || Put(entries, e)[k] in entries
    decreases |entries|
  {
    if entries != [] && e.key != entries[0].key && !Before(e.key, entries[0].key) && k > 0 {
      PutKeys(entries[1..], e, k - 1);
    }
  }

  lemma {:induction false} PutSorted(entries: seq<Entry>, e: Entry)
    requires Sorted(entries)
    ensures Sorted(Put(entries, e))
    decreases |entries|
  {
    if entries != [] && e.key != entries[0].key {
      BeforeTotal(e.key, entries[0].key);
      if Before(e.key, entries[0].key) {
        forall j | 0 < j < |entries| ensures Before(e.key, entries[j].key) {
          BeforeTransitive(e.key, entries[0].key, entries[j].key);
        }
      } else {
        var rest := Put(entries[1..], e);
        PutSorted(entries[1..], e);
        forall j | 0 <= j < |rest| ensures Before(entries[0].key, rest[j].key) {
          PutKeys(entries[1..], e, j);
        }
      }
    }
  }

  lemma {:induction false} PutLookup(entries: seq<Entry>, e: Entry, key: Key)
    requires Sorted(entries)
    ensures Lookup(Put(entries, e), key) == if key == e.key then Some(e.command) else Lookup(entries, key)
    decreases |entries|
  {
    if entries != [] {
      var put := Put(entries, e);
      if e.key == entries[0].key || Before(e.key, entries[0].key) {
        assert put[1..] == if e.key == entries[0].key then entries[1..] else entries;
      } else {
        assert put[1..] == Put(entries[1..], e);
        PutLookup(entries[1..], e, key);
      }
    }
  }

  /** The last command listed under a key. */
  function LastListed(listed: seq<Entry>, key: Key): Option<Command> {
    if listed == [] then None
    else if listed[|listed| - 1].key == key then Some(listed[|listed| - 1].command)
    else LastListed(listed[..|listed| - 1], key)
  }

  /** The index is in key order and holds under each key the last command listed. */
  lemma {:induction false} IndexHoldsLast(listed: seq<Entry>, key: Key)
    ensures Sorted(PutAll([], listed))
    ensures Lookup(PutAll([], listed), key) == LastListed(listed, key)
    decreases |listed|
  {
    if listed != [] {
      var front, last := listed[..|listed| - 1], listed[|listed| - 1];
      IndexHoldsLast(front, key);
      PutSorted(PutAll([], front), last);
      PutLookup(PutAll([], front), last, key);
    }
  }

  // ---- the report -----------------------------------------------------------------------------------

  function Verb(kind: CommandKind): string {
    match kind
    case Create => "POST"
    case Update => "PATCH"
    case Delete => "DELETE"
    case Returns => "POST"
    case Reorder => "PATCH"
  }

  function RoutePath(route: seq<string>): string {
    if route == [] then "" else RoutePath(route[..|route| - 1]) + "/{" + route[|route| - 1] + "}"
  }

  function OperationOf(e: Entry): OperationRef {
    OperationRef(e.key.feature, e.command.name, Verb(e.command.kind),
                 "/api/" + e.key.feature + "/" + e.command.name + RoutePath(e.command.route))
  }

  function OpIf(e: Entry, there: bool): seq<OperationRef> {
    if there then [OperationOf(e)] else []
  }

  /** Operations of `entries` whose key is not in `other`, in key order. */
  function OnlyIn(entries: seq<Entry>, other: seq<Entry>): seq<OperationRef> {
    if entries == [] then []
    else
      var last := entries[|entries| - 1];
      OnlyIn(entries[..|entries| - 1], other) + OpIf(last, Lookup(other, last.key).None?)
  }

  function BreakingOf(e: Entry, before: seq<Entry>): seq<Change> {
    match Lookup(before, e.key)
    case None => []
    case Some(was) =>
      match InputBreakingChange(was.input, e.command.input)
      case None => []
      case Some(reason) => [Change(OperationOf(e), reason)]
  }

  function NonBreakingOf(e: Entry, before: seq<Entry>): seq<Change> {
    match Lookup(before, e.key)
    case None => []
    case Some(was) =>
      match InputNonBreakingChange(was.input, e.command.input)
      case None => []
      case Some(reason) => [Change(OperationOf(e), reason)]
  }

  function DeprecatedOf(e: Entry, before: seq<Entry>): seq<DeprecatedEntry> {
    match Lookup(before, e.key)
    case None => []
    case Some(was) =>
      if was.deprecated.None? && e.command.deprecated.Some?
      then [DeprecatedEntry(OperationOf(e), e.command.deprecated.value)]
      else []
  }

  function Breaking(before: seq<Entry>, after: seq<Entry>): seq<Change> {
    if after == [] then []
    else Breaking(before, after[..|after| - 1]) + BreakingOf(after[|after| - 1], before)
  }

  function NonBreaking(before: seq<Entry>, after: seq<Entry>): seq<Change> {
    if after == [] then []
    else NonBreaking(before, after[..|after| - 1]) + NonBreakingOf(after[|after| - 1], before)
  }

  function Deprecated(before: seq<Entry>, after: seq<Entry>): seq<DeprecatedEntry> {
    if after == [] then []
    else Deprecated(before, after[..|after| - 1]) + DeprecatedOf(after[|after| - 1], before)
  }

  function Report(before: seq<Entry>, after: seq<Entry>): ChangelogReport {
    ChangelogReport(OnlyIn(after, before), OnlyIn(before, after), Deprecated(before, after),
                    Breaking(before, after), NonBreaking(before, after))
  }

  /** One more command of the new version adds its own part to every section. */
  lemma SectionsStep(before: seq<Entry>, after: seq<Entry>, i: nat)
    requires i < |after|
    ensures OnlyIn(after[..i + 1], before)
         == OnlyIn(after[..i], before) + OpIf(after[i], Lookup(before, after[i].key).None?)
    ensures Deprecated(before, after[..i + 1]) == Deprecated(before, after[..i]) + DeprecatedOf(after[i], before)
    ensures Breaking(before, after[..i + 1]) == Breaking(before, after[..i]) + BreakingOf(after[i], before)
    ensures NonBreaking(before, after[..i + 1]) == NonBreaking(before, after[..i]) + NonBreakingOf(after[i], before)
  {
    assert after[..i + 1][..i] == after[..i];
  }

  method Classify(e: Entry, was: Command)
    returns (breaking: seq<Change>, deprecated: seq<DeprecatedEntry>, nonBreaking: seq<Change>)
    ensures forall before :: Lookup(before, e.key) == Some(was) ==>
              && breaking == BreakingOf(e, before)
              && deprecated == DeprecatedOf(e, before)
              && nonBreaking == NonBreakingOf(e, before)
  {
    breaking, deprecated, nonBreaking := [], [], [];
    var broken := InputBreakingChange(was.input, e.command.input);
    if broken.Some? {
      breaking := [Change(OperationOf(e), broken.value)];
    }
    if was.deprecated.None? && e.command.deprecated.Some? {
      deprecated := [DeprecatedEntry(OperationOf(e), e.command.deprecated.value)];
    }
    var extended := InputNonBreakingChange(was.input, e.command.input);
    if extended.Some? {
      nonBreaking := [Change(OperationOf(e), extended.value)];
    }
  }

  method Diff(before: seq<Feature>, after: seq<Feature>) returns (report: ChangelogReport)
    ensures report == Report(IndexOf(before), IndexOf(after))
  {
    var added: seq<OperationRef>, removed: seq<OperationRef> := [], [];
    var deprecated: seq<DeprecatedEntry> := [];
    var breaking: seq<Change>, nonBreaking: seq<Change> := [], [];
    var oldCommands := IndexCommands(before);
    var newCommands := IndexCommands(after);
    for i := 0 to |newCommands|
      invariant added == OnlyIn(newCommands[..i], oldCommands)
      invariant deprecated == Deprecated(oldCommands, newCommands[..i])
      invariant breaking == Breaking(oldCommands, newCommands[..i])
      invariant nonBreaking == NonBreaking(oldCommands, newCommands[..i])
    {
      SectionsStep(oldCommands, newCommands, i);
      var e := newCommands[i];
      var was := Lookup(oldCommands, e.key);
      if was.None? {
        added := added + [OperationOf(e)];
      } else {
        var b, d, n := Classify(e, was.value);
        breaking, deprecated, nonBreaking := breaking + b, deprecated + d, nonBreaking + n;
      }
    }
    assert newCommands[..|newCommands|] == newCommands;
    for i := 0 to |oldCommands|
      invariant removed == OnlyIn(oldCommands[..i], newCommands)
    {
      SectionsStep(newCommands, oldCommands, i);
      if Lookup(newCommands, oldCommands[i].key).None? {
        removed := removed + [OperationOf(oldCommands[i])];
      }
    }
    assert oldCommands[..|oldCommands|] == oldCommands;
    report := ChangelogReport(added, removed, deprecated, breaking, nonBreaking);
  }

  // ---- what the report means --------------------------------------------------------------------------

  /** Swapping the versions swaps what was added and what was removed. */
  method DiffBothWays(a: seq<Feature>, b: seq<Feature>) returns (there: ChangelogReport, back: ChangelogReport)
    ensures there.added == back.removed && there.removed == back.added
  {
    there := Diff(a, b);
    back := Diff(b, a);
  }

  /** An operation is listed as present on one side only exactly when it is. */
  lemma {:induction false} OnlyInMembers(entries: seq<Entry>, other: seq<Entry>, op: OperationRef)
    ensures op in OnlyIn(entries, other)
            <==> exists e :: e in entries && Lookup(other, e.key).None? && op == OperationOf(e)
    decreases |entries|
  {
    if entries != [] {
      var front, last := entries[..|entries| - 1], entries[|entries| - 1];
      assert entries == front + [last];
      OnlyInMembers(front, other, op);
      if exists e :: e in entries && Lookup(other, e.key).None? && op == OperationOf(e) {
        var e :| e in entries && Lookup(other, e.key).None? && op == OperationOf(e);
        assert e in front || e == last;
      }
    }
  }

  /** The break reported for a command that both versions have is the classifier's verdict. */
  lemma {:induction false} BreakingMembers(before: seq<Entry>, after: seq<Entry>, change: Change)
    ensures change in Breaking(before, after) <==> exists e :: e in after && BreakingOf(e, before) == [change]
    decreases |after|
  {
    if after != [] {
      var front, last := after[..|after| - 1], after[|after| - 1];
      assert after == front + [last];
      BreakingMembers(before, front, change);
      if exists e :: e in after && BreakingOf(e, before) == [change] {
        var e :| e in after && BreakingOf(e, before) == [change];
        assert e in front || e == last;
      }
      if change in BreakingOf(last, before) {
        assert BreakingOf(last, before) == [change];
      }
    }
  }

  function Keys(entries: seq<Entry>): set<Key> {
    set e | e in entries :: e.key
  }

  lemma KeysSnoc(front: seq<Entry>, last: Entry)
    ensures Keys(front + [last]) == Keys(front) + {last.key}
    ensures Sorted(front + [last]) ==> last.key !in Keys(front) && Sorted(front)
  {
    var entries := front + [last];
    assert forall i :: 0 <= i < |front| ==> entries[i] == front[i];
    if Sorted(entries) {
      forall e | e in front ensures e.key != last.key {
        var i :| 0 <= i < |front| && front[i] == e;
        assert Before(entries[i].key, entries[|front|].key);
        BeforeTotal(e.key, e.key);
      }
    }
  }

  lemma AddKey<T>(keys: set<T>, key: T, others: set<T>)
    requires key !in keys
    ensures |keys + {key}| == |keys| + 1
    ensures |(keys + {key}) - others| == |keys - others| + if key in others then 0 else 1
  {
    if key in others {
      assert (keys + {key}) - others == keys - others;
    } else {
      assert (keys + {key}) - others == (keys - others) + {key};
    }
  }

  lemma LookupKeys(entries: seq<Entry>, key: Key)
    ensures Lookup(entries, key).None? <==> key !in Keys(entries)
  {
    LookupMembers(entries, key);
    if Lookup(entries, key).Some? {
      assert Entry(key, Lookup(entries, key).value) in entries;
    }
  }

  lemma {:induction false} OnlyInSize(entries: seq<Entry>, other: seq<Entry>)
    requires Sorted(entries)
    ensures |Keys(entries)| == |entries|
    ensures |OnlyIn(entries, other)| == |Keys(entries) - Keys(other)|
    decreases |entries|
  {
    if entries != [] {
      var front, last := entries[..|entries| - 1], entries[|entries| - 1];
      assert entries == front + [last];
      KeysSnoc(front, last);
      OnlyInSize(front, other);
      LookupKeys(other, last.key);
      AddKey(Keys(front), last.key, Keys(other));
      assert |OnlyIn(entries, other)| == |OnlyIn(front, other)| + if last.key in Keys(other) then 0 else 1;
    }
  }

  /** Commands are conserved: the old ones plus the added are the new ones plus the removed. */
  lemma CommandsBalance(before: seq<Entry>, after: seq<Entry>)
    requires Sorted(before) && Sorted(after)
    ensures |before| + |Report(before, after).added| == |after| + |Report(before, after).removed|
  {
    OnlyInSize(before, after);
    OnlyInSize(after, before);
  }

  // ---- compatible versions -----------------------------------------------------------------------------

  /** Nothing was removed and no break is reported. */
  predicate Compatible(before: seq<Entry>, after: seq<Entry>) {
    Report(before, after).removed == [] && Report(before, after).breaking == []
  }

  predicate AllTyped(entries: seq<Entry>) {
    forall e :: e in entries ==> e.command.input.Typed?
  }

  lemma {:induction false} LookupMembers(entries: seq<Entry>, key: Key)
    ensures match Lookup(entries, key)
            case None => forall e :: e in entries ==> e.key != key
            case Some(command) => Entry(key, command) in entries
    decreases |entries|
  {
    if entries != [] {
      LookupMembers(entries[1..], key);
      assert entries == [entries[0]] + entries[1..];
    }
  }

  lemma {:induction false} SortedLookup(entries: seq<Entry>, e: Entry)
    requires Sorted(entries) && e in entries
    ensures Lookup(entries, e.key) == Some(e.command)
    decreases |entries|
  {
    if entries[0] != e {
      SortedLookup(entries[1..], e);
      var i :| 0 <= i < |entries| && entries[i] == e;
      assert Before(entries[0].key, entries[i].key);
      BeforeTotal(e.key, e.key);
    }
  }

  /** Compatible means, key by key: every old command is still there, and its input, if typed
      before and after, breaks no caller. */
  lemma CompatibleIff(before: seq<Entry>, after: seq<Entry>)
    requires Sorted(before) && Sorted(after)
    ensures Compatible(before, after) <==>
            forall e :: e in before ==>
              Lookup(after, e.key).Some? &&
              InputBreakingChange(e.command.input, Lookup(after, e.key).value.input).None?
  {
    if Compatible(before, after) {
      forall e | e in before
        ensures Lookup(after, e.key).Some? &&
                InputBreakingChange(e.command.input, Lookup(after, e.key).value.input).None?
      {
        OldIsKept(before, after, e);
      }
    } else {
      NotCompatible(before, after);
    }
  }

  lemma BreakIsReported(before: seq<Entry>, after: seq<Entry>, now: Entry, was: Command)
    requires now in after && Lookup(before, now.key) == Some(was)
    requires InputBreakingChange(was.input, now.command.input).Some?
    ensures Breaking(before, after) != []
  {
    var change := Change(OperationOf(now), InputBreakingChange(was.input, now.command.input).value);
    assert BreakingOf(now, before) == [change];
    BreakingMembers(before, after, change);
  }

  lemma OldIsKept(before: seq<Entry>, after: seq<Entry>, e: Entry)
    requires Sorted(before) && Compatible(before, after) && e in before
    ensures Lookup(after, e.key).Some?
    ensures InputBreakingChange(e.command.input, Lookup(after, e.key).value.input).None?
  {
    OnlyInMembers(before, after, OperationOf(e));
    LookupMembers(after, e.key);
    SortedLookup(before, e);
    if InputBreakingChange(e.command.input, Lookup(after, e.key).value.input).Some? {
      BreakIsReported(before, after, Entry(e.key, Lookup(after, e.key).value), e.command);
    }
  }

  lemma NotCompatible(before: seq<Entry>, after: seq<Entry>)
    requires Sorted(before) && Sorted(after) && !Compatible(before, after)
    ensures exists e :: e in before &&
              (Lookup(after, e.key).None? ||
               InputBreakingChange(e.command.input, Lookup(after, e.key).value.input).Some?)
  {
    var removed, breaking := OnlyIn(before, after), Breaking(before, after);
    if removed != [] {
      OnlyInMembers(before, after, removed[0]);
    } else {
      BreakingMembers(before, after, breaking[0]);
      var now :| now in after && BreakingOf(now, before) == [breaking[0]];
      LookupMembers(before, now.key);
      SortedLookup(after, now);
      var was := Entry(now.key, Lookup(before, now.key).value);
      assert was in before && Lookup(after, was.key) == Some(now.command);
    }
  }

  /** Along a chain of typed versions, step by step compatible means compatible end to end. */
  lemma CompatibleTransitive(a: seq<Entry>, b: seq<Entry>, c: seq<Entry>)
    requires Sorted(a) && Sorted(b) && Sorted(c) && AllTyped(a) && AllTyped(b) && AllTyped(c)
    requires Compatible(a, b) && Compatible(b, c)
    ensures Compatible(a, c)
  {
    CompatibleIff(a, c);
    forall e | e in a
      ensures Lookup(c, e.key).Some? && InputBreakingChange(e.command.input, Lookup(c, e.key).value.input).None?
    {
      OldIsKept(a, b, e);
      LookupMembers(b, e.key);
      var middle := Entry(e.key, Lookup(b, e.key).value);
      OldIsKept(b, c, middle);
      LookupMembers(c, e.key);
      assert Entry(e.key, Lookup(c, e.key).value) in c;
      NotBreakingTransitive(e.command.input.slots, middle.command.input.slots,
                            Lookup(c, e.key).value.input.slots);
    }
  }
}
