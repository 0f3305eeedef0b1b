/** The migration ledger: what `lazuli migrate up` and `down` do to it, step by
    step, when any database call may fail.

    The ledger table is the ascending list of its versions. Any set of database
    calls may fail, so a contract that holds for every such set holds in every
    state a run can stop in. */
module Migrate {
  import opened Wrappers
  import opened Order
  import opened Text

  datatype MigrationFile = MigrationFile(version: string, up: Option<string>, down: Option<string>)

  // ---- discovering files -----------------------------------------------------------

  /** A directory entry that is a regular file. */
  datatype Entry = Entry(name: string, path: string)

  datatype Direction = Up | Down

  const UP_SUFFIX := ".up.sql"
  const DOWN_SUFFIX := ".down.sql"

  function SplitFileName(name: string): Option<(string, Direction)> {
    if EndsWith(name, UP_SUFFIX) then Some((name[..|name| - |UP_SUFFIX|], Up))
    else if EndsWith(name, DOWN_SUFFIX) then Some((name[..|name| - |DOWN_SUFFIX|], Down))
    else None
  }

  predicate FilesAscending(files: seq<MigrationFile>) {
    forall i, j :: 0 <= i < j < |files| ==> Less(files[i].version, files[j].version)
  }

  function WithScript(file: MigrationFile, direction: Direction, path: string): MigrationFile {
    match direction
    case Up => file.(up := Some(path))
    case Down => file.(down := Some(path))
  }

  /** Recording one script in the version-ordered map. */
  function Collect(files: seq<MigrationFile>, version: string, direction: Direction, path: string): seq<MigrationFile> {
    if files == [] || Less(version, files[0].version) then
      [WithScript(MigrationFile(version, None, None), direction, path)] + files
    else if files[0].version == version then [WithScript(files[0], direction, path)] + files[1..]
    else [files[0]] + Collect(files[1..], version, direction, path)
  }

  function CollectEntry(files: seq<MigrationFile>, e: Entry): seq<MigrationFile> {
    match SplitFileName(e.name)
    case None => files
    case Some((version, direction)) => Collect(files, version, direction, e.path)
  }

  function CollectAll(entries: seq<Entry>): seq<MigrationFile> {
    if entries == [] then []
    else CollectEntry(CollectAll(entries[..|entries| - 1]), entries[|entries| - 1])
  }

  method CollectMigrationDir(files: seq<MigrationFile>, entries: seq<Entry>, ghost before: seq<Entry>)
    returns (out: seq<MigrationFile>)
    requires files == CollectAll(before)
    ensures out == CollectAll(before + entries)
  {
    out := files;
    assert before + entries[..0] == before;
    for i := 0 to |entries|
      invariant out == CollectAll(before + entries[..i])
    {
      assert (before + entries[..i + 1])[..|before| + i] == before + entries[..i];
      out := CollectEntry(out, entries[i]);
    }
    assert entries[..|entries|] == entries;
  }

  /** Generated scripts first, so a manual script of the same name replaces one. */
  method DiscoverMigrations(generated: seq<Entry>, manual: seq<Entry>) returns (files: seq<MigrationFile>)
    ensures files == CollectAll(generated + manual)
  {
    files := CollectMigrationDir([], generated, []);
    assert [] + generated == generated;
    files := CollectMigrationDir(files, manual, generated);
  }

  function FindFile(files: seq<MigrationFile>, version: string): Option<MigrationFile> {
    if files == [] then None
    else if files[0].version == version then Some(files[0])
    else FindFile(files[1..], version)
  }

  lemma {:induction false} CollectOrdered(files: seq<MigrationFile>, version: string, direction: Direction,
                                          path: string)
    requires FilesAscending(files)
    ensures FilesAscending(Collect(files, version, direction, path))
    ensures forall f :: f in Collect(files, version, direction, path) ==>
              f.version == version || exists g :: g in files && g.version == f.version
    decreases |files|
  {
    if files == [] {
    } else if Less(version, files[0].version) {
      forall j | 0 <= j < |files|
        ensures Less(version, files[j].version)
      {
        if j > 0 { LessTransitive(version, files[0].version, files[j].version); }
      }
    } else if files[0].version != version {
      LessTotal(version, files[0].version);
      CollectOrdered(files[1..], version, direction, path);
      var rest := Collect(files[1..], version, direction, path);
      forall j | 0 <= j < |rest|
        ensures Less(files[0].version, rest[j].version)
      {
        assert rest[j] in rest;
      }
    }
  }

  lemma {:induction false} CollectLookup(files: seq<MigrationFile>, version: string, direction: Direction,
                                         path: string, v: string)
    requires FilesAscending(files)
    ensures FindFile(Collect(files, version, direction, path), v) ==
              if v != version then FindFile(files, v)
              else match FindFile(files, v)
                   case None => Some(WithScript(MigrationFile(v, None, None), direction, path))
                   case Some(f) => Some(WithScript(f, direction, path))
    decreases |files|
  {
    if files == [] {
    } else if Less(version, files[0].version) {
      LessIrreflexive(version);
      forall j | 0 <= j < |files|
        ensures Less(version, files[j].version)
      {
        if j > 0 { LessTransitive(version, files[0].version, files[j].version); }
      }
      NotListed(files, version);
    } else if files[0].version != version {
      CollectLookup(files[1..], version, direction, path, v);
    }
  }

  lemma {:induction false} NotListed(files: seq<MigrationFile>, version: string)
    requires forall j :: 0 <= j < |files| ==> Less(version, files[j].version)
    ensures FindFile(files, version) == None
    decreases |files|
  {
    if files != [] {
      LessIrreflexive(version);
      NotListed(files[1..], version);
    }
  }

  /** The last script listed for a version and direction, if any. */
  function LastScript(entries: seq<Entry>, version: string, direction: Direction): Option<string> {
    if entries == [] then None
    else
      var last := entries[|entries| - 1];
      if SplitFileName(last.name) == Some((version, direction)) then Some(last.path)
      else LastScript(entries[..|entries| - 1], version, direction)
  }

  /** Discovery yields each version once, in order, with its last listed scripts. */
  lemma {:induction false} DiscoveryIsLastListed(entries: seq<Entry>, v: string)
    ensures FilesAscending(CollectAll(entries))
    ensures var up, down := LastScript(entries, v, Up), LastScript(entries, v, Down);
            FindFile(CollectAll(entries), v) ==
              if up.None? && down.None? then None else Some(MigrationFile(v, up, down))
  {
    if entries != [] {
      var front, last := entries[..|entries| - 1], entries[|entries| - 1];
      DiscoveryIsLastListed(front, v);
      match SplitFileName(last.name) {
        case None =>
        case Some((version, direction)) =>
          CollectOrdered(CollectAll(front), version, direction, last.path);
          CollectLookup(CollectAll(front), version, direction, last.path, v);
      }
    }
  }

  datatype MigrateAction = ApplyUp(target: Option<string>) | RollDown(steps: nat)

  // ---- the database ------------------------------------------------------------------

  class Database {
    /** Versions in the ledger table, ascending. */
    var ledger: seq<string>
    /** Scripts that ran to completion, in order. */
    var scripts: seq<string>
    /** Database calls made so far, and the numbers of those that fail. */
    var calls: nat
    const failing: set<nat>

    constructor (ledger: seq<string>, failing: set<nat>)
      ensures this.ledger == ledger && this.scripts == [] && this.calls == 0 && this.failing == failing
    {
      this.ledger, this.scripts, this.calls, this.failing := ledger, [], 0, failing;
    }

    /** Creating the ledger table unless it exists. */
    method EnsureTable() returns (ok: bool)
      modifies `calls
      ensures calls == old(calls) + 1 && ok == (old(calls) !in failing)
    {
      ok := calls !in failing;
      calls := calls + 1;
    }

    method AppliedVersions() returns (rows: Option<seq<string>>)
      modifies `calls
      ensures calls == old(calls) + 1
      ensures rows == if old(calls) !in failing then Some(ledger) else None
    {
      rows := if calls !in failing then Some(ledger) else None;
      calls := calls + 1;
    }

    method AppliedVersionsDesc(steps: nat) returns (rows: Option<seq<string>>)
      modifies `calls
      ensures calls == old(calls) + 1
      ensures rows == if old(calls) !in failing then Some(NewestFirst(ledger, steps)) else None
    {
      rows := if calls !in failing then Some(NewestFirst(ledger, steps)) else None;
      calls := calls + 1;
    }

    method RunFile(path: string) returns (ok: bool)
      modifies this
      ensures ledger == old(ledger)
      ensures scripts == if ok then old(scripts) + [path] else old(scripts)
      ensures calls == old(calls) + 1 && ok == (old(calls) !in failing)
    {
      ok := calls !in failing;
      calls := calls + 1;
      if ok {
        scripts := scripts + [path];
      }
    }

    method InsertApplied(version: string) returns (ok: bool)
      modifies this
      ensures scripts == old(scripts)
      ensures ledger == if ok then Insert(old(ledger), version) else old(ledger)
      ensures calls == old(calls) + 1 && ok == (old(calls) !in failing)
    {
      ok := calls !in failing;
      calls := calls + 1;
      if ok {
        ledger := Insert(ledger, version);
      }
    }

    method DeleteApplied(version: string) returns (ok: bool)
      modifies this
      ensures scripts == old(scripts)
      ensures ledger == if ok then Remove(old(ledger), version) else old(ledger)
      ensures calls == old(calls) + 1 && ok == (old(calls) !in failing)
    {
      ok := calls !in failing;
      calls := calls + 1;
      if ok {
        ledger := Remove(ledger, version);
      }
    }
  }

  /** Every call from the one numbered `from` on succeeded. */
  ghost predicate AllSucceeded(db: Database, from: nat)
    reads db
  {
    forall n :: from <= n < db.calls ==> n !in db.failing
  }

  /** No call was made after one that failed. */
  ghost predicate StoppedAtFailure(db: Database, from: nat)
    reads db
  {
    from <= db.calls && forall n :: from <= n < db.calls - 1 ==> n !in db.failing
  }

  /** The newest `steps` versions of the ledger, newest first. */
  function NewestFirst(ledger: seq<string>, steps: nat): seq<string> {
    var n := if steps < |ledger| then steps else |ledger|;
    seq(n, i requires 0 <= i < n => ledger[|ledger| - 1 - i])
  }

  function Remove(ledger: seq<string>, version: string): seq<string> {
    if ledger == [] then []
    else if ledger[0] == version then ledger[1..]
    else [ledger[0]] + Remove(ledger[1..], version)
  }

  // ---- up ----------------------------------------------------------------------------

  predicate IsPending(file: MigrationFile, ledger: seq<string>, target: Option<string>) {
    && file.version !in ledger
    && (target.Some? ==> !Less(target.value, file.version))
    && file.up.Some?
  }

  function Pending(files: seq<MigrationFile>, ledger: seq<string>, target: Option<string>): seq<MigrationFile> {
    if files == [] then []
    else
      var rest := Pending(files[1..], ledger, target);
      if IsPending(files[0], ledger, target) then [files[0]] + rest else rest
  }

  function Versions(files: seq<MigrationFile>): seq<string> {
    seq(|files|, i requires 0 <= i < |files| => files[i].version)
  }

  function UpScript(file: MigrationFile): string {
    if file.up.Some? then file.up.value else ""
  }

  function UpScripts(files: seq<MigrationFile>): seq<string> {
    seq(|files|, i requires 0 <= i < |files| => UpScript(files[i]))
  }

  /** The ledger after recording versions one by one. */
  function RecordAll(ledger: seq<string>, versions: seq<string>): seq<string> {
    if versions == [] then ledger
    else Insert(RecordAll(ledger, versions[..|versions| - 1]), versions[|versions| - 1])
  }

  /** `recorded` of the pending files are in the ledger and `executed` of their scripts ran. */
  ghost predicate UpStopsAt(ledger: seq<string>, scripts: seq<string>, pending: seq<MigrationFile>,
                            ledger': seq<string>, scripts': seq<string>, recorded: nat, executed: nat) {
    && recorded <= executed <= recorded + 1 && executed <= |pending|
    && ledger' == RecordAll(ledger, Versions(pending[..recorded]))
    && scripts' == scripts + UpScripts(pending[..executed])
  }

  lemma {:induction false} PendingMembers(files: seq<MigrationFile>, ledger: seq<string>, target: Option<string>)
    requires FilesAscending(files)
    ensures var p := Pending(files, ledger, target);
            FilesAscending(p) && forall f :: f in p <==> f in files && IsPending(f, ledger, target)
    decreases |files|
  {
    if files != [] {
      var rest := Pending(files[1..], ledger, target);
      PendingMembers(files[1..], ledger, target);
      assert files == [files[0]] + files[1..];
      forall j | 0 <= j < |rest|
        ensures Less(files[0].version, rest[j].version)
      {
        assert rest[j] in rest;
        var k :| 0 <= k < |files[1..]| && files[1..][k] == rest[j];
        assert files[k + 1] == rest[j];
      }
    }
  }

  /** From one completed file to the next: the script first, then its record. */
  lemma NextFile(ledger: seq<string>, scripts: seq<string>, pending: seq<MigrationFile>,
                 ledger': seq<string>, scripts': seq<string>, i: nat)
    requires i < |pending| && UpStopsAt(ledger, scripts, pending, ledger', scripts', i, i)
    ensures var ran := scripts' + [UpScript(pending[i])];
            && UpStopsAt(ledger, scripts, pending, ledger', ran, i, i + 1)
            && UpStopsAt(ledger, scripts, pending, Insert(ledger', pending[i].version), ran, i + 1, i + 1)
  {
    assert Versions(pending[..i + 1])[..i] == Versions(pending[..i]);
    assert UpScripts(pending[..i + 1]) == UpScripts(pending[..i]) + [UpScript(pending[i])];
  }

  lemma NothingDone(files: seq<MigrationFile>, ledger: seq<string>, scripts: seq<string>, action: MigrateAction)
    ensures action.ApplyUp? ==>
      UpStopsAt(ledger, scripts, Pending(files, ledger, action.target), ledger, scripts, 0, 0)
    ensures action.RollDown? ==>
      DownStopsAt(files, ledger, scripts, NewestFirst(ledger, action.steps), ledger, scripts, 0, 0)
  {
    assert scripts + [] == scripts;
    assert ledger[..|ledger|] == ledger;
  }

  lemma PendingHaveUp(files: seq<MigrationFile>, ledger: seq<string>, target: Option<string>)
    requires FilesAscending(files)
    ensures forall i :: 0 <= i < |Pending(files, ledger, target)| ==> Pending(files, ledger, target)[i].up.Some?
  {
    var pending := Pending(files, ledger, target);
    PendingMembers(files, ledger, target);
    assert forall i :: 0 <= i < |pending| ==> pending[i] in pending;
  }

  /** One file: its script runs first and is recorded when it succeeded. */
  method ApplyFile(db: Database, version: string, path: string) returns (ran: bool, noted: bool)
    modifies db
    ensures noted ==> ran
    ensures db.scripts == if ran then old(db.scripts) + [path] else old(db.scripts)
    ensures db.ledger == if noted then Insert(old(db.ledger), version) else old(db.ledger)
    ensures noted <==> AllSucceeded(db, old(db.calls))
    ensures StoppedAtFailure(db, old(db.calls))
  {
    noted := false;
    ran := db.RunFile(path);
    if ran {
      noted := db.InsertApplied(version);
    }
  }

  method ApplyPending(db: Database, pending: seq<MigrationFile>)
    returns (ok: bool, ghost recorded: nat, ghost executed: nat)
    requires forall i :: 0 <= i < |pending| ==> pending[i].up.Some?
    modifies db
    ensures UpStopsAt(old(db.ledger), old(db.scripts), pending, db.ledger, db.scripts, recorded, executed)
    ensures ok ==> recorded == |pending|
    ensures ok <==> AllSucceeded(db, old(db.calls))
    ensures StoppedAtFailure(db, old(db.calls))
  {
    ghost var ledger, scripts, calls := db.ledger, db.scripts, db.calls;
    assert pending[..0] == [] && scripts + UpScripts([]) == scripts;
    recorded, executed := 0, 0;
    for i := 0 to |pending|
      invariant recorded == executed == i
      invariant calls <= db.calls && AllSucceeded(db, calls)
      invariant UpStopsAt(ledger, scripts, pending, db.ledger, db.scripts, i, i)
    {
      NextFile(ledger, scripts, pending, db.ledger, db.scripts, i);
      var ran, noted := ApplyFile(db, pending[i].version, pending[i].up.value);
      if !noted {
        return false, i, if ran then i + 1 else i;
      }
      recorded, executed := i + 1, i + 1;
    }
    ok := true;
  }

  /** Applying the pending files in order; the run stops at the first failed call. */
  method MigrateUp(db: Database, files: seq<MigrationFile>, target: Option<string>, confirmed: bool)
    returns (ok: bool, ghost recorded: nat, ghost executed: nat)
    requires FilesAscending(files)
    modifies db
    ensures UpStopsAt(old(db.ledger), old(db.scripts), Pending(files, old(db.ledger), target),
                      db.ledger, db.scripts, recorded, executed)
    ensures ok ==> recorded == |Pending(files, old(db.ledger), target)|
    ensures ok <==> AllSucceeded(db, old(db.calls)) && (confirmed || Pending(files, old(db.ledger), target) == [])
    ensures StoppedAtFailure(db, old(db.calls))
    ensures !confirmed ==> executed == 0
    ensures Ascending(old(db.ledger)) ==> Ascending(db.ledger)
  {
    NothingDone(files, db.ledger, db.scripts, ApplyUp(target));
    var applied := db.AppliedVersions();
    if applied.None? {
      return false, 0, 0;
    }
    var pending := SelectPending(files, applied.value, target);
    if pending == [] {
      return true, 0, 0;
    }
    if !confirmed {
      return false, 0, 0;
    }
    PendingHaveUp(files, applied.value, target);
    ghost var ledger := db.ledger;
    ok, recorded, executed := ApplyPending(db, pending);
    if Ascending(ledger) {
      RecordAllAscending(ledger, Versions(pending[..recorded]));
    }
  }

  method SelectPending(files: seq<MigrationFile>, applied: seq<string>, target: Option<string>)
    returns (pending: seq<MigrationFile>)
    ensures pending == Pending(files, applied, target)
  {
    pending := [];
    for i := |files| downto 0
      invariant pending == Pending(files[i..], applied, target)
    {
      assert files[i..][1..] == files[i + 1..];
      if IsPending(files[i], applied, target) {
        pending := [files[i]] + pending;
      }
    }
  }

  lemma {:induction false} RecordAllMembers(ledger: seq<string>, versions: seq<string>)
    ensures forall v :: v in RecordAll(ledger, versions) <==> v in ledger || v in versions
    decreases |versions|
  {
    if versions != [] {
      var front := versions[..|versions| - 1];
      RecordAllMembers(ledger, front);
      InsertMembers(RecordAll(ledger, front), versions[|versions| - 1]);
      assert versions == front + [versions[|versions| - 1]];
    }
  }

  lemma {:induction false} RecordAllAscending(ledger: seq<string>, versions: seq<string>)
    requires Ascending(ledger)
    ensures Ascending(RecordAll(ledger, versions))
    decreases |versions|
  {
    if versions != [] {
      var front := versions[..|versions| - 1];
      RecordAllAscending(ledger, front);
      InsertAscending(RecordAll(ledger, front), versions[|versions| - 1]);
    }
  }

  lemma HeadIsSmallest(files: seq<MigrationFile>)
    requires FilesAscending(files) && files != []
    ensures files[0] !in files[1..]
  {
    LessIrreflexive(files[0].version);
    assert forall k :: 0 <= k < |files[1..]| ==> files[1..][k] == files[k + 1];
  }

  lemma {:induction false} PendingWithout(files: seq<MigrationFile>, ledger: seq<string>, ledger': seq<string>,
                                          target: Option<string>, done: seq<MigrationFile>, rest: seq<MigrationFile>)
    requires FilesAscending(files) && Pending(files, ledger, target) == done + rest
    requires forall f :: f in files ==> (f.version in ledger' <==> f.version in ledger || f in done)
    ensures Pending(files, ledger', target) == rest
    decreases |files|
  {
    if files != [] {
      var tail := files[1..];
      assert files == [files[0]] + tail;
      assert forall f :: f in tail ==> f in files;
      PendingMembers(tail, ledger, target);
      HeadIsSmallest(files);
      assert forall f :: f in done ==> f in done + rest;
      if !IsPending(files[0], ledger, target) {
        PendingWithout(tail, ledger, ledger', target, done, rest);
      } else if done == [] {
        assert done + rest == rest;
        assert rest[0] == files[0] && Pending(tail, ledger, target) == rest[1..];
        assert [] + rest[1..] == rest[1..];
        PendingWithout(tail, ledger, ledger', target, [], rest[1..]);
      } else {
        assert (done + rest)[0] == done[0] && (done + rest)[1..] == done[1..] + rest;
        assert done == [files[0]] + done[1..];
        PendingWithout(tail, ledger, ledger', target, done[1..], rest);
      }
    }
  }

  /** A file's version is recorded after a run exactly when it was before, or the run did it. */
  lemma RecordedIff(files: seq<MigrationFile>, ledger: seq<string>, done: seq<MigrationFile>, f: MigrationFile)
    requires FilesAscending(files) && f in files && forall g :: g in done ==> g in files
    ensures f.version in RecordAll(ledger, Versions(done)) <==> f.version in ledger || f in done
  {
    RecordAllMembers(ledger, Versions(done));
    if f.version in Versions(done) {
      var k :| 0 <= k < |done| && done[k].version == f.version;
      SameVersionSameFile(files, f, done[k]);
    }
    if f in done {
      var k :| 0 <= k < |done| && done[k] == f;
      assert Versions(done)[k] == f.version;
    }
  }

  /** Wherever an up run stopped, what is pending next is what it had not recorded:
      a rerun resumes, and after a completed run nothing is left. */
  lemma UpResumes(files: seq<MigrationFile>, ledger: seq<string>, target: Option<string>, recorded: nat)
    requires FilesAscending(files) && recorded <= |Pending(files, ledger, target)|
    ensures var p := Pending(files, ledger, target);
            Pending(files, RecordAll(ledger, Versions(p[..recorded])), target) == p[recorded..]
  {
    var p := Pending(files, ledger, target);
    var done, rest := p[..recorded], p[recorded..];
    PendingMembers(files, ledger, target);
    assert p == done + rest;
    assert forall g :: g in done ==> g in p;
    forall f | f in files
      ensures f.version in RecordAll(ledger, Versions(done)) <==> f.version in ledger || f in done
    {
      RecordedIff(files, ledger, done, f);
    }
    PendingWithout(files, ledger, RecordAll(ledger, Versions(done)), target, done, rest);
  }

  lemma SameVersionSameFile(files: seq<MigrationFile>, f: MigrationFile, g: MigrationFile)
    requires FilesAscending(files) && f in files && g in files && f.version == g.version
    ensures f == g
  {
    var i :| 0 <= i < |files| && files[i] == f;
    var j :| 0 <= j < |files| && files[j] == g;
    LessIrreflexive(f.version);
  }

  // ---- down --------------------------------------------------------------------------

  predicate HasDown(files: seq<MigrationFile>, version: string) {
    FindFile(files, version).Some? && FindFile(files, version).value.down.Some?
  }

  predicate AllHaveDown(files: seq<MigrationFile>, versions: seq<string>) {
    forall i :: 0 <= i < |versions| ==> HasDown(files, versions[i])
  }

  function DownScript(files: seq<MigrationFile>, version: string): string {
    if HasDown(files, version) then FindFile(files, version).value.down.value else ""
  }

  function DownScripts(files: seq<MigrationFile>, versions: seq<string>): seq<string> {
    seq(|versions|, i requires 0 <= i < |versions| => DownScript(files, versions[i]))
  }

  lemma {:induction false} RemoveLast(ledger: seq<string>, v: string)
    requires v !in ledger
    ensures Remove(ledger + [v], v) == ledger
    decreases |ledger|
  {
    if ledger == [] {
      assert ledger + [v] == [v];
    } else {
      assert (ledger + [v])[1..] == ledger[1..] + [v];
      RemoveLast(ledger[1..], v);
    }
  }

  /** `erased` of the newest versions are gone and `executed` of their down scripts ran. */
  ghost predicate DownStopsAt(files: seq<MigrationFile>, ledger: seq<string>, scripts: seq<string>, newest: seq<string>,
                              ledger': seq<string>, scripts': seq<string>, erased: nat, executed: nat) {
    && erased <= executed <= erased + 1 && executed <= |newest| <= |ledger|
    && ledger' == ledger[..|ledger| - erased]
    && scripts' == scripts + DownScripts(files, newest[..executed])
  }

  /** From one rolled back version to the next: the script first, then the record. */
  lemma NextRollback(files: seq<MigrationFile>, ledger: seq<string>, scripts: seq<string>, newest: seq<string>,
                     ledger': seq<string>, scripts': seq<string>, i: nat)
    requires Ascending(ledger) && i < |newest| && DownStopsAt(files, ledger, scripts, newest, ledger', scripts', i, i)
    requires newest[i] == ledger[|ledger| - 1 - i]
    ensures var ran := scripts' + [DownScript(files, newest[i])];
            && DownStopsAt(files, ledger, scripts, newest, ledger', ran, i, i + 1)
            && DownStopsAt(files, ledger, scripts, newest, Remove(ledger', newest[i]), ran, i + 1, i + 1)
  {
    NewestIsLast(ledger, i);
    assert DownScripts(files, newest[..i + 1]) == DownScripts(files, newest[..i]) + [DownScript(files, newest[i])];
  }

  lemma NewestIsLast(ledger: seq<string>, i: nat)
    requires Ascending(ledger) && i < |ledger|
    ensures Remove(ledger[..|ledger| - i], ledger[|ledger| - 1 - i]) == ledger[..|ledger| - (i + 1)]
  {
    var n := |ledger| - 1 - i;
    AscendingIsDistinct(ledger);
    assert ledger[..|ledger| - i] == ledger[..n] + [ledger[n]];
    RemoveLast(ledger[..n], ledger[n]);
  }

  /** Rolling back the newest versions, newest first. Nothing is touched unless every
      one of them has a down script. */
  method MigrateDown(db: Database, files: seq<MigrationFile>, steps: nat, confirmed: bool)
    returns (ok: bool, ghost erased: nat, ghost executed: nat)
    requires Ascending(db.ledger)
    modifies db
    ensures DownStopsAt(files, old(db.ledger), old(db.scripts), NewestFirst(old(db.ledger), steps),
                        db.ledger, db.scripts, erased, executed)
    ensures var newest := NewestFirst(old(db.ledger), steps);
            && (ok ==> erased == |newest|)
            && (ok <==> AllSucceeded(db, old(db.calls)) && (newest == [] || (confirmed && AllHaveDown(files, newest))))
            && (!confirmed || !AllHaveDown(files, newest) ==> executed == 0)
    ensures StoppedAtFailure(db, old(db.calls))
  {
    NothingDone(files, db.ledger, db.scripts, RollDown(steps));
    if steps == 0 {
      return true, 0, 0;
    }
    var applied := db.AppliedVersionsDesc(steps);
    if applied.None? {
      return false, 0, 0;
    }
    var newest := applied.value;
    if newest == [] {
      return true, 0, 0;
    }
    for i := 0 to |newest|
      invariant forall k :: 0 <= k < i ==> HasDown(files, newest[k])
    {
      if !HasDown(files, newest[i]) {
        return false, 0, 0;
      }
    }
    if !confirmed {
      return false, 0, 0;
    }
    ok, erased, executed := RollBack(db, files, newest);
  }

  /** One version: its down script runs first and its record goes when it succeeded. */
  method RollBackVersion(db: Database, version: string, path: string) returns (ran: bool, gone: bool)
    modifies db
    ensures gone ==> ran
    ensures db.scripts == if ran then old(db.scripts) + [path] else old(db.scripts)
    ensures db.ledger == if gone then Remove(old(db.ledger), version) else old(db.ledger)
    ensures gone <==> AllSucceeded(db, old(db.calls))
    ensures StoppedAtFailure(db, old(db.calls))
  {
    gone := false;
    ran := db.RunFile(path);
    if ran {
      gone := db.DeleteApplied(version);
    }
  }

  method RollBack(db: Database, files: seq<MigrationFile>, newest: seq<string>)
    returns (ok: bool, ghost erased: nat, ghost executed: nat)
    requires Ascending(db.ledger) && |newest| <= |db.ledger|
    requires forall i :: 0 <= i < |newest| ==> newest[i] == db.ledger[|db.ledger| - 1 - i]
    requires AllHaveDown(files, newest)
    modifies db
    ensures DownStopsAt(files, old(db.ledger), old(db.scripts), newest, db.ledger, db.scripts, erased, executed)
    ensures ok ==> erased == |newest|
    ensures ok <==> AllSucceeded(db, old(db.calls))
    ensures StoppedAtFailure(db, old(db.calls))
  {
    ghost var ledger, scripts, calls := db.ledger, db.scripts, db.calls;
    assert scripts + DownScripts(files, newest[..0]) == scripts;
    erased, executed := 0, 0;
    for i := 0 to |newest|
      invariant erased == executed == i
      invariant calls <= db.calls && AllSucceeded(db, calls)
      invariant DownStopsAt(files, ledger, scripts, newest, db.ledger, db.scripts, i, i)
    {
      NextRollback(files, ledger, scripts, newest, db.ledger, db.scripts, i);
      var ran, gone := RollBackVersion(db, newest[i], DownScript(files, newest[i]));
      if !gone {
        return false, i, if ran then i + 1 else i;
      }
      erased, executed := i + 1, i + 1;
    }
    ok := true;
  }

  // ---- down undoes up ------------------------------------------------------------------

  lemma {:induction false} RecordNewer(ledger: seq<string>, versions: seq<string>)
    requires Ascending(ledger + versions)
    ensures RecordAll(ledger, versions) == ledger + versions
    decreases |versions|
  {
    if versions == [] {
      assert ledger + versions == ledger;
    } else {
      var front, last := versions[..|versions| - 1], versions[|versions| - 1];
      assert ledger + versions == (ledger + front) + [last];
      assert forall i :: 0 <= i < |ledger + front| ==> (ledger + front)[i] == (ledger + versions)[i];
      RecordNewer(ledger, front);
      InsertNewest(ledger + front, last);
    }
  }

  lemma NewestIsLarger(s: seq<string>, x: string)
    requires s != [] && Ascending(s + [x])
    ensures Ascending(s[1..] + [x]) && x != s[0] && !Less(x, s[0])
  {
    var all, rest := s + [x], s[1..] + [x];
    assert all[0] == s[0] && all[|s|] == x;
    LessIrreflexive(x);
    if Less(x, s[0]) {
      LessTransitive(x, s[0], x);
    }
    assert forall i :: 0 <= i < |rest| ==> rest[i] == all[i + 1];
  }

  lemma {:induction false} InsertNewest(s: seq<string>, x: string)
    requires Ascending(s + [x])
    ensures Insert(s, x) == s + [x]
    decreases |s|
  {
    if s == [] {
      assert s + [x] == [x];
    } else {
      NewestIsLarger(s, x);
      InsertNewest(s[1..], x);
      assert [s[0]] + (s[1..] + [x]) == s + [x];
    }
  }

  lemma NewerStaysAscending(ledger: seq<string>, versions: seq<string>)
    requires Ascending(ledger) && Ascending(versions)
    requires ledger != [] && versions != [] ==> Less(ledger[|ledger| - 1], versions[0])
    ensures Ascending(ledger + versions)
  {
    forall i, j | 0 <= i < |ledger| && 0 <= j < |versions|
      ensures Less(ledger[i], versions[j])
    {
      var last, first := ledger[|ledger| - 1], versions[0];
      if i < |ledger| - 1 {
        LessTransitive(ledger[i], last, first);
      }
      if j > 0 {
        LessTransitive(ledger[i], first, versions[j]);
      }
    }
  }

  lemma NewerUpAppends(ledger: seq<string>, pending: seq<MigrationFile>)
    requires Ascending(ledger) && FilesAscending(pending)
    requires ledger != [] && pending != [] ==> Less(ledger[|ledger| - 1], pending[0].version)
    ensures RecordAll(ledger, Versions(pending)) == ledger + Versions(pending)
    ensures Ascending(ledger + Versions(pending))
  {
    NewerStaysAscending(ledger, Versions(pending));
    RecordNewer(ledger, Versions(pending));
  }

  /** What rolling back `vs` from the end of `after` comes to. */
  predicate UndoneBy(ledger: seq<string>, vs: seq<string>, after: seq<string>) {
    var newest := NewestFirst(after, |vs|);
    && |newest| == |vs| && |after| == |ledger| + |vs|
    && after[..|after| - |newest|] == ledger
    && forall i :: 0 <= i < |newest| ==> newest[i] == vs[|vs| - 1 - i]
  }

  lemma NewestOfConcat(ledger: seq<string>, vs: seq<string>)
    ensures UndoneBy(ledger, vs, ledger + vs)
  {
  }

  /** Rolling back as many steps as were applied on top of the ledger gives the ledger
      back, and visits the versions in the opposite order. */
  lemma DownUndoesUp(ledger: seq<string>, pending: seq<MigrationFile>)
    requires Ascending(ledger) && FilesAscending(pending)
    requires ledger != [] && pending != [] ==> Less(ledger[|ledger| - 1], pending[0].version)
    ensures Ascending(RecordAll(ledger, Versions(pending)))
    ensures UndoneBy(ledger, Versions(pending), RecordAll(ledger, Versions(pending)))
  {
    NewerUpAppends(ledger, pending);
    NewestOfConcat(ledger, Versions(pending));
  }

  /** When all pending files were applied, rolling back as many steps gives the ledger back
      exactly if each of them is newer than the whole ledger. */
  lemma DownUndoesUpIff(ledger: seq<string>, pending: seq<MigrationFile>)
    requires Ascending(ledger) && FilesAscending(pending)
    requires forall f :: f in pending ==> f.version !in ledger
    ensures UndoneBy(ledger, Versions(pending), RecordAll(ledger, Versions(pending))) <==>
              (ledger != [] && pending != [] ==> Less(ledger[|ledger| - 1], pending[0].version))
  {
    var after := RecordAll(ledger, Versions(pending));
    if UndoneBy(ledger, Versions(pending), after) && ledger != [] && pending != [] {
      RecordAllAscending(ledger, Versions(pending));
      RecordAllMembers(ledger, Versions(pending));
      assert pending[0] in pending && Versions(pending)[0] in after;
      var k :| 0 <= k < |after| && after[k] == pending[0].version;
      assert forall i :: 0 <= i < |ledger| ==> after[i] == ledger[i];
    } else if ledger != [] && pending != [] ==> Less(ledger[|ledger| - 1], pending[0].version) {
      DownUndoesUp(ledger, pending);
    }
  }

  // ---- whole runs ------------------------------------------------------------------------

  /** One run of the command: the ledger table is created first, whatever the action. */
  method RunMigrate(db: Database, files: seq<MigrationFile>, action: MigrateAction, checkOnly: bool, confirmed: bool)
    returns (ok: bool, ghost changed: nat, ghost executed: nat)
    requires FilesAscending(files) && Ascending(db.ledger)
    modifies db
    ensures Ascending(db.ledger)
    ensures checkOnly ==> !ok && unchanged(db)
    ensures !checkOnly && action.ApplyUp? ==>
      var pending := Pending(files, old(db.ledger), action.target);
      && UpStopsAt(old(db.ledger), old(db.scripts), pending, db.ledger, db.scripts, changed, executed)
      && (ok ==> changed == |pending|)
      && (ok <==> AllSucceeded(db, old(db.calls)) && (confirmed || pending == []))
    ensures !checkOnly && action.RollDown? ==>
      var newest := NewestFirst(old(db.ledger), action.steps);
      && DownStopsAt(files, old(db.ledger), old(db.scripts), newest, db.ledger, db.scripts, changed, executed)
      && (ok ==> changed == |newest|)
      && (ok <==> AllSucceeded(db, old(db.calls)) && (newest == [] || (confirmed && AllHaveDown(files, newest))))
    ensures old(db.calls) < db.calls || checkOnly
    ensures StoppedAtFailure(db, old(db.calls))
  {
    if checkOnly {
      return false, 0, 0;
    }
    ghost var ledger, scripts := db.ledger, db.scripts;
    var made := db.EnsureTable();
    if !made {
      NothingDone(files, ledger, scripts, action);
      return false, 0, 0;
    }
    match action {
      case ApplyUp(target) => ok, changed, executed := MigrateUp(db, files, target, confirmed);
      case RollDown(steps) => ok, changed, executed := MigrateDown(db, files, steps, confirmed);
    }
  }

  function DownScriptsBackwards(pending: seq<MigrationFile>): seq<string> {
    seq(|pending|, i requires 0 <= i < |pending| =>
      var down := pending[|pending| - 1 - i].down;
      if down.Some? then down.value else "")
  }

  lemma {:induction false} FindListed(files: seq<MigrationFile>, f: MigrationFile)
    requires FilesAscending(files) && f in files
    ensures FindFile(files, f.version) == Some(f)
    decreases |files|
  {
    SameVersionSameFile(files, files[0], files[0]);
    if files[0].version == f.version {
      SameVersionSameFile(files, files[0], f);
    } else {
      assert files == [files[0]] + files[1..];
      FindListed(files[1..], f);
    }
  }

  /** The down scripts of the newest versions are those of the applied files, last applied first. */
  lemma UndoneScripts(files: seq<MigrationFile>, pending: seq<MigrationFile>, newest: seq<string>)
    requires FilesAscending(files) && |newest| == |pending|
    requires forall f :: f in pending ==> f in files
    requires forall i :: 0 <= i < |pending| ==> newest[i] == pending[|pending| - 1 - i].version
    ensures AllHaveDown(files, newest) <==> AllReversible(pending)
    ensures AllHaveDown(files, newest) ==> DownScripts(files, newest) == DownScriptsBackwards(pending)
  {
    forall i | 0 <= i < |pending|
      ensures FindFile(files, newest[i]) == Some(pending[|pending| - 1 - i])
    {
      FindListed(files, pending[|pending| - 1 - i]);
    }
    if AllHaveDown(files, newest) {
      forall k | 0 <= k < |pending|
        ensures pending[k].down.Some?
      {
        assert HasDown(files, newest[|pending| - 1 - k]);
      }
    }
  }

  predicate AllReversible(pending: seq<MigrationFile>) {
    forall i :: 0 <= i < |pending| ==> pending[i].down.Some?
  }

  /** What rolling back `pending` from `after` comes to. */
  ghost predicate Reverts(files: seq<MigrationFile>, pending: seq<MigrationFile>, ledger: seq<string>,
                          after: seq<string>) {
    var newest := NewestFirst(after, |pending|);
    && Ascending(after)
    && |newest| == |pending| <= |after| && after[..|after| - |pending|] == ledger
    && (AllHaveDown(files, newest) <==> AllReversible(pending))
    && (AllHaveDown(files, newest) ==> DownScripts(files, newest) == DownScriptsBackwards(pending))
  }

  lemma CompletedRunReverts(files: seq<MigrationFile>, pending: seq<MigrationFile>, ledger: seq<string>)
    requires FilesAscending(files) && FilesAscending(pending) && Ascending(ledger)
    requires forall f :: f in pending ==> f in files
    requires ledger != [] && pending != [] ==> Less(ledger[|ledger| - 1], pending[0].version)
    ensures Reverts(files, pending, ledger, RecordAll(ledger, Versions(pending)))
  {
    var after := RecordAll(ledger, Versions(pending));
    DownUndoesUp(ledger, pending);
    NewestFiles(pending, ledger, after);
    UndoneScripts(files, pending, NewestFirst(after, |pending|));
  }

  lemma NewestFiles(pending: seq<MigrationFile>, ledger: seq<string>, after: seq<string>)
    requires UndoneBy(ledger, Versions(pending), after)
    ensures var newest := NewestFirst(after, |pending|);
            && |newest| == |pending| <= |after| && after[..|after| - |pending|] == ledger
            && forall i :: 0 <= i < |pending| ==> newest[i] == pending[|pending| - 1 - i].version
  {
    var newest := NewestFirst(after, |pending|);
    forall i | 0 <= i < |pending|
      ensures newest[i] == pending[|pending| - 1 - i].version
    {
      assert newest[i] == Versions(pending)[|pending| - 1 - i];
    }
  }

  /** When everything pending is newer than the ledger, a run up and a run down by as many
      steps give the ledger back, after each pending file's two scripts ran. They do unless
      a call fails or a down script is missing. */
  method UpThenDown(db: Database, files: seq<MigrationFile>, target: Option<string>) returns (ok: bool)
    requires FilesAscending(files) && Ascending(db.ledger)
    requires var pending := Pending(files, db.ledger, target);
             db.ledger != [] && pending != [] ==> Less(db.ledger[|db.ledger| - 1], pending[0].version)
    modifies db
    ensures var pending := Pending(files, old(db.ledger), target);
            && (ok <==> AllSucceeded(db, old(db.calls)) && AllReversible(pending))
            && (ok ==> db.scripts == old(db.scripts) + UpScripts(pending) + DownScriptsBackwards(pending))
    ensures ok ==> db.ledger == old(db.ledger)
  {
    var pending := Pending(files, db.ledger, target);
    ok := CompleteUp(db, files, target, pending);
    if ok {
      ghost var newest := NewestFirst(db.ledger, |pending|);
      assert newest[..|newest|] == newest;
      ghost var erased, executed;
      ok, erased, executed := RunMigrate(db, files, RollDown(|pending|), false, true);
    }
  }

  method CompleteUp(db: Database, files: seq<MigrationFile>, target: Option<string>, ghost pending: seq<MigrationFile>)
    returns (ok: bool)
    requires FilesAscending(files) && Ascending(db.ledger) && pending == Pending(files, db.ledger, target)
    requires db.ledger != [] && pending != [] ==> Less(db.ledger[|db.ledger| - 1], pending[0].version)
    modifies db
    ensures ok <==> AllSucceeded(db, old(db.calls))
    ensures ok ==> Reverts(files, pending, old(db.ledger), db.ledger)
    ensures ok ==> db.scripts == old(db.scripts) + UpScripts(pending)
    ensures old(db.calls) <= db.calls && Ascending(db.ledger)
  {
    PendingMembers(files, db.ledger, target);
    CompletedRunReverts(files, pending, db.ledger);
    assert pending[..|pending|] == pending;
    ghost var recorded, executed;
    ok, recorded, executed := RunMigrate(db, files, ApplyUp(target), false, true);
  }
}
