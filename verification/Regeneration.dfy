/** Rewriting `go.work` again and again: when a second merge, and a second
    regeneration, find nothing to do. */
module Regeneration {
  import opened Wrappers
  import opened Order
  import opened Text
  import opened GoWork

  predicate AllEntries(entries: seq<string>) {
    forall i :: 0 <= i < |entries| ==> IsEntry(entries[i])
  }

  // ---- merging twice ---------------------------------------------------------------

  /** The line an entry was read from. */
  lemma {:induction false} EntrySource(inBlock: bool, lines: Lines, e: string) returns (i: nat)
    requires e in GO_WORK.ExtractFrom(inBlock, lines)
    ensures i < |lines|
    ensures if GO_WORK.EndsInBlock(inBlock, lines[..i]) then !Closes(lines[i]) && BlockEntry(lines[i]) == Some(e)
            else SingleUseEntry(lines[i]) == Some(e)
    decreases |lines|
  {
    var line, rest := lines[0], lines[1..];
    if (if inBlock then !Closes(line) && BlockEntry(line) == Some(e)
        else !OpensUse(line) && SingleUseEntry(line) == Some(e)) {
      i := 0;
    } else {
      var next := if inBlock then !Closes(line) else OpensUse(line);
      var j := EntrySource(next, rest, e);
      i := j + 1;
      assert lines[..i][0] == line && lines[..i][1..] == rest[..j];
    }
  }

  predicate EndsInParen(e: string) {
    e != "" && e[|e| - 1] == ')'
  }

  /** Trimming a text that does not end in a space only cuts its front. */
  lemma TrimKeepsEnd(s: string) returns (before: string)
    requires s != "" && !IsSpace(s[|s| - 1])
    ensures s == before + Trim(s) && Trim(s) != "" && Trim(s)[|Trim(s)| - 1] == s[|s| - 1]
  {
    var t := TrimStart(s);
    TrimStartSplits(s);
    before := s[..|s| - |t|];
    assert t == "" ==> before == s;
  }

  /** Outside a block a line that is an entry gives at most a shorter entry with the same end. */
  lemma SingleIsShorter(e: string, x: string)
    requires IsEntry(e) && StartsWith(e, "use ") && EntryFromLine(Trim(e[4..])) == Some(x)
    ensures |x| < |e| && (EndsInParen(x) ==> EndsInParen(e))
  {
    var before := TrimKeepsEnd(e[4..]);
    assert e == (e[..4] + before) + Trim(e[4..]) + "";
    PartsAreFree(e[..4] + before, Trim(e[4..]), "", "//");
    TrimYieldsTrimmed(e[4..]);
    TrimOfTrimmed(Trim(e[4..]));
  }

  /** Entry `i` is not read from its own line among the entries put in. */
  predicate Unread(indent: string, added: seq<string>, i: nat)
  {
    i < |added| && EndsInParen(added[i]) &&
    (added[i] == ")" || !GO_WORK.EndsInBlock(true, Indented(indent, added)[..i]))
  }

  lemma LongerUnread(indent: string, added: seq<string>, i: nat) returns (j: nat)
    requires Blank(indent) && AllEntries(added) && Distinct(added) && Unread(indent, added, i)
    requires added[i] in GO_WORK.ExtractFrom(true, Indented(indent, added))
    ensures Unread(indent, added, j) && |added[j]| > |added[i]|
  {
    var lines := Indented(indent, added);
    j := EntrySource(true, lines, added[i]);
    assert lines[j] == indent + added[j];
    if GO_WORK.EndsInBlock(true, lines[..j]) {
      TrimIndented(indent, added[j]);
      ClosingParenCloses(indent);
      assert false;
    } else {
      TrimIndented(indent, added[j]);
      SingleIsShorter(added[j], added[i]);
    }
  }

  function Longest(entries: seq<string>): (n: nat)
    ensures forall i :: 0 <= i < |entries| ==> |entries[i]| <= n
  {
    if entries == [] then 0
    else
      var n := Longest(entries[..|entries| - 1]);
      if n < |entries[|entries| - 1]| then |entries[|entries| - 1]| else n
  }

  /** Among entries put in together with `)`, one ending in `)` is read from none of their lines. */
  lemma {:induction false} SomeUnread(indent: string, added: seq<string>, i: nat) returns (k: nat)
    requires Blank(indent) && AllEntries(added) && Distinct(added) && Unread(indent, added, i)
    ensures k < |added| && EndsInParen(added[k])
    ensures added[k] !in GO_WORK.ExtractFrom(true, Indented(indent, added))
    decreases Longest(added) - |added[i]|
  {
    if added[i] in GO_WORK.ExtractFrom(true, Indented(indent, added)) {
      var j := LongerUnread(indent, added, i);
      k := SomeUnread(indent, added, j);
    } else {
      k := i;
    }
  }

  lemma {:induction false} MissingDistinct(lines: Lines, required: seq<string>)
    requires Distinct(required)
    ensures Distinct(GO_WORK.Missing(lines, required))
    decreases |required|
  {
    if required != [] {
      var front := required[..|required| - 1];
      MissingDistinct(lines, front);
      GO_WORK.MissingMembers(lines, front);
    }
  }

  lemma MissingAreEntries(lines: Lines, required: seq<string>)
    requires AllEntries(required)
    ensures AllEntries(GO_WORK.Missing(lines, required))
  {
    var missing := GO_WORK.Missing(lines, required);
    GO_WORK.MissingMembers(lines, required);
    forall i | 0 <= i < |missing|
      ensures IsEntry(missing[i])
    {
      assert missing[i] in required;
      var k :| 0 <= k < |required| && required[k] == missing[i];
    }
  }

  lemma GoWorkMergedEntries(lines: Lines, required: seq<string>, merged: Lines) returns (indent: string)
    requires GO_WORK.IsMerge(lines, required, merged)
    ensures Blank(indent)
    ensures forall e :: e in GO_WORK.Extract(merged) ==>
              || e in GO_WORK.Extract(lines) || e == USE_OPEN
              || e in GO_WORK.ExtractFrom(true, Indented(indent, GO_WORK.Missing(lines, required)))
  {
    GoWorkRulesAreSound();
    indent := GO_WORK.MergedEntries(lines, required, merged);
  }

  lemma GoWorkMergeGrows(lines: Lines, required: seq<string>, merged: Lines, again: Lines)
    requires GO_WORK.IsMerge(lines, required, merged) && GO_WORK.IsMerge(merged, required, again)
    requires GO_WORK.Missing(merged, required) != []
    ensures |again| > |merged|
  {
    GoWorkRulesAreSound();
    GO_WORK.MergeGrows(lines, required, merged, again);
  }

  lemma GoWorkReadableSettles(lines: Lines, required: seq<string>)
    requires GO_WORK.AllReadable(GO_WORK.Missing(lines, required))
    ensures GO_WORK.Settles(lines, required)
  {
    GoWorkRulesAreSound();
    GO_WORK.ReadableSettles(lines, required);
  }

  /** Where `)` is missing, a merge leaves some required entry missing. */
  lemma ClosingEntryStaysUnmet(lines: Lines, required: seq<string>, merged: Lines)
    requires AllEntries(required) && Distinct(required) && ")" in GO_WORK.Missing(lines, required)
    requires GO_WORK.IsMerge(lines, required, merged)
    ensures GO_WORK.Missing(merged, required) != []
  {
    var missing := GO_WORK.Missing(lines, required);
    MissingDistinct(lines, required);
    MissingAreEntries(lines, required);
    var indent := GoWorkMergedEntries(lines, required, merged);
    var i :| 0 <= i < |missing| && missing[i] == ")";
    var k := SomeUnread(indent, missing, i);
    GO_WORK.MissingMembers(lines, required);
    assert missing[k] in missing;
    GO_WORK.MissingMembers(merged, required);
  }

  /** Without `)` among the missing entries, merging settles. */
  lemma SettlesWithoutClosing(lines: Lines, required: seq<string>)
    requires AllEntries(required) && ")" !in GO_WORK.Missing(lines, required)
    ensures GO_WORK.Settles(lines, required)
  {
    MissingAreEntries(lines, required);
    forall e | e in GO_WORK.Missing(lines, required)
      ensures GO_WORK.Readable(e)
    {
      EntryIsReadable(e);
    }
    GoWorkReadableSettles(lines, required);
  }

  /** Merging distinct entries, as files give them, settles exactly when `)` is not among the
      missing ones; where it is, a second merge always puts more lines in. */
  lemma MergeSettlesIff(lines: Lines, required: seq<string>)
    requires AllEntries(required) && Distinct(required)
    ensures GO_WORK.Settles(lines, required) <==> ")" !in GO_WORK.Missing(lines, required)
    ensures ")" in GO_WORK.Missing(lines, required) ==>
              forall merged, again ::
                GO_WORK.IsMerge(lines, required, merged) && GO_WORK.IsMerge(merged, required, again) ==>
                  |again| > |merged|
  {
    if ")" !in GO_WORK.Missing(lines, required) {
      SettlesWithoutClosing(lines, required);
    } else {
      forall merged, again | GO_WORK.IsMerge(lines, required, merged) && GO_WORK.IsMerge(merged, required, again)
        ensures |again| > |merged|
      {
        ClosingEntryStaysUnmet(lines, required, merged);
        GoWorkMergeGrows(lines, required, merged, again);
      }
      var merged := GO_WORK.MergeExists(lines, required);
      var again := GO_WORK.MergeExists(merged, required);
    }
  }

  // ---- regenerating twice: enough -----------------------------------------------------

  /** The next regeneration leaves a line with this entry alone, wherever it was put. */
  predicate Harmless(e: string) {
    e != ")" && !OpensReplace(e) && !IsRuntimeReplaceLine(e) && !IsRuntimeBlockLine(e)
  }

  predicate AllHarmless(entries: seq<string>) {
    forall i :: 0 <= i < |entries| ==> Harmless(entries[i])
  }

  lemma HarmlessIsInert(indent: string, e: string)
    requires Blank(indent) && IsEntry(e) && Harmless(e)
    ensures RUNTIME_REPLACE.Inert(indent + e)
  {
    TrimIndented(indent, e);
    TrimOfTrimmed(e);
  }

  lemma MarkersAreInert()
    ensures RUNTIME_REPLACE.Inert("") && RUNTIME_REPLACE.Inert(USE_OPEN) && RUNTIME_REPLACE.Inert("(")
    ensures Closes(USE_CLOSE) && !OpensReplace(USE_CLOSE) && !IsRuntimeReplaceLine(USE_CLOSE)
  {
    TrimOfTrimmed("");
    TrimOfTrimmed(USE_OPEN);
    TrimOfTrimmed("(");
    TrimOfTrimmed(USE_CLOSE);
    AbsentSeparator(USE_OPEN, "=>");
    AbsentSeparator("(", "=>");
  }

  lemma TestsIgnoreTrailingSpace(line: string)
    ensures OpensReplace(TrimEnd(line)) == OpensReplace(line) && Closes(TrimEnd(line)) == Closes(line)
    ensures IsRuntimeReplaceLine(TrimEnd(line)) == IsRuntimeReplaceLine(line)
    ensures IsRuntimeBlockLine(TrimEnd(line)) == IsRuntimeBlockLine(line)
  {
    TrimAfterTrimEnd(line);
  }

  lemma KeepsOne(state: nat, line: string)
    ensures RUNTIME_REPLACE.Keeps(state, [line]) <==>
              if state == 0 then OpensReplace(line) || !IsRuntimeReplaceLine(line)
              else if Closes(line) then state > 1
              else !IsRuntimeBlockLine(line)
    ensures RUNTIME_REPLACE.After(state, [line]) == RUNTIME_REPLACE.Next(state, line)
  {
    assert [line][1..] == [];
  }

  lemma {:induction false} TrimEndKeeps(lines: Lines)
    requires RUNTIME_REPLACE.Keeps(0, lines)
    ensures RUNTIME_REPLACE.Keeps(0, TrimEndLines(lines))
    decreases |lines|
  {
    if lines == [] {
      MarkersAreInert();
      KeepsOne(0, "");
    } else {
      var front, line := lines[..|lines| - 1], lines[|lines| - 1];
      assert lines == front + [line];
      RUNTIME_REPLACE.KeepsConcat(0, front, [line]);
      if TrimEnd(line) == "" && front != [] {
        TrimEndKeeps(front);
      } else {
        TestsIgnoreTrailingSpace(line);
        KeepsOne(RUNTIME_REPLACE.After(0, front), line);
        KeepsOne(RUNTIME_REPLACE.After(0, front), TrimEnd(line));
        RUNTIME_REPLACE.KeepsConcat(0, front, [TrimEnd(line)]);
      }
    }
  }

  lemma {:induction false} AfterBound(state: nat, lines: Lines)
    requires state <= 2
    ensures RUNTIME_REPLACE.After(state, lines) <= 2
    decreases |lines|
  {
    if lines != [] {
      AfterBound(RUNTIME_REPLACE.Next(state, lines[0]), lines[1..]);
    }
  }

  predicate AllInert(lines: Lines) {
    forall i :: 0 <= i < |lines| ==> RUNTIME_REPLACE.Inert(lines[i])
  }

  /** Inert lines may be put in anywhere. */
  lemma KeepsInserted(p: Lines, ins: Lines, q: Lines)
    requires RUNTIME_REPLACE.Keeps(0, p + q)
    requires AllInert(ins)
    ensures RUNTIME_REPLACE.Keeps(0, p + ins + q)
  {
    var state := RUNTIME_REPLACE.After(0, p);
    AfterBound(0, p);
    RUNTIME_REPLACE.KeepsConcat(0, p, q);
    RUNTIME_REPLACE.InertLines(state, ins);
    RUNTIME_REPLACE.KeepsConcat(state, ins, q);
    RUNTIME_REPLACE.KeepsConcat(0, p, ins + q);
    assert p + ins + q == p + (ins + q);
  }

  lemma KeepsClosed(front: Lines, inert: Lines)
    requires RUNTIME_REPLACE.Keeps(0, front) && inert != []
    requires AllInert(inert)
    ensures RUNTIME_REPLACE.Keeps(0, front + (inert + [USE_CLOSE]))
  {
    var state := RUNTIME_REPLACE.After(0, front);
    MarkersAreInert();
    AfterBound(0, front);
    RUNTIME_REPLACE.InertLines(state, inert);
    KeepsOne(RUNTIME_REPLACE.After(state, inert), USE_CLOSE);
    RUNTIME_REPLACE.KeepsConcat(state, inert, [USE_CLOSE]);
    RUNTIME_REPLACE.KeepsConcat(0, front, inert + [USE_CLOSE]);
  }

  lemma BlockIsInert(ins: Lines)
    requires AllInert(ins)
    ensures AllInert(["", USE_OPEN] + ins)
  {
    var inert := ["", USE_OPEN] + ins;
    MarkersAreInert();
    forall i | 0 <= i < |inert|
      ensures RUNTIME_REPLACE.Inert(inert[i])
    {
      assert i >= 2 ==> inert[i] == ins[i - 2];
    }
  }

  lemma KeepsNewBlock(front: Lines, ins: Lines)
    requires RUNTIME_REPLACE.Keeps(0, front)
    requires AllInert(ins)
    ensures RUNTIME_REPLACE.Keeps(0, front + ["", USE_OPEN] + ins + [USE_CLOSE])
  {
    var inert := ["", USE_OPEN] + ins;
    BlockIsInert(ins);
    KeepsClosed(front, inert);
    assert front + ["", USE_OPEN] + ins + [USE_CLOSE] == front + (inert + [USE_CLOSE]);
  }

  lemma InsertedAreInert(lines: Lines, required: seq<string>, indent: string)
    requires Blank(indent) && AllEntries(required) && AllHarmless(required)
    ensures AllInert(Indented(indent, GO_WORK.Missing(lines, required)))
  {
    var missing := GO_WORK.Missing(lines, required);
    GO_WORK.MissingMembers(lines, required);
    forall i | 0 <= i < |missing|
      ensures RUNTIME_REPLACE.Inert(indent + missing[i])
    {
      assert missing[i] in required;
      HarmlessIsInert(indent, missing[i]);
    }
  }

  /** Merging harmless entries into a file without stale replaces gives another one. */
  lemma MergeKeepsStripped(lines: Lines, required: seq<string>, merged: Lines)
    requires AllEntries(required) && AllHarmless(required)
    requires RUNTIME_REPLACE.Keeps(0, lines) && GO_WORK.IsMerge(lines, required, merged)
    ensures RUNTIME_REPLACE.Keeps(0, merged)
  {
    var missing := GO_WORK.Missing(lines, required);
    if missing == [] {
    } else if k: nat :| GO_WORK.MergesAt(lines, missing, merged, k) {
      var indent := GO_WORK.BlockIndent(lines, k);
      InsertedAreInert(lines, required, indent);
      InsertedKeeps(lines, Indented(indent, missing), k);
    } else {
      InsertedAreInert(lines, required, "\t");
      AppendedKeeps(lines, Indented("\t", missing));
    }
  }

  lemma InsertedKeeps(lines: Lines, ins: Lines, k: nat)
    requires k <= |lines| && RUNTIME_REPLACE.Keeps(0, lines) && AllInert(ins)
    ensures RUNTIME_REPLACE.Keeps(0, lines[..k] + ins + lines[k..])
  {
    assert lines == lines[..k] + lines[k..];
    KeepsInserted(lines[..k], ins, lines[k..]);
  }

  lemma AppendedKeeps(lines: Lines, ins: Lines)
    requires RUNTIME_REPLACE.Keeps(0, lines)
    requires AllInert(ins)
    ensures RUNTIME_REPLACE.Keeps(0, TrimEndLines(lines) + ["", USE_OPEN] + ins + [USE_CLOSE])
  {
    TrimEndKeeps(lines);
    KeepsNewBlock(TrimEndLines(lines), ins);
  }

  lemma GeneratedAreEntries(generated: Lines)
    ensures AllEntries(GO_WORK.Extract(generated))
  {
    var entries := GO_WORK.Extract(generated);
    forall i | 0 <= i < |entries|
      ensures IsEntry(entries[i])
    {
      ExtractedEntriesAreReadable(false, generated, entries[i]);
    }
  }

  /** A last blank line that the next strip takes for the final newline: the text ends in two. */
  predicate EndsBlank(file: File) {
    |file.lines| > 1 && file.lines[|file.lines| - 1] == ""
  }

  lemma BlankLineIsNeutral(lines: Lines)
    ensures GO_WORK.Extract(lines + [""]) == GO_WORK.Extract(lines)
    ensures RUNTIME_REPLACE.Keeps(0, lines + [""]) ==> RUNTIME_REPLACE.Keeps(0, lines)
  {
    TrimOfTrimmed("");
    GO_WORK.ExtractConcat(false, lines, [""]);
    GO_WORK.OneLine(GO_WORK.EndsInBlock(false, lines), "");
    RUNTIME_REPLACE.KeepsConcat(0, lines, [""]);
  }

  lemma JoinedKeeps(lines: Lines, newline: bool)
    ensures Joined(lines, newline).Ended()
    ensures GO_WORK.Extract(Joined(lines, newline).lines) == GO_WORK.Extract(lines)
    ensures RUNTIME_REPLACE.Keeps(0, lines) ==> RUNTIME_REPLACE.Keeps(0, Joined(lines, newline).lines)
  {
    BlankLineIsNeutral([]);
    MarkersAreInert();
    KeepsOne(0, "");
    assert [] + [""] == [""];
    if lines != [] && lines[|lines| - 1] == "" {
      BlankLineIsNeutral(lines[..|lines| - 1]);
      assert lines == lines[..|lines| - 1] + [""];
    }
  }

  lemma JoinedSameIff(file: File)
    requires file.Ended()
    ensures Joined(file.lines, file.newline) == file <==> !EndsBlank(file)
  {
  }

  lemma StripFileKeeps(file: File)
    ensures StripFile(file).Ended() && RUNTIME_REPLACE.Keeps(0, StripFile(file).lines)
  {
    var stripped := RUNTIME_REPLACE.Strip(file.lines);
    RUNTIME_REPLACE.StripIdempotent(file.lines);
    RUNTIME_REPLACE.StripKeepsIff(stripped);
    JoinedKeeps(stripped, file.newline);
  }

  lemma MergedEnded(file: File, required: seq<string>, merged: File)
    requires file.Ended() && GO_WORK.IsFileMerge(file, required, merged)
    ensures merged.Ended()
  {
    var missing := GO_WORK.Missing(file.lines, required);
    if missing == [] {
      assert merged == file;
    } else if exists k :: GO_WORK.IsFirstClose(file.lines, k) {
      var k: nat :| GO_WORK.MergesAt(file.lines, missing, merged.lines, k);
      InsertedKeepsLast(file.lines, Indented(GO_WORK.BlockIndent(file.lines, k), missing), k);
    } else {
      assert merged.newline && merged.lines[|merged.lines| - 1] == USE_CLOSE;
    }
  }

  lemma InsertedKeepsLast(lines: Lines, ins: Lines, k: nat)
    requires k < |lines|
    ensures var all := lines[..k] + ins + lines[k..]; all != [] && all[|all| - 1] == lines[|lines| - 1]
  {
  }

  /** Where nothing is missing, the second regeneration only joins the lines again. */
  lemma KeptIsJoined(file: File, required: seq<string>, written: File)
    requires RUNTIME_REPLACE.Keeps(0, file.lines) && forall e :: e in required ==> e in GO_WORK.Extract(file.lines)
    requires Regenerates(file, required, written)
    ensures written == Joined(file.lines, file.newline)
  {
    RUNTIME_REPLACE.StripKeepsIff(file.lines);
    JoinedKeeps(file.lines, file.newline);
    GO_WORK.NothingMissing(Joined(file.lines, file.newline).lines, required);
  }

  /** Harmless entries: the second regeneration changes nothing, except that it drops the last
      line of a text that ends in two newlines. */
  lemma HarmlessSettles(existing: File, required: seq<string>, once: File, twice: File)
    requires AllEntries(required) && AllHarmless(required)
    requires Regenerates(existing, required, once) && Regenerates(once, required, twice)
    ensures twice == if EndsBlank(once) then File(once.lines[..|once.lines| - 1], true) else once
    ensures twice == once <==> !EndsBlank(once)
  {
    var stripped := StripFile(existing);
    StripFileKeeps(existing);
    MergeKeepsStripped(stripped.lines, required, once.lines);
    MergedEnded(stripped, required, once);
    GO_WORK.MissingMembers(stripped.lines, required);
    SettlesWithoutClosing(stripped.lines, required);
    var again := GO_WORK.MergeExists(once.lines, required);
    KeptIsJoined(once, required, twice);
    JoinedSameIff(once);
  }

  /** The first write puts the generated file down as it is; the second leaves it so
      exactly when it holds no stale replace and does not end in two newlines. */
  lemma FirstWriteSettlesIff(generated: File, twice: File)
    requires generated.Ended() && AllHarmless(GO_WORK.Extract(generated.lines))
    requires Regenerates(generated, GO_WORK.Extract(generated.lines), twice)
    ensures twice == generated <==> StripFile(generated) == generated
  {
    var required := GO_WORK.Extract(generated.lines);
    GeneratedAreEntries(generated.lines);
    if twice == generated {
      StripFileKeeps(generated);
      MergeKeepsStripped(StripFile(generated).lines, required, twice.lines);
      KeptIsJoined(generated, required, twice);
      RUNTIME_REPLACE.StripKeepsIff(generated.lines);
    } else if StripFile(generated) == generated {
      GO_WORK.NothingMissing(generated.lines, required);
    }
  }

  /** Three newlines become two and then one. */
  lemma TrailingBlanksShrink(once: File, twice: File)
    requires Regenerates(File(["", "", ""], true), [], once) && Regenerates(once, [], twice)
    ensures once == File(["", ""], true) && twice == File([""], true)
  {
    var one, two := File([""], true), File(["", ""], true);
    BlankLinesKeep();
    KeptIsJoined(File(["", "", ""], true), [], once);
    assert ["", "", ""][..2] == ["", ""] && ["", ""][..1] == [""];
    assert once == two;
    KeptIsJoined(two, [], twice);
  }

  lemma BlankLinesKeep()
    ensures RUNTIME_REPLACE.Keeps(0, ["", ""]) && RUNTIME_REPLACE.Keeps(0, ["", "", ""])
  {
    MarkersAreInert();
    KeepsOne(0, "");
    RUNTIME_REPLACE.KeepsConcat(0, [""], [""]);
    RUNTIME_REPLACE.KeepsConcat(0, ["", ""], [""]);
    assert ["", "", ""] == ["", ""] + [""] && ["", ""] == [""] + [""];
  }

  // ---- regenerating twice: needed -----------------------------------------------------

  ghost predicate RewritesLines(existing: Lines, required: seq<string>, written: Lines) {
    GO_WORK.IsMerge(RUNTIME_REPLACE.Strip(existing), required, written)
  }

  /** A line outside any block that the strip leaves alone and the merge reads on from. */
  predicate IsPlain(line: string) {
    !OpensReplace(line) && !IsRuntimeReplaceLine(line) && !Closes(line) && Indent(line) == ""
  }

  predicate AllPlain(lines: Lines) {
    forall i :: 0 <= i < |lines| ==> IsPlain(lines[i])
  }

  /** One `use` line for every required entry but `e`. */
  function Others(entries: seq<string>, e: string): Lines {
    if entries == [] then []
    else
      var rest := Others(entries[1..], e);
      if entries[0] == e || entries[0] == "(" then rest else ["use " + entries[0]] + rest
  }

  lemma UseLineReads(r: string)
    requires IsEntry(r) && r != "("
    ensures !OpensUse("use " + r) && SingleUseEntry("use " + r) == Some(r) && IsPlain("use " + r)
  {
    var line := "use " + r;
    assert line[0] == 'u' && line[|line| - 1] == r[|r| - 1] && line[4..] == r;
    TrimOfTrimmed(line);
    TrimOfTrimmed(r);
    assert line != "use (" by {
      assert "use ("[4..] == "(";
    }
    assert "replace "[0] == 'r' && "replace ("[0] == 'r';
  }

  lemma {:induction false} OthersRead(entries: seq<string>, e: string)
    requires AllEntries(entries)
    ensures AllPlain(Others(entries, e))
    ensures !GO_WORK.EndsInBlock(false, Others(entries, e))
    ensures forall r :: r in GO_WORK.Extract(Others(entries, e)) <==> r in entries && r != e && r != "("
    decreases |entries|
  {
    if entries != [] {
      OthersRead(entries[1..], e);
      assert entries == [entries[0]] + entries[1..];
      if entries[0] != e && entries[0] != "(" {
        UseLineReads(entries[0]);
        assert Others(entries, e)[1..] == Others(entries[1..], e);
      }
    }
  }

  lemma {:induction false} OnlyMissing(lines: Lines, required: seq<string>, e: string)
    requires Distinct(required) && forall r :: r in required ==> (r in GO_WORK.Extract(lines) <==> r != e)
    ensures GO_WORK.Missing(lines, required) == if e in required then [e] else []
    decreases |required|
  {
    if required != [] {
      var front, last := required[..|required| - 1], required[|required| - 1];
      assert required == front + [last];
      OnlyMissing(lines, front, e);
    }
  }

  lemma {:induction false} ScanPlain(p: Lines, q: Lines)
    requires AllPlain(p)
    ensures RUNTIME_REPLACE.Scan([], p + q) == p + RUNTIME_REPLACE.Scan([], q)
    decreases |p|
  {
    if p == [] {
      assert p + q == q;
    } else {
      assert IsPlain(p[0]);
      assert (p + q)[0] == p[0] && (p + q)[1..] == p[1..] + q;
      ScanPlain(p[1..], q);
    }
  }

  lemma {:induction false} ScanInert(buf: Lines, p: Lines, q: Lines)
    requires AllInert(p) && buf != []
    ensures RUNTIME_REPLACE.Scan(buf, p + q) == RUNTIME_REPLACE.Scan(buf + p, q)
    decreases |p|
  {
    if p == [] {
      assert p + q == q && buf + p == buf;
    } else {
      var line, rest := p[0], p[1..];
      assert RUNTIME_REPLACE.Inert(line);
      assert (p + q)[0] == line && (p + q)[1..] == rest + q;
      assert RUNTIME_REPLACE.Scan(buf, p + q) == RUNTIME_REPLACE.Scan(buf + [line], rest + q);
      ScanInert(buf + [line], rest, q);
      assert buf + [line] + rest == buf + p;
    }
  }

  // ---- the file that shows it ----------------------------------------------------------

  const OPEN_BLOCK: Lines := ["use (", "("]

  /** For a clause of a `replace` block the file holds such a block, never closed. */
  function Opening(e: string): Lines {
    if IsRuntimeBlockLine(e) then ["replace ("] else []
  }

  /** A file with every required entry but `e`, ending inside an open `use` block. */
  function Lacking(required: seq<string>, e: string): Lines {
    Others(required, e) + Opening(e) + OPEN_BLOCK
  }

  const NEW_BLOCK: Lines := ["", "use ("]

  lemma ConstantLines()
    ensures AllPlain(OPEN_BLOCK) && AllPlain(NEW_BLOCK)
    ensures AllInert(OPEN_BLOCK) && AllInert(NEW_BLOCK)
    ensures AllInert(OPEN_BLOCK + NEW_BLOCK) && AllPlain(OPEN_BLOCK + NEW_BLOCK)
    ensures Harmless("(") && Harmless(USE_OPEN)
  {
    MarkersAreInert();
    assert IsPlain("") && IsPlain("(") && IsPlain("use (");
  }

  lemma ReplaceOpens()
    ensures OpensReplace("replace (") && !Closes("replace (") && Indent("replace (") == ""
    ensures !OpensUse("replace (") && SingleUseEntry("replace (") == None
  {
    TrimOfTrimmed("replace (");
    assert "replace ("[0] == 'r';
  }

  /** Before the open `use` block only the other entries are read. */
  lemma HeadReads(required: seq<string>, e: string)
    requires AllEntries(required)
    ensures var head := Others(required, e) + Opening(e);
            && GO_WORK.Extract(head) == GO_WORK.Extract(Others(required, e))
            && !GO_WORK.EndsInBlock(false, head)
  {
    var others := Others(required, e);
    OthersRead(required, e);
    if IsRuntimeBlockLine(e) {
      ReplaceOpens();
      GO_WORK.ExtractConcat(false, others, ["replace ("]);
      GO_WORK.OneLine(false, "replace (");
    } else {
      assert others + [] == others;
    }
  }

  lemma PairReads(inBlock: bool, a: string, b: string)
    ensures GO_WORK.ExtractFrom(inBlock, [a, b]) ==
            GO_WORK.ExtractFrom(inBlock, [a]) + GO_WORK.ExtractFrom(GO_WORK.EndsInBlock(inBlock, [a]), [b])
    ensures GO_WORK.EndsInBlock(inBlock, [a, b]) == GO_WORK.EndsInBlock(GO_WORK.EndsInBlock(inBlock, [a]), [b])
  {
    GO_WORK.ExtractConcat(inBlock, [a], [b]);
    assert [a, b] == [a] + [b];
  }

  lemma ParenEntryReads()
    ensures BlockEntry("(") == Some("(") && !Closes("(") && BlockEntry("") == None && !Closes("")
  {
    TrimOfTrimmed("(");
    TrimOfTrimmed("");
    AbsentSeparator("(", "//");
  }

  lemma OpenBlockReads()
    ensures GO_WORK.Extract(OPEN_BLOCK) == ["("] && GO_WORK.EndsInBlock(false, OPEN_BLOCK)
    ensures GO_WORK.ExtractFrom(true, NEW_BLOCK) == ["use ("] && GO_WORK.EndsInBlock(true, NEW_BLOCK)
  {
    OpenMarkerWorks();
    ParenEntryReads();
    PairReads(false, "use (", "(");
    GO_WORK.OneLine(false, "use (");
    GO_WORK.OneLine(true, "(");
    PairReads(true, "", "use (");
    GO_WORK.OneLine(true, "");
    GO_WORK.OneLine(true, "use (");
  }

  /** The file has every required entry but `e`, also with the start of a new block. */
  lemma LackingReads(required: seq<string>, e: string)
    requires AllEntries(required) && !Harmless(e)
    ensures var file := Lacking(required, e);
            && GO_WORK.EndsInBlock(false, file) && GO_WORK.EndsInBlock(false, file + NEW_BLOCK)
            && GO_WORK.Extract(file + NEW_BLOCK) == GO_WORK.Extract(file) + ["use ("]
            && e !in GO_WORK.Extract(file + NEW_BLOCK)
            && forall r :: r in required && r != e ==> r in GO_WORK.Extract(file)
  {
    var head, file := Others(required, e) + Opening(e), Lacking(required, e);
    HeadReads(required, e);
    OthersRead(required, e);
    OpenBlockReads();
    ConstantLines();
    EntriesBehind(head, OPEN_BLOCK, false);
    assert GO_WORK.Extract(file) == GO_WORK.Extract(Others(required, e)) + ["("];
    assert e !in GO_WORK.Extract(file);
    forall r | r in required && r != e
      ensures r in GO_WORK.Extract(file)
    {
      assert r in GO_WORK.Extract(Others(required, e)) || r == "(";
    }
    EntriesBehind(file, NEW_BLOCK, true);
  }

  lemma EntriesBehind(p: Lines, q: Lines, inBlock: bool)
    requires GO_WORK.EndsInBlock(false, p) == inBlock
    ensures GO_WORK.Extract(p + q) == GO_WORK.Extract(p) + GO_WORK.ExtractFrom(inBlock, q)
    ensures GO_WORK.EndsInBlock(false, p + q) == GO_WORK.EndsInBlock(inBlock, q)
  {
    GO_WORK.ExtractConcat(false, p, q);
  }

  /** With the required entries distinct, exactly `e` is missing. */
  lemma LackingMisses(required: seq<string>, e: string, file: Lines)
    requires AllEntries(required) && Distinct(required) && e in required && !Harmless(e)
    requires GO_WORK.Extract(file) == GO_WORK.Extract(Lacking(required, e))
             || GO_WORK.Extract(file) == GO_WORK.Extract(Lacking(required, e) + NEW_BLOCK)
    ensures GO_WORK.Missing(file, required) == [e]
  {
    LackingReads(required, e);
    OnlyMissing(file, required, e);
  }

  lemma LackingLines(required: seq<string>, e: string)
    requires AllEntries(required)
    ensures var file := Lacking(required, e) + NEW_BLOCK;
            forall i :: 0 <= i < |file| ==> !Closes(file[i]) && Indent(file[i]) == ""
  {
    var others, file := Others(required, e), Lacking(required, e) + NEW_BLOCK;
    OthersRead(required, e);
    ConstantLines();
    ReplaceOpens();
    forall i | 0 <= i < |file|
      ensures !Closes(file[i]) && Indent(file[i]) == ""
    {
      if i < |others| {
        assert file[i] == others[i] && IsPlain(others[i]);
      } else if i < |others| + |Opening(e)| {
        assert file[i] == "replace (";
      } else if i < |file| - 2 {
        assert file[i] == OPEN_BLOCK[i - |others| - |Opening(e)|];
      } else {
        assert file[i] == NEW_BLOCK[i - (|file| - 2)];
      }
    }
  }

  lemma NoClose(file: Lines)
    requires forall i :: 0 <= i < |file| ==> !Closes(file[i])
    ensures !exists k :: GO_WORK.IsFirstClose(file, k)
  {
  }

  /** Merging into such a file appends a new block for `e`. */
  lemma AppendedMerge(file: Lines, required: seq<string>, e: string, merged: Lines)
    requires GO_WORK.Missing(file, required) == [e] && GO_WORK.IsMerge(file, required, merged)
    requires forall i :: 0 <= i < |file| ==> !Closes(file[i])
    requires file != [] && TrimEnd(file[|file| - 1]) == file[|file| - 1] != ""
    ensures merged == file + NEW_BLOCK + ["\t" + e, USE_CLOSE]
  {
    MergedAtEnd(file, required, merged);
    assert TrimEndLines(file) == file;
    assert Indented("\t", [e]) == ["\t" + e];
    TwoLines(file + NEW_BLOCK, "\t" + e, USE_CLOSE);
  }

  lemma MergedAtEnd(file: Lines, required: seq<string>, merged: Lines)
    requires GO_WORK.Missing(file, required) != [] && GO_WORK.IsMerge(file, required, merged)
    requires forall i :: 0 <= i < |file| ==> !Closes(file[i])
    ensures merged == TrimEndLines(file) + NEW_BLOCK + Indented("\t", GO_WORK.Missing(file, required)) + [USE_CLOSE]
  {
    NoClose(file);
  }

  lemma TwoLines(front: Lines, line: string, close: string)
    ensures front + [line] + [close] == front + [line, close]
  {
  }

  lemma Shift(a: Lines, b: Lines, c: Lines)
    ensures a + b + c == a + (b + c)
  {
  }

  /** What the strip makes of such a file: the block lines stay, the rest is scanned on. */
  lemma StripOutside(others: Lines, inert: Lines, tail: Lines)
    requires AllPlain(others) && AllPlain(inert)
    ensures RUNTIME_REPLACE.Strip(others + inert + tail) == others + inert + RUNTIME_REPLACE.Scan([], tail)
  {
    RUNTIME_REPLACE.ScanIsRemaining([], others + inert + tail);
    Shift(others, inert, tail);
    ScanPlain(others, inert + tail);
    ScanPlain(inert, tail);
    Shift(others, inert, RUNTIME_REPLACE.Scan([], tail));
  }

  lemma ScanOpening(inert: Lines, tail: Lines)
    requires AllInert(inert)
    ensures RUNTIME_REPLACE.Scan([], ["replace ("] + (inert + tail)) ==
            RUNTIME_REPLACE.Scan(["replace ("] + inert, tail)
  {
    ReplaceOpens();
    ScanInert(["replace ("], inert, tail);
    assert (["replace ("] + (inert + tail))[1..] == inert + tail;
  }

  lemma Nest(a: Lines, b: Lines, c: Lines, d: Lines)
    ensures a + b + c + d == a + (b + (c + d))
  {
  }

  lemma StripInside(others: Lines, inert: Lines, tail: Lines)
    requires AllPlain(others) && AllInert(inert)
    ensures RUNTIME_REPLACE.Strip(others + ["replace ("] + inert + tail) ==
            others + RUNTIME_REPLACE.Scan(["replace ("] + inert, tail)
  {
    RUNTIME_REPLACE.ScanIsRemaining([], others + ["replace ("] + inert + tail);
    Nest(others, ["replace ("], inert, tail);
    ScanPlain(others, ["replace ("] + (inert + tail));
    ScanOpening(inert, tail);
  }

  lemma StripLacking(required: seq<string>, e: string)
    requires AllEntries(required)
    ensures RUNTIME_REPLACE.Strip(Lacking(required, e)) == Lacking(required, e)
  {
    var others := Others(required, e);
    OthersRead(required, e);
    ConstantLines();
    if IsRuntimeBlockLine(e) {
      StripInside(others, OPEN_BLOCK, []);
      KeptInside(others, OPEN_BLOCK);
    } else {
      StripOutside(others, OPEN_BLOCK, []);
      assert others + [] == others && others + OPEN_BLOCK + [] == others + OPEN_BLOCK;
    }
  }

  lemma KeptInside(others: Lines, open: Lines)
    ensures others + ["replace ("] + open + [] == others + ["replace ("] + open
    ensures others + (["replace ("] + open) == others + ["replace ("] + open
  {
  }

  /** What survives of the line for `e` and the closing line after it. */
  function Survivors(e: string): Lines {
    if OpensReplace(e) then []
    else if e == ")" then ["\t" + e, USE_CLOSE]
    else [USE_CLOSE]
  }

  lemma EntryLineTests(e: string)
    requires IsEntry(e)
    ensures OpensReplace("\t" + e) == OpensReplace(e) && Closes("\t" + e) == (e == ")")
    ensures IsRuntimeReplaceLine("\t" + e) == IsRuntimeReplaceLine(e)
    ensures IsRuntimeBlockLine("\t" + e) == IsRuntimeBlockLine(e)
  {
    TrimIndented("\t", e);
    TrimOfTrimmed(e);
  }

  lemma ScanTwo(line: string, close: string)
    requires Closes(close) && !OpensReplace(close) && !IsRuntimeReplaceLine(close)
    ensures RUNTIME_REPLACE.Scan([], [line, close]) ==
              if OpensReplace(line) then [] else if IsRuntimeReplaceLine(line) then [close] else [line, close]
  {
    assert [line, close][1..] == [close] && [close][1..] == [];
    assert RUNTIME_REPLACE.Scan([], [close]) == [close];
    assert RUNTIME_REPLACE.Scan([line], [close]) == [];
  }

  lemma ScanEntry(e: string)
    requires IsEntry(e) && !Harmless(e) && !IsRuntimeBlockLine(e)
    ensures RUNTIME_REPLACE.Scan([], ["\t" + e, USE_CLOSE]) == Survivors(e)
  {
    MarkersAreInert();
    EntryLineTests(e);
    ScanTwo("\t" + e, USE_CLOSE);
  }

  lemma ScanClosing(buf: Lines, line: string, close: string)
    requires |buf| > 1 && !Closes(line) && IsRuntimeBlockLine(line) && Closes(close)
    ensures RUNTIME_REPLACE.Scan(buf, [line, close]) == buf + [close]
  {
    assert [line, close][1..] == [close] && [close][1..] == [];
    assert RUNTIME_REPLACE.Scan(buf, [close]) == buf + [close] + [];
  }

  lemma ClauseIsNoClose(e: string)
    requires IsEntry(e) && IsRuntimeBlockLine(e)
    ensures e != ")" && !OpensReplace(e)
  {
    TrimOfTrimmed(e);
    AbsentSeparator(")", "=>");
    AbsentSeparator("replace (", "=>");
  }

  lemma Regroup(a: Lines, b: Lines, c: Lines, d: Lines, e: Lines)
    ensures a + b + (c + d) + e == a + b + c + d + e
    ensures a + (b + (c + d) + e) == a + b + c + d + e
  {
  }

  lemma StripOnceInside(others: Lines, open: Lines, block: Lines, line: string, close: string)
    requires AllPlain(others) && AllInert(open + block) && open != []
    requires !Closes(line) && IsRuntimeBlockLine(line) && Closes(close)
    ensures RUNTIME_REPLACE.Strip(others + ["replace ("] + open + block + [line, close]) ==
            others + ["replace ("] + open + block + [close]
  {
    StripInside(others, open + block, [line, close]);
    ScanClosing(["replace ("] + (open + block), line, close);
    Regroup(others, ["replace ("], open, block, [line, close]);
    Regroup(others, ["replace ("], open, block, [close]);
  }

  lemma StripOnceOutside(others: Lines, open: Lines, block: Lines, tail: Lines)
    requires AllPlain(others) && AllPlain(open + block)
    ensures RUNTIME_REPLACE.Strip(others + open + block + tail) ==
            others + open + block + RUNTIME_REPLACE.Scan([], tail)
  {
    StripOutside(others, open + block, tail);
    assert others + open + block + tail == others + (open + block) + tail;
    assert others + open + block == others + (open + block);
  }

  lemma StripOnce(required: seq<string>, e: string)
    requires AllEntries(required) && IsEntry(e) && !Harmless(e)
    ensures RUNTIME_REPLACE.Strip(Lacking(required, e) + NEW_BLOCK + ["\t" + e, USE_CLOSE]) ==
            Lacking(required, e) + NEW_BLOCK + Survivors(e)
  {
    OthersRead(required, e);
    ConstantLines();
    if IsRuntimeBlockLine(e) {
      ClauseIsNoClose(e);
      EntryLineTests(e);
      MarkersAreInert();
      StripOnceInside(Others(required, e), OPEN_BLOCK, NEW_BLOCK, "\t" + e, USE_CLOSE);
    } else {
      ScanEntry(e);
      assert Others(required, e) + [] == Others(required, e);
      StripOnceOutside(Others(required, e), OPEN_BLOCK, NEW_BLOCK, ["\t" + e, USE_CLOSE]);
    }
  }

  // ---- the second regeneration differs ----------------------------------------------------

  lemma {:induction false} IndentOfFirst(lines: Lines, k: nat)
    requires k <= |lines| && forall i :: 0 <= i < k ==> Indent(lines[i]) == ""
    ensures GO_WORK.FirstEntryIndent(lines, k) in {None, Some("")}
  {
    if k != 0 {
      IndentOfFirst(lines, k - 1);
    }
  }

  lemma {:induction false} SomeEntryIndent(lines: Lines, j: nat, k: nat)
    requires j < k <= |lines| && GO_WORK.EndsInBlock(false, lines[..j]) && BlockEntry(lines[j]).Some?
    ensures GO_WORK.FirstEntryIndent(lines, k).Some?
    decreases k
  {
    if j + 1 < k {
      SomeEntryIndent(lines, j, k - 1);
    }
  }

  lemma ClosedReads(required: seq<string>, e: string)
    requires AllEntries(required) && Distinct(required) && e in required && !Harmless(e)
    ensures var file := Lacking(required, e) + NEW_BLOCK + [USE_CLOSE];
            GO_WORK.Missing(file, required) == [e] && GO_WORK.ClosesBlock(file, |file| - 1)
  {
    var front := Lacking(required, e) + NEW_BLOCK;
    var file := front + [USE_CLOSE];
    LackingReads(required, e);
    GO_WORK.ExtractConcat(false, front, [USE_CLOSE]);
    MarkersAreInert();
    GO_WORK.OneLine(true, USE_CLOSE);
    assert GO_WORK.Extract(front) + [] == GO_WORK.Extract(front);
    LackingMisses(required, e, file);
    assert file[..|front|] == front;
  }

  /** Only the last line closes: a merge puts the missing entry right before it. */
  lemma MergedBeforeLast(front: Lines, close: string, required: seq<string>, e: string, merged: Lines)
    requires GO_WORK.Missing(front + [close], required) == [e] && GO_WORK.IsMerge(front + [close], required, merged)
    requires GO_WORK.ClosesBlock(front + [close], |front|) && forall i :: 0 <= i < |front| ==> !Closes(front[i])
    ensures merged == front + [GO_WORK.BlockIndent(front + [close], |front|) + e, close]
  {
    var file := front + [close];
    assert forall i :: 0 <= i < |front| ==> file[i] == front[i];
    GO_WORK.FirstCloseExists(file, |front|);
    var k: nat :| GO_WORK.MergesAt(file, [e], merged, k);
    assert k == |front|;
    assert file[..|front|] == front && file[|front|..] == [close];
    var indent := GO_WORK.BlockIndent(file, |front|);
    assert Indented(indent, [e]) == [indent + e];
  }

  /** After the line for `e` was dropped, it comes back with another indentation. */
  lemma DroppedComesBack(required: seq<string>, e: string, merged: Lines)
    requires AllEntries(required) && Distinct(required) && e in required && !Harmless(e)
    requires GO_WORK.IsMerge(Lacking(required, e) + NEW_BLOCK + [USE_CLOSE], required, merged)
    ensures merged == Lacking(required, e) + NEW_BLOCK + [e, USE_CLOSE]
  {
    var front := Lacking(required, e) + NEW_BLOCK;
    ClosedReads(required, e);
    LackingLines(required, e);
    assert (front + [USE_CLOSE])[..|front|] == front;
    FrontIndent(required, e, front + [USE_CLOSE]);
    MergedBeforeLast(front, USE_CLOSE, required, e, merged);
    assert "" + e == e;
  }

  lemma FrontIndent(required: seq<string>, e: string, file: Lines)
    requires AllEntries(required) && !Harmless(e)
    requires var front := Lacking(required, e) + NEW_BLOCK; |front| <= |file| && file[..|front|] == front
    ensures GO_WORK.BlockIndent(file, |Lacking(required, e) + NEW_BLOCK|) == ""
  {
    var lacking, front := Lacking(required, e), Lacking(required, e) + NEW_BLOCK;
    LackingLines(required, e);
    forall i | 0 <= i < |front|
      ensures Indent(file[i]) == ""
    {
      assert file[i] == file[..|front|][i];
    }
    IndentOfFirst(file, |front|);
    LackingReads(required, e);
    assert front == lacking + ["", "use ("];
    OpenMarkerWorks();
    ParenEntryReads();
    EntryBehind(file, lacking, "", "use (");
  }

  /** A `use` block that is open after `p` has an entry by the second line behind it. */
  lemma EntryBehind(file: Lines, p: Lines, blank: string, entry: string)
    requires |p| + 2 <= |file| && file[..|p| + 2] == p + [blank, entry]
    requires GO_WORK.EndsInBlock(false, p) && !Closes(blank) && BlockEntry(entry).Some?
    ensures GO_WORK.FirstEntryIndent(file, |p| + 2).Some?
  {
    GO_WORK.ExtractConcat(false, p, [blank]);
    GO_WORK.OneLine(true, blank);
    assert file[..|p| + 1] == file[..|p| + 2][..|p| + 1] == p + [blank];
    assert file[|p| + 1] == file[..|p| + 2][|p| + 1] == entry;
    SomeEntryIndent(file, |p| + 1, |p| + 2);
  }

  lemma FirstRegeneration(required: seq<string>, e: string, once: Lines)
    requires AllEntries(required) && Distinct(required) && e in required && !Harmless(e)
    requires RewritesLines(Lacking(required, e), required, once)
    ensures once == Lacking(required, e) + NEW_BLOCK + ["\t" + e, USE_CLOSE]
  {
    var file, front := Lacking(required, e), Lacking(required, e) + NEW_BLOCK;
    StripLacking(required, e);
    LackingMisses(required, e, file);
    LackingLines(required, e);
    assert forall i :: 0 <= i < |file| ==> file[i] == front[i];
    AppendedMerge(file, required, e, once);
  }

  lemma AppendsAgain(required: seq<string>, e: string, twice: Lines)
    requires AllEntries(required) && Distinct(required) && e in required && !Harmless(e)
    requires GO_WORK.IsMerge(Lacking(required, e) + NEW_BLOCK, required, twice)
    ensures |twice| == |Lacking(required, e)| + 6
  {
    var front := Lacking(required, e) + NEW_BLOCK;
    LackingMisses(required, e, front);
    LackingLines(required, e);
    AppendedMerge(front, required, e, twice);
  }

  /** One required entry that is not harmless is enough: over a file that lacks it, the
      second regeneration does not give the first one's result. */
  lemma HarmfulNeverSettles(required: seq<string>, e: string, once: Lines, twice: Lines)
    requires AllEntries(required) && Distinct(required) && e in required && IsEntry(e) && !Harmless(e)
    requires RewritesLines(Lacking(required, e), required, once) && RewritesLines(once, required, twice)
    ensures twice != once
  {
    var front := Lacking(required, e) + NEW_BLOCK;
    FirstRegeneration(required, e, once);
    StripOnce(required, e);
    if OpensReplace(e) {
      assert front + [] == front;
      AppendsAgain(required, e, twice);
    } else if e == ")" {
      ClosingGrows(required, once, twice);
    } else {
      DroppedComesBack(required, e, twice);
      OtherIndentation(front, e, USE_CLOSE);
    }
  }

  lemma OtherIndentation(front: Lines, e: string, close: string)
    ensures front + ["\t" + e, close] != front + [e, close]
  {
    assert (front + ["\t" + e, close])[|front|] == "\t" + e && (front + [e, close])[|front|] == e;
  }

  lemma ClosingGrows(required: seq<string>, once: Lines, twice: Lines)
    requires AllEntries(required) && Distinct(required) && ")" in required
    requires RewritesLines(Lacking(required, ")"), required, once) && GO_WORK.IsMerge(once, required, twice)
    ensures |twice| > |once|
  {
    StripLacking(required, ")");
    LackingMisses(required, ")", Lacking(required, ")"));
    MergeSettlesIff(Lacking(required, ")"), required);
  }

  /** A file that does not end in a blank line is rewritten line by line. */
  lemma NoBlankEnd(file: File, required: seq<string>, written: File)
    requires file.newline && RUNTIME_REPLACE.Strip(file.lines) != []
    requires RUNTIME_REPLACE.Strip(file.lines)[|RUNTIME_REPLACE.Strip(file.lines)| - 1] != ""
    requires Regenerates(file, required, written)
    ensures RewritesLines(file.lines, required, written.lines) && written.newline
  {
  }

  lemma HarmfulFileNeverSettles(required: seq<string>, e: string, once: File, twice: File)
    requires AllEntries(required) && Distinct(required) && e in required && IsEntry(e) && !Harmless(e)
    requires Regenerates(File(Lacking(required, e), true), required, once) && Regenerates(once, required, twice)
    ensures twice != once && !EndsBlank(once)
  {
    StripLacking(required, e);
    NoBlankEnd(File(Lacking(required, e), true), required, once);
    FirstRegeneration(required, e, once.lines);
    StripOnce(required, e);
    NoBlankEnd(once, required, twice);
    HarmfulNeverSettles(required, e, once.lines, twice.lines);
  }

  // ---- the exact condition ------------------------------------------------------------------

  /** Whatever the existing file, the second regeneration writes what the first one wrote,
      unless that ends in two newlines. */
  ghost predicate RegenerationSettles(required: seq<string>) {
    forall existing, once, twice ::
      Regenerates(existing, required, once) && Regenerates(once, required, twice) && !EndsBlank(once) ==>
        twice == once
  }

  lemma HarmlessEntriesSettle(required: seq<string>)
    requires AllEntries(required) && AllHarmless(required)
    ensures RegenerationSettles(required)
  {
    forall existing, once, twice | Regenerates(existing, required, once) && Regenerates(once, required, twice)
      ensures !EndsBlank(once) ==> twice == once
    {
      HarmlessSettles(existing, required, once, twice);
    }
  }

  lemma FileMergeExists(file: File, required: seq<string>) returns (merged: File)
    ensures GO_WORK.IsFileMerge(file, required, merged)
  {
    var lines := GO_WORK.MergeExists(file.lines, required);
    merged := File(lines, file.newline || GO_WORK.Appends(file.lines, required));
  }

  lemma HarmfulEntryUnsettles(required: seq<string>, i: nat)
    requires AllEntries(required) && Distinct(required) && i < |required| && !Harmless(required[i])
    ensures !RegenerationSettles(required)
  {
    var existing := File(Lacking(required, required[i]), true);
    var once := FileMergeExists(StripFile(existing), required);
    assert Regenerates(existing, required, once);
    var twice := FileMergeExists(StripFile(once), required);
    assert Regenerates(once, required, twice);
    HarmfulFileNeverSettles(required, required[i], once, twice);
  }

  /** A generated file whose entries are distinct settles over every existing file exactly
      when none of them is `)`, opens a `replace` block or is a runtime replace clause. */
  lemma GoWorkRegenerationSettlesIff(generated: Lines)
    requires Distinct(GO_WORK.Extract(generated))
    ensures RegenerationSettles(GO_WORK.Extract(generated)) <==> AllHarmless(GO_WORK.Extract(generated))
  {
    var required := GO_WORK.Extract(generated);
    GeneratedAreEntries(generated);
    if AllHarmless(required) {
      HarmlessEntriesSettle(required);
    } else {
      var i: nat :| i < |required| && !Harmless(required[i]);
      HarmfulEntryUnsettles(required, i);
    }
  }

  const OPENER: string := "replace ("

  lemma OpenerIsEntry()
    ensures IsEntry(OPENER) && OpensReplace("\t" + OPENER) && OPENER != "("
  {
    TrimOfTrimmed(OPENER);
    AbsentSeparator(OPENER, "//");
    EntryLineTests(OPENER);
    assert OPENER[0] != '(';
  }

  lemma OpenerIsRead()
    ensures GO_WORK.Extract(["use " + OPENER]) == [OPENER]
  {
    OpenerIsEntry();
    UseLineReads(OPENER);
    GO_WORK.OneLine(false, "use " + OPENER);
  }

  lemma EmptyBlockReads(open: string, close: string)
    requires OpensUse(open) && Closes(close)
    ensures GO_WORK.Extract([open]) == [] && GO_WORK.Extract([open] + [close]) == []
    ensures GO_WORK.ClosesBlock([open] + [close], 1) && GO_WORK.BlockIndent([open] + [close], 1) == "\t"
  {
    var file := [open] + [close];
    GO_WORK.OneLine(false, open);
    GO_WORK.OneLine(true, close);
    GO_WORK.ExtractConcat(false, [open], [close]);
    assert file[..1] == [open] && file[..1][..0] == [];
    NoFirstIndent(file);
  }

  lemma NoFirstIndent(lines: Lines)
    requires lines != []
    ensures GO_WORK.FirstEntryIndent(lines, 1) == None
  {
    assert lines[..0] == [] && GO_WORK.FirstEntryIndent(lines, 0) == None;
  }

  lemma StripOpener(front: Lines, line: string, close: string)
    requires AllPlain(front) && OpensReplace(line) && Closes(close)
    requires !OpensReplace(close) && !IsRuntimeReplaceLine(close)
    ensures RUNTIME_REPLACE.Strip(front + [line, close]) == front
  {
    StripOutside([], front, [line, close]);
    ScanTwo(line, close);
    assert [] + front + [line, close] == front + [line, close] && [] + front + [] == front;
  }

  lemma {:induction false} NothingThere(lines: Lines, required: seq<string>)
    requires GO_WORK.Extract(lines) == []
    ensures GO_WORK.Missing(lines, required) == required
    decreases |required|
  {
    if required != [] {
      NothingThere(lines, required[..|required| - 1]);
    }
  }

  lemma MergedInEmptyBlock(open: string, close: string, required: seq<string>, merged: Lines)
    requires OpensUse(open) && !Closes(open) && Closes(close) && required != []
    requires GO_WORK.IsMerge([open] + [close], required, merged)
    ensures merged == [open] + Indented("\t", required) + [close]
  {
    var file := [open] + [close];
    EmptyBlockReads(open, close);
    NothingThere(file, required);
    GO_WORK.FirstCloseExists(file, 1);
    var k: nat :| GO_WORK.MergesAt(file, required, merged, k);
    assert k == 1 && file[..1] == [open] && file[1..] == [close];
  }

  lemma PutInEmptyBlock(open: string, close: string, e: string, once: Lines)
    requires OpensUse(open) && !Closes(open) && !OpensReplace(open) && !IsRuntimeReplaceLine(open)
    requires Closes(close) && !OpensReplace(close) && !IsRuntimeReplaceLine(close)
    requires RewritesLines([open] + [close], [e], once)
    ensures once == [open] + ["\t" + e, close]
  {
    assert [open] + [close] == [open, close];
    RUNTIME_REPLACE.ScanIsRemaining([], [open] + [close]);
    ScanTwo(open, close);
    MergedInEmptyBlock(open, close, [e], once);
    assert Indented("\t", [e]) == ["\t" + e];
  }

  lemma LostFromBlock(open: string, close: string, e: string, twice: Lines)
    requires OpensUse(open) && IsPlain(open) && TrimEnd(open) == open != ""
    requires Closes(close) && !OpensReplace(close) && !IsRuntimeReplaceLine(close) && OpensReplace("\t" + e)
    requires RewritesLines([open] + ["\t" + e, close], [e], twice)
    ensures RUNTIME_REPLACE.Strip([open] + ["\t" + e, close]) == [open]
    ensures twice == [open] + NEW_BLOCK + ["\t" + e, USE_CLOSE]
  {
    StripOpener([open], "\t" + e, close);
    GO_WORK.OneLine(false, open);
    NothingThere([open], [e]);
    AppendedMerge([open], [e], e, twice);
  }

  /** The entry `replace (`: what the first regeneration writes for it opens a block that the
      second one strips away. */
  lemma ReplaceEntryIsStripped(once: File, twice: File)
    requires Regenerates(File([USE_OPEN, USE_CLOSE], true), GO_WORK.Extract(["use " + OPENER]), once)
    requires Regenerates(once, GO_WORK.Extract(["use " + OPENER]), twice)
    ensures once == File([USE_OPEN] + ["\t" + OPENER, USE_CLOSE], true)
    ensures StripFile(once) == File([USE_OPEN], true)
    ensures twice == File([USE_OPEN] + NEW_BLOCK + ["\t" + OPENER, USE_CLOSE], true)
    ensures twice != once
  {
    OpenerIsRead();
    OpenerIsEntry();
    MarkersAreInert();
    OpenMarkerWorks();
    assert [USE_OPEN, USE_CLOSE] == [USE_OPEN] + [USE_CLOSE];
    RUNTIME_REPLACE.ScanIsRemaining([], [USE_OPEN] + [USE_CLOSE]);
    ScanTwo(USE_OPEN, USE_CLOSE);
    NoBlankEnd(File([USE_OPEN, USE_CLOSE], true), [OPENER], once);
    PutInEmptyBlock(USE_OPEN, USE_CLOSE, OPENER, once.lines);
    StripOpener([USE_OPEN], "\t" + OPENER, USE_CLOSE);
    NoBlankEnd(once, [OPENER], twice);
    ConstantLines();
    assert IsPlain(OPEN_BLOCK[0]);
    LostFromBlock(USE_OPEN, USE_CLOSE, OPENER, twice.lines);
  }

  // ---- why distinct entries -----------------------------------------------------------------

  const USE_PAREN: string := "use )"

  /** A line that is read inside and outside of a block. */
  lemma UseParenReads()
    ensures GO_WORK.ExtractFrom(true, ["\t" + USE_PAREN]) == [USE_PAREN]
    ensures GO_WORK.EndsInBlock(true, ["\t" + USE_PAREN])
    ensures GO_WORK.ExtractFrom(false, ["\t" + USE_PAREN]) == [")"]
    ensures !GO_WORK.EndsInBlock(false, ["\t" + USE_PAREN])
  {
    TrimOfTrimmed(")");
    AbsentSeparator(")", "//");
    UseLineReads(")");
    TrimOfTrimmed(USE_PAREN);
    AbsentSeparator(USE_PAREN, "//");
    TrimIndented("\t", USE_PAREN);
    assert "use " + ")" == USE_PAREN;
    GO_WORK.OneLine(true, "\t" + USE_PAREN);
    GO_WORK.OneLine(false, "\t" + USE_PAREN);
  }

  /** An entry given twice can be read once inside the block and once, as `)`, behind it. */
  lemma DuplicatesRead(open: string, line: string, paren: string, close: string, a: string, b: string)
    requires OpensUse(open) && Closes(paren) && Closes(close)
    requires GO_WORK.ExtractFrom(true, [line]) == [a] && GO_WORK.EndsInBlock(true, [line])
    requires GO_WORK.ExtractFrom(false, [line]) == [b] && !GO_WORK.EndsInBlock(false, [line])
    ensures GO_WORK.Extract([open] + [line, paren, line] + [close]) == [a, b]
  {
    GO_WORK.OneLine(false, open);
    GO_WORK.OneLine(true, paren);
    GO_WORK.OneLine(false, close);
    assert [open] + [line, paren, line] + [close] == [open] + ([line] + ([paren] + ([line] + [close])));
    GO_WORK.ExtractConcat(false, [open], [line] + ([paren] + ([line] + [close])));
    GO_WORK.ExtractConcat(true, [line], [paren] + ([line] + [close]));
    GO_WORK.ExtractConcat(true, [paren], [line] + [close]);
    GO_WORK.ExtractConcat(false, [line], [close]);
  }

  lemma DuplicatesPutIn(open: string, close: string, a: string, merged: Lines)
    requires OpensUse(open) && !Closes(open) && Closes(close) && Closes("\t" + ")")
    requires GO_WORK.ExtractFrom(true, ["\t" + a]) == [a] && GO_WORK.EndsInBlock(true, ["\t" + a])
    requires GO_WORK.ExtractFrom(false, ["\t" + a]) == [")"] && !GO_WORK.EndsInBlock(false, ["\t" + a])
    requires GO_WORK.IsMerge([open] + [close], [a, ")", a], merged)
    ensures GO_WORK.Extract(merged) == [a, ")"]
  {
    MergedInEmptyBlock(open, close, [a, ")", a], merged);
    assert Indented("\t", [a, ")", a]) == ["\t" + a, "\t" + ")", "\t" + a];
    DuplicatesRead(open, "\t" + a, "\t" + ")", close, a, ")");
  }

  /** With an entry required twice a merge can settle although `)` was missing. */
  lemma DuplicatesMaySettle(merged: Lines)
    requires GO_WORK.IsMerge([USE_OPEN] + [USE_CLOSE], [USE_PAREN, ")", USE_PAREN], merged)
    ensures ")" in GO_WORK.Missing([USE_OPEN] + [USE_CLOSE], [USE_PAREN, ")", USE_PAREN])
    ensures GO_WORK.Missing(merged, [USE_PAREN, ")", USE_PAREN]) == []
  {
    var required := [USE_PAREN, ")", USE_PAREN];
    MarkersAreInert();
    OpenMarkerWorks();
    ClosingParenCloses("\t");
    UseParenReads();
    EmptyBlockReads(USE_OPEN, USE_CLOSE);
    NothingThere([USE_OPEN] + [USE_CLOSE], required);
    DuplicatesPutIn(USE_OPEN, USE_CLOSE, USE_PAREN, merged);
    GO_WORK.NothingMissing(merged, required);
  }
}
