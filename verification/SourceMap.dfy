/** Byte offsets to line and column, through a table of line starts. */
module SourceMap {
  import opened Wrappers

  const U32_SIZE := 0x1_0000_0000

  type U32 = n: nat | n < U32_SIZE

  datatype SourceFile = SourceFile(id: nat, path: string, lineOffsets: seq<U32>)

  datatype ResolvedLoc = ResolvedLoc(file: string, line: U32, column: U32)

  /** No position, a position, or a column whose arithmetic leaves 32 bits. */
  datatype Resolution = Unresolved | Located(loc: ResolvedLoc) | Overflow

  predicate Ascending(s: seq<nat>) {
    forall i, j :: 0 <= i < j < |s| ==> s[i] < s[j]
  }

  // ---- building the table ---------------------------------------------------------

  /** Offset 0 and the offset after each newline. */
  function LineStarts(source: string): (starts: seq<nat>)
    ensures starts != []
  {
    if source == "" then [0]
    else
      var front := LineStarts(source[..|source| - 1]);
      if source[|source| - 1] == '\n' then front + [|source|] else front
  }

  /** The stored table: line starts and, unless a line starts there, the end of the text. */
  function LineOffsets(source: string): seq<nat> {
    var starts := LineStarts(source);
    if starts[|starts| - 1] == |source| then starts else starts + [|source|]
  }

  function Truncate(n: nat): U32 {
    n % U32_SIZE
  }

  /** The table as stored: line starts cut to 32 bits, the end capped at the largest of them. */
  function StoredOffsets(source: string): seq<U32> {
    var starts := TruncateAll(LineStarts(source));
    var end := if |source| < U32_SIZE then |source| else U32_SIZE - 1;
    if starts[|starts| - 1] == end then starts else starts + [end]
  }

  function TruncateAll(starts: seq<nat>): (cut: seq<U32>)
    ensures |cut| == |starts|
  {
    seq(|starts|, i requires 0 <= i < |starts| => Truncate(starts[i]))
  }

  lemma {:induction false} LineStartsBound(source: string)
    ensures forall i :: 0 <= i < |LineStarts(source)| ==> LineStarts(source)[i] <= |source|
  {
    if source != "" {
      LineStartsBound(source[..|source| - 1]);
    }
  }

  /** Below 4 GiB nothing is cut. */
  lemma StoredIsExact(source: string)
    requires |source| < U32_SIZE
    ensures StoredOffsets(source) == LineOffsets(source)
  {
    LineStartsBound(source);
    assert TruncateAll(LineStarts(source)) == LineStarts(source);
  }

  method BuildSourceFile(id: nat, path: string, source: string) returns (file: SourceFile)
    ensures file.id == id && file.path == path
    ensures file.lineOffsets == StoredOffsets(source)
    ensures |source| < U32_SIZE ==> file.lineOffsets == LineOffsets(source)
  {
    var offsets: seq<U32> := [0];
    for i := 0 to |source|
      invariant offsets == TruncateAll(LineStarts(source[..i]))
    {
      assert source[..i + 1][..i] == source[..i];
      if source[i] == '\n' {
        offsets := offsets + [Truncate(i + 1)];
      }
    }
    assert source[..|source|] == source;
    var sourceLen := if |source| < U32_SIZE then |source| else U32_SIZE - 1;
    if offsets[|offsets| - 1] != sourceLen {
      offsets := offsets + [sourceLen];
    }
    file := SourceFile(id, path, offsets);
    if |source| < U32_SIZE {
      StoredIsExact(source);
    }
  }

  // ---- looking an offset up -----------------------------------------------------------

  /** `i` is the last entry not after `x`. */
  predicate IsLineIndex(offsets: seq<nat>, x: nat, i: nat) {
    && i < |offsets| && offsets[i] <= x
    && (i + 1 < |offsets| ==> x < offsets[i + 1])
  }

  method BinarySearch(s: seq<nat>, x: nat) returns (found: bool, i: nat)
    ensures found ==> i < |s| && s[i] == x
    ensures !found ==> i <= |s|
    ensures !found && Ascending(s) ==>
              (forall k :: 0 <= k < i ==> s[k] < x) && (forall k :: i <= k < |s| ==> x < s[k])
  {
    var lo, hi := 0, |s|;
    while lo < hi
      invariant 0 <= lo <= hi <= |s|
      invariant Ascending(s) ==> forall k :: 0 <= k < lo ==> s[k] < x
      invariant Ascending(s) ==> forall k :: hi <= k < |s| ==> x < s[k]
    {
      var mid := (lo + hi) / 2;
      if s[mid] == x {
        return true, mid;
      } else if s[mid] < x {
        lo := mid + 1;
      } else {
        hi := mid;
      }
    }
    found, i := false, lo;
  }

  /** The table without its end entry, unless that is all there is. */
  function Searchable(offsets: seq<nat>): seq<nat> {
    if |offsets| > 1 then offsets[..|offsets| - 1] else offsets
  }

  /** What a lookup in `offsets` answers for offset `start`. */
  ghost predicate Locates(offsets: seq<nat>, start: nat, line: nat, column: nat) {
    && line >= 1 && column >= 1
    && IsLineIndex(Searchable(offsets), start, line - 1)
    && Searchable(offsets)[line - 1] + column - 1 == start
  }

  function FindFile(files: seq<SourceFile>, id: nat): Option<SourceFile> {
    if files == [] then None
    else if files[0].id == id then Some(files[0])
    else FindFile(files[1..], id)
  }

  /** No such file, no table, or an offset past its last entry. */
  predicate OutOfTable(files: seq<SourceFile>, id: nat, start: nat) {
    match FindFile(files, id)
    case None => true
    case Some(file) =>
      file.lineOffsets == [] || start >= U32_SIZE || start > file.lineOffsets[|file.lineOffsets| - 1]
  }

  /** Where a sorted table has no 32-bit column for an offset: before its first entry, or at
      the largest offset when that is on a single line. */
  predicate Overflows(offsets: seq<U32>, start: nat)
    requires offsets != []
  {
    var s := Searchable(offsets);
    start < s[0] || (start == U32_SIZE - 1 && s == [0])
  }

  /** The answer read off entry `i`: lines wrap silently, columns do not. */
  predicate ReadOff(s: seq<nat>, start: nat, i: nat, line: nat, column: nat) {
    i < |s| && line == Truncate(i + 1) && s[i] + column == start + 1
  }

  /** An ascending list of 32-bit numbers has at most 2^32 of them. */
  lemma {:induction false} AscendingFits(s: seq<nat>, i: nat)
    requires Ascending(s) && i < |s|
    ensures i <= s[i]
  {
    if i > 0 {
      AscendingFits(s, i - 1);
    }
  }

  /** The entry a search of a sorted table ends at. */
  lemma SearchedIndex(offsets: seq<U32>, start: nat, i: nat)
    requires offsets != [] && Ascending(offsets) && start < U32_SIZE && i < |Searchable(offsets)|
    requires var s := Searchable(offsets);
             IsLineIndex(s, start, i) || (i == 0 && start < s[0])
    ensures Truncate(i + 1) == i + 1
    ensures var lineStart := Searchable(offsets)[i];
            Overflows(offsets, start) <==> start < lineStart || start - lineStart + 1 >= U32_SIZE
  {
    var s := Searchable(offsets);
    AscendingFits(offsets, |offsets| - 1);
    AscendingFits(offsets, i);
    if |s| > 1 {
      assert s[0] < s[1] == offsets[1] < offsets[|offsets| - 1];
    }
  }

  /** Resolving the start of a span. Where the table is sorted, as the one built from a text
      below 4 GiB is, the answer is the position in the text. */
  method Resolve(files: seq<SourceFile>, id: nat, start: nat) returns (r: Resolution)
    ensures r.Unresolved? <==> OutOfTable(files, id, start)
    ensures r.Located? ==>
              var file := FindFile(files, id).value;
              && r.loc.file == file.path
              && exists i: nat :: ReadOff(Searchable(file.lineOffsets), start, i, r.loc.line, r.loc.column)
    ensures !r.Unresolved? && Ascending(FindFile(files, id).value.lineOffsets) ==>
              var offsets := FindFile(files, id).value.lineOffsets;
              && (r.Overflow? <==> Overflows(offsets, start))
              && (r.Located? ==> Locates(offsets, start, r.loc.line, r.loc.column))
  {
    var file := FindFile(files, id);
    if file.None? || file.value.lineOffsets == [] {
      return Unresolved;
    }
    var offsets := file.value.lineOffsets;
    if start >= U32_SIZE || start > offsets[|offsets| - 1] {
      return Unresolved;
    }
    var searchable := Searchable(offsets);
    var found, i := BinarySearch(searchable, start);
    var lineIdx := if found then i else if i == 0 then 0 else i - 1;
    var lineStart := searchable[lineIdx];
    if Ascending(offsets) {
      SearchedIndex(offsets, start, lineIdx);
    }
    if start < lineStart || start - lineStart + 1 >= U32_SIZE {
      return Overflow;
    }
    var column: U32 := start - lineStart + 1;
    assert ReadOff(searchable, start, lineIdx, Truncate(lineIdx + 1), column);
    r := Located(ResolvedLoc(file.value.path, Truncate(lineIdx + 1), column));
  }

  // ---- against counting -----------------------------------------------------------------

  function Newlines(text: string): nat {
    if text == "" then 0
    else Newlines(text[..|text| - 1]) + (if text[|text| - 1] == '\n' then 1 else 0)
  }

  /** Bytes after the last newline. */
  function SinceNewline(text: string): nat {
    if text == "" || text[|text| - 1] == '\n' then 0
    else SinceNewline(text[..|text| - 1]) + 1
  }

  lemma {:induction false} LineStartsShape(source: string)
    ensures Ascending(LineStarts(source))
    ensures LineStarts(source)[0] == 0
    ensures |LineStarts(source)| == 1 + Newlines(source)
    ensures LineStarts(source)[|LineStarts(source)| - 1] + SinceNewline(source) == |source|
  {
    if source != "" {
      LineStartsShape(source[..|source| - 1]);
    }
  }

  /** The line starts up to an offset are those of the text before it. */
  lemma {:induction false} LineStartsPrefix(source: string, k: nat)
    requires k <= |source|
    ensures var before, all := LineStarts(source[..k]), LineStarts(source);
            && |before| <= |all| && all[..|before|] == before
            && forall j :: |before| <= j < |all| ==> all[j] > k
  {
    if k == |source| {
      assert source[..k] == source;
    } else {
      var front := source[..|source| - 1];
      assert front[..k] == source[..k];
      LineStartsPrefix(front, k);
    }
  }

  lemma BuiltTableIsAscending(source: string)
    ensures Ascending(LineOffsets(source)) && LineOffsets(source)[0] == 0
    ensures LineOffsets(source)[|LineOffsets(source)| - 1] == |source|
  {
    LineStartsShape(source);
  }

  lemma LineIndexIsMonotone(offsets: seq<nat>, x: nat, y: nat, i: nat, j: nat)
    requires Ascending(offsets) && x <= y
    requires IsLineIndex(offsets, x, i) && IsLineIndex(offsets, y, j)
    ensures i <= j
  {
  }

  lemma LineIndexIsUnique(offsets: seq<nat>, x: nat, i: nat, j: nat)
    requires Ascending(offsets) && IsLineIndex(offsets, x, i) && IsLineIndex(offsets, x, j)
    ensures i == j
  {
    LineIndexIsMonotone(offsets, x, x, i, j);
    LineIndexIsMonotone(offsets, x, x, j, i);
  }

  predicate EndsLine(source: string) {
    source != "" && source[|source| - 1] == '\n'
  }

  /** The part of the table that is searched: the starts of the lines that hold text. */
  lemma SearchedLineStarts(source: string)
    ensures Searchable(LineOffsets(source)) ==
            LineStarts(if EndsLine(source) then source[..|source| - 1] else source)
  {
    LineStartsShape(source);
    if EndsLine(source) {
      LineStartsShape(source[..|source| - 1]);
    }
  }

  /** The line of an offset is found by counting the newlines before it. */
  lemma LineIndexCounts(source: string, start: nat)
    requires start <= |source|
    ensures var i := Newlines(source[..start]);
            && IsLineIndex(LineStarts(source), start, i)
            && LineStarts(source)[i] + SinceNewline(source[..start]) == start
  {
    var before := LineStarts(source[..start]);
    LineStartsPrefix(source, start);
    LineStartsShape(source[..start]);
    assert LineStarts(source)[|before| - 1] == before[|before| - 1];
  }

  /** A lookup at `start` that searches the line starts of `text`. */
  lemma LookupCountsIn(text: string, start: nat, line: nat, column: nat)
    requires start <= |text| && line >= 1
    requires IsLineIndex(LineStarts(text), start, line - 1) && LineStarts(text)[line - 1] + column - 1 == start
    ensures line == 1 + Newlines(text[..start]) && column == 1 + SinceNewline(text[..start])
  {
    LineStartsShape(text);
    LineIndexCounts(text, start);
    LineIndexIsUnique(LineStarts(text), start, line - 1, Newlines(text[..start]));
  }

  lemma LookupInside(source: string, start: nat, line: nat, column: nat)
    requires start <= |source| && !(start == |source| && EndsLine(source))
    requires Locates(LineOffsets(source), start, line, column)
    ensures line == 1 + Newlines(source[..start]) && column == 1 + SinceNewline(source[..start])
  {
    SearchedLineStarts(source);
    var text := if EndsLine(source) then source[..|source| - 1] else source;
    assert text[..start] == source[..start];
    LookupCountsIn(text, start, line, column);
  }

  lemma LookupAtEnd(source: string, line: nat, column: nat)
    requires EndsLine(source) && Locates(LineOffsets(source), |source|, line, column)
    ensures line == Newlines(source) && column == 2 + SinceNewline(source[..|source| - 1])
  {
    var front := source[..|source| - 1];
    SearchedLineStarts(source);
    LineStartsShape(front);
    var starts := LineStarts(front);
    assert Searchable(LineOffsets(source)) == starts;
    LineIndexIsUnique(starts, |source|, line - 1, |starts| - 1);
  }

  /** The line and column a lookup gives, by counting the text before the offset. At the
      very end of a text that ends in a newline the position stays on the last line. */
  lemma LookupCountsNewlines(source: string, start: nat, line: nat, column: nat)
    requires start <= |source| && Locates(LineOffsets(source), start, line, column)
    ensures !(start == |source| && EndsLine(source)) ==>
              line == 1 + Newlines(source[..start]) && column == 1 + SinceNewline(source[..start])
    ensures start == |source| && EndsLine(source) ==>
              line == Newlines(source) && column == 2 + SinceNewline(source[..start - 1])
  {
    if start == |source| && EndsLine(source) {
      LookupAtEnd(source, line, column);
    } else {
      LookupInside(source, start, line, column);
    }
  }

  /** Later offsets have later positions, the end of the text included. */
  lemma PositionsIncrease(source: string, a: nat, b: nat, lineA: nat, colA: nat, lineB: nat, colB: nat)
    requires a < b <= |source|
    requires Locates(LineOffsets(source), a, lineA, colA) && Locates(LineOffsets(source), b, lineB, colB)
    ensures lineA < lineB || (lineA == lineB && colA < colB)
  {
    BuiltTableIsAscending(source);
  }

  /** The one overflow in a text: the end of one of the largest size, on its first line. */
  lemma OverflowsAtEndOnly(source: string, start: nat)
    requires start <= |source| < U32_SIZE
    ensures Overflows(StoredOffsets(source), start) <==>
              start == |source| == U32_SIZE - 1 && Newlines(source[..start - 1]) == 0
  {
    StoredIsExact(source);
    SearchedLineStarts(source);
    var front := source[..if source == "" then 0 else |source| - 1];
    var text := if EndsLine(source) then front else source;
    LineStartsShape(text);
    assert source != "" ==> Newlines(text) == Newlines(front);
  }

  /** Every offset of a text has its counted position, but for one at which the column does not
      fit; no offset past the end has one. */
  method ResolveInText(path: string, source: string, start: nat) returns (r: Resolution)
    requires |source| < U32_SIZE
    ensures r.Unresolved? <==> start > |source|
    ensures r.Overflow? <==> start == |source| == U32_SIZE - 1 && Newlines(source[..start - 1]) == 0
    ensures r.Located? && !(start == |source| && EndsLine(source)) ==>
              r.loc.line == 1 + Newlines(source[..start]) && r.loc.column == 1 + SinceNewline(source[..start])
    ensures r.Located? && start == |source| && EndsLine(source) ==>
              r.loc.line == Newlines(source) && r.loc.column == 2 + SinceNewline(source[..start - 1])
  {
    var file := BuildSourceFile(1, path, source);
    BuiltTableIsAscending(source);
    r := Resolve([file], 1, start);
    if start <= |source| {
      OverflowsAtEndOnly(source, start);
    }
    if r.Located? {
      LookupCountsNewlines(source, start, r.loc.line, r.loc.column);
    }
  }
}
