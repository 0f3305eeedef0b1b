/** Keeping a hand-edited `go.work`: stripping the stale runtime `replace`, and
    merging the required `use` entries. */
module GoWork {
  import opened Wrappers
  import opened Text

  type Lines = seq<string>

  // ---- a text and its lines ----------------------------------------------------------

  /** A text as `lines` reads it: its lines, and whether the last one ends in a newline. */
  datatype File = File(lines: Lines, newline: bool) {
    predicate Valid() {
      (forall l :: l in lines ==> '\n' !in l) && Ended()
    }

    predicate Ended() {
      if newline then lines != [] else lines == [] || lines[|lines| - 1] != ""
    }

    function Text(): string {
      JoinWith(if newline then lines + [""] else lines, '\n')
    }
  }

  function ReadFile(text: string): File {
    FromParts(SplitOn(text, '\n'))
  }

  /** An empty last part means that the text ends in a newline. */
  function FromParts(parts: seq<string>): File
    requires parts != []
  {
    if parts[|parts| - 1] != "" then File(parts, false) else File(parts[..|parts| - 1], |parts| > 1)
  }

  lemma ReadJoined(lines: Lines)
    requires lines != [] && forall l :: l in lines ==> '\n' !in l
    ensures ReadFile(JoinWith(lines, '\n')) == FromParts(lines)
  {
    SplitJoined(lines, '\n');
  }

  /** A file and its text determine each other. */
  lemma ReadText(file: File)
    requires file.Valid()
    ensures ReadFile(file.Text()) == file
  {
    var lines := file.lines;
    if file.newline {
      ReadJoined(lines + [""]);
      assert (lines + [""])[..|lines|] == lines;
    } else if lines != [] {
      ReadJoined(lines);
    }
  }

  /** Lines joined by newlines, with one more at the end when the original had one and the
      joined text does not. A last empty line is only that newline. */
  function Joined(lines: Lines, newline: bool): File {
    if lines == [] || lines == [""] then if newline then File([""], true) else File([], false)
    else if lines[|lines| - 1] == "" then File(lines[..|lines| - 1], true)
    else File(lines, newline)
  }

  lemma {:induction false} JoinSnoc(parts: seq<string>, last: string, sep: char)
    requires parts != []
    ensures JoinWith(parts + [last], sep) == JoinWith(parts, sep) + [sep] + last
    decreases |parts|
  {
    assert (parts + [last])[0] == parts[0] && (parts + [last])[1..] == parts[1..] + [last];
    if |parts| == 1 {
      assert parts + [last] == [parts[0]] + [last] && [last][1..] == [];
    } else {
      JoinSnoc(parts[1..], last, sep);
    }
  }

  lemma {:induction false} JoinEnd(parts: seq<string>, sep: char)
    requires parts != [] && forall p :: p in parts ==> sep !in p
    ensures var text := JoinWith(parts, sep);
            (text != "" && text[|text| - 1] == sep) <==> |parts| > 1 && parts[|parts| - 1] == ""
    ensures JoinWith(parts, sep) == "" <==> parts == [""]
  {
    var front, last := parts[..|parts| - 1], parts[|parts| - 1];
    assert parts == front + [last] && last in parts;
    if front != [] {
      JoinSnoc(front, last, sep);
    }
  }

  /** That is the text the code puts together. */
  lemma JoinedText(lines: Lines, newline: bool)
    requires forall l :: l in lines ==> '\n' !in l
    ensures Joined(lines, newline).Valid()
    ensures Joined(lines, newline).Text() ==
              var text := JoinWith(lines, '\n');
              if newline && !EndsWith(text, "\n") then text + "\n" else text
  {
    var text := JoinWith(lines, '\n');
    if lines != [] {
      var front, last := lines[..|lines| - 1], lines[|lines| - 1];
      assert lines == front + [last];
      JoinEnd(lines, '\n');
      JoinSnoc(lines, "", '\n');
      assert forall l :: l in front ==> l in lines;
    }
    JoinSnoc([""], "", '\n');
    assert [""] + [""] == ["", ""];
    assert EndsWith(text, "\n") <==> text != "" && text[|text| - 1] == '\n';
  }

  // ---- tests on one line -----------------------------------------------------------

  /** The part before the first occurrence of `sep`, if there is one. */
  function BeforeFirst(s: string, sep: string): Option<string>
    requires sep != ""
  {
    if |s| < |sep| then None
    else if StartsWith(s, sep) then Some("")
    else
      match BeforeFirst(s[1..], sep)
      case None => None
      case Some(rest) => Some([s[0]] + rest)
  }

  /** The first word, or nothing for blank text. */
  function FirstWord(s: string): string {
    TakeWord(TrimStart(s))
  }

  function TakeWord(s: string): string {
    if s == "" || IsSpace(s[0]) then "" else [s[0]] + TakeWord(s[1..])
  }

  const MODULE := "lazuli.dev/runtime"

  predicate IsRuntimeReplaceEntry(clause: string) {
    match BeforeFirst(Trim(clause), "=>")
    case None => false
    case Some(lhs) => FirstWord(lhs) == MODULE
  }

  predicate OpensReplace(line: string) {
    Trim(line) == "replace ("
  }

  predicate Closes(line: string) {
    Trim(line) == ")"
  }

  predicate IsRuntimeBlockLine(line: string) {
    IsRuntimeReplaceEntry(Trim(line))
  }

  predicate IsRuntimeReplaceLine(line: string) {
    var trimmed := Trim(line);
    StartsWith(trimmed, "replace ") && IsRuntimeReplaceEntry(trimmed[|"replace "|..])
  }

  // ---- stripping, by the structure of the file ----------------------------------------

  /** A `replace (` block that is never closed runs to the end of the file. */
  datatype Item =
    | Single(line: string)
    | Block(open: string, body: Lines, close: string)
    | Unclosed(open: string, body: Lines)

  /** The scan in terms of its four line tests: what opens and closes a block, and what
      is dropped outside and inside one. */
  datatype Rules = Rules(opens: string -> bool, closes: string -> bool,
                         dropsLine: string -> bool, dropsEntry: string -> bool) {
    /** Lines before the first closing one. */
    function BodyLength(lines: Lines): (k: nat)
      ensures k <= |lines|
      ensures forall i :: 0 <= i < k ==> !closes(lines[i])
      ensures k < |lines| ==> closes(lines[k])
    {
      if lines == [] || closes(lines[0]) then 0 else 1 + BodyLength(lines[1..])
    }

    function Parse(lines: Lines): seq<Item> {
      if lines == [] then []
      else if !opens(lines[0]) then [Single(lines[0])] + Parse(lines[1..])
      else
        var rest := lines[1..];
        var k := BodyLength(rest);
        if k == |rest| then [Unclosed(lines[0], rest)]
        else [Block(lines[0], rest[..k], rest[k])] + Parse(rest[k + 1..])
    }

    static function ItemLines(item: Item): Lines {
      match item
      case Single(line) => [line]
      case Block(open, body, close) => [open] + body + [close]
      case Unclosed(open, body) => [open] + body
    }

    static function Unparse(items: seq<Item>): Lines {
      if items == [] then [] else ItemLines(items[0]) + Unparse(items[1..])
    }

    function WithoutRuntime(body: Lines): Lines {
      if body == [] then []
      else if dropsEntry(body[0]) then WithoutRuntime(body[1..])
      else [body[0]] + WithoutRuntime(body[1..])
    }

    /** What is left of one item: runtime lines go, and so do closed blocks left empty. */
    function StripItem(item: Item): Option<Item> {
      match item
      case Single(line) => if dropsLine(line) then None else Some(item)
      case Block(open, body, close) =>
        if WithoutRuntime(body) == [] then None else Some(Block(open, WithoutRuntime(body), close))
      case Unclosed(open, body) => Some(Unclosed(open, WithoutRuntime(body)))
    }

    function StripItems(items: seq<Item>): seq<Item> {
      if items == [] then []
      else
        match StripItem(items[0])
        case None => StripItems(items[1..])
        case Some(item) => [item] + StripItems(items[1..])
    }

    function Strip(lines: Lines): Lines {
      Unparse(StripItems(Parse(lines)))
    }

    /** What the scan will still output: `buf` holds an open block and its survivors, if any. */
    function Remaining(buf: Lines, lines: Lines): Lines {
      if buf == [] then Strip(lines) else
        var k := BodyLength(lines);
        var kept := buf + WithoutRuntime(lines[..k]);
        if k == |lines| then kept
        else if |kept| == 1 then Strip(lines[k + 1..])
        else kept + [lines[k]] + Strip(lines[k + 1..])
    }

    lemma RemainingOpens(lines: Lines)
      requires lines != [] && opens(lines[0])
      ensures Remaining([], lines) == Remaining([lines[0]], lines[1..])
    {
      var rest := lines[1..];
      var k := BodyLength(rest);
      if k == |rest| {
        assert rest[..k] == rest;
        var item := Unclosed(lines[0], rest);
        assert Parse(lines) == [item];
        UnparseOne(Unclosed(lines[0], WithoutRuntime(rest)));
        assert StripItems([item]) == [Unclosed(lines[0], WithoutRuntime(rest))];
      } else {
        var item := Block(lines[0], rest[..k], rest[k]);
        assert Parse(lines) == [item] + Parse(rest[k + 1..]);
      }
    }

    static lemma UnparseOne(item: Item)
      ensures Unparse([item]) == ItemLines(item)
    {
      assert [item][1..] == [] && ItemLines(item) + [] == ItemLines(item);
    }

    lemma RemainingInside(buf: Lines, lines: Lines)
      requires buf != [] && lines != [] && !closes(lines[0])
      ensures Remaining(buf, lines) == Remaining(if dropsEntry(lines[0]) then buf else buf + [lines[0]], lines[1..])
    {
      var k, rest := BodyLength(lines), lines[1..];
      assert lines[..k][1..] == rest[..k - 1];
      assert k < |lines| ==> lines[k + 1..] == rest[k..];
      if !dropsEntry(lines[0]) {
        assert buf + ([lines[0]] + WithoutRuntime(rest[..k - 1])) == (buf + [lines[0]]) + WithoutRuntime(rest[..k - 1]);
      }
    }

    /** The scan itself, line by line. */
    function Scan(buf: Lines, lines: Lines): Lines
      decreases |lines|
    {
      if lines == [] then buf
      else if buf != [] then
        if closes(lines[0]) then
          var after := Scan([], lines[1..]);
          if |buf| > 1 then buf + [lines[0]] + after else after
        else Scan(if dropsEntry(lines[0]) then buf else buf + [lines[0]], lines[1..])
      else if opens(lines[0]) then Scan([lines[0]], lines[1..])
      else
        var after := Scan([], lines[1..]);
        if dropsLine(lines[0]) then after else [lines[0]] + after
    }

    lemma {:induction false} ScanIsRemaining(buf: Lines, lines: Lines)
      ensures Scan(buf, lines) == Remaining(buf, lines)
      decreases |lines|
    {
      if lines == [] {
        assert buf + [] == buf;
      } else if buf != [] && closes(lines[0]) {
        ScanIsRemaining([], lines[1..]);
      } else if buf != [] {
        RemainingInside(buf, lines);
        ScanIsRemaining(if dropsEntry(lines[0]) then buf else buf + [lines[0]], lines[1..]);
      } else if opens(lines[0]) {
        RemainingOpens(lines);
        ScanIsRemaining([lines[0]], lines[1..]);
      } else {
        ScanIsRemaining([], lines[1..]);
      }
    }

    method StripLines(lines: Lines) returns (outLines: Lines)
      ensures outLines == Strip(lines)
    {
      outLines := [];
      var inReplaceBlock := false;
      var blockBuf: Lines := [];
      var blockKeptAny := false;
      for i := 0 to |lines|
        invariant (inReplaceBlock <==> blockBuf != []) && (blockKeptAny <==> |blockBuf| > 1)
        invariant Scan([], lines) == outLines + Scan(blockBuf, lines[i..])
      {
        var line := lines[i];
        assert lines[i..][1..] == lines[i + 1..];
        if inReplaceBlock {
          if closes(line) {
            inReplaceBlock := false;
            if blockKeptAny {
              outLines := outLines + blockBuf + [line];
            }
            blockBuf := [];
            blockKeptAny := false;
            continue;
          }
          if dropsEntry(line) {
            continue;
          }
          blockBuf := blockBuf + [line];
          blockKeptAny := true;
          continue;
        }
        if opens(line) {
          inReplaceBlock := true;
          blockBuf := [line];
          blockKeptAny := false;
          continue;
        }
        if dropsLine(line) {
          continue;
        }
        outLines := outLines + [line];
      }
      if inReplaceBlock {
        outLines := outLines + blockBuf;
      }
      ScanIsRemaining([], lines);
    }

    // ---- stripping: faithful, complete, idempotent ---------------------------------------

    /** Items as parsing yields them. */
    predicate Parsed(items: seq<Item>) {
      forall i :: 0 <= i < |items| ==>
        match items[i]
        case Single(line) => !opens(line)
        case Block(open, body, close) => opens(open) && (forall b :: b in body ==> !closes(b)) && closes(close)
        case Unclosed(open, body) => opens(open) && (forall b :: b in body ==> !closes(b)) && i == |items| - 1
    }

    static lemma UnparseCons(item: Item, items: seq<Item>)
      ensures Unparse([item] + items) == ItemLines(item) + Unparse(items)
    {
      assert ([item] + items)[1..] == items;
    }

    /** A body without closing lines, followed by a closing line or nothing. */
    lemma {:induction false} BodyLengthOf(body: Lines, rest: Lines)
      requires forall b :: b in body ==> !closes(b)
      requires rest == [] || closes(rest[0])
      ensures BodyLength(body + rest) == |body|
      decreases |body|
    {
      if body == [] {
        assert body + rest == rest;
      } else {
        assert (body + rest)[0] == body[0] && (body + rest)[1..] == body[1..] + rest;
        BodyLengthOf(body[1..], rest);
      }
    }

    lemma ParseBlock(open: string, body: Lines, close: string, rest: Lines)
      requires opens(open) && (forall b :: b in body ==> !closes(b)) && closes(close)
      ensures Parse(([open] + body + [close]) + rest) == [Block(open, body, close)] + Parse(rest)
    {
      var all := ([open] + body + [close]) + rest;
      var inner := body + ([close] + rest);
      assert all[0] == open && all[1..] == inner;
      BodyLengthOf(body, [close] + rest);
      assert inner[..|body|] == body && inner[|body|] == close && inner[|body| + 1..] == rest;
    }

    /** The item a file starts with, and the lines after it. */
    lemma FirstItem(lines: Lines) returns (item: Item, rest: Lines)
      requires lines != []
      ensures Parse(lines) == [item] + Parse(rest) && Parsed([item])
      ensures lines == ItemLines(item) + rest && |rest| < |lines|
      ensures item.Unclosed? ==> rest == []
    {
      var open, inner := lines[0], lines[1..];
      assert lines == [open] + inner;
      if !opens(open) {
        item, rest := Single(open), inner;
      } else {
        var k := BodyLength(inner);
        if k < |inner| {
          var body := inner[..k];
          rest := inner[k + 1..];
          assert lines == ([open] + body + [inner[k]]) + rest;
          ParseBlock(open, body, inner[k], rest);
          item := Block(open, body, inner[k]);
        } else {
          item, rest := Unclosed(open, inner), [];
        }
      }
    }

    lemma {:induction false} ParseYieldsParsed(lines: Lines)
      ensures Parsed(Parse(lines))
      ensures Unparse(Parse(lines)) == lines
      decreases |lines|
    {
      if lines != [] {
        var item, rest := FirstItem(lines);
        ParseYieldsParsed(rest);
        UnparseCons(item, Parse(rest));
      }
    }

    lemma ParseItem(item: Item, rest: Lines)
      requires Parsed([item]) && (item.Unclosed? ==> rest == [])
      ensures Parse(ItemLines(item) + rest) == [item] + Parse(rest)
    {
      assert [item][0] == item;
      match item {
        case Single(line) =>
        case Block(open, body, close) => ParseBlock(open, body, close, rest);
        case Unclosed(open, body) =>
          assert ([open] + body) + [] == [open] + body;
      }
    }

    lemma {:induction false} ParseUnparse(items: seq<Item>)
      requires Parsed(items)
      ensures Parse(Unparse(items)) == items
      decreases |items|
    {
      if items != [] {
        assert forall i :: 0 <= i < |items[1..]| ==> items[1..][i] == items[i + 1];
        ParseUnparse(items[1..]);
        assert items == [items[0]] + items[1..];
        ParseItem(items[0], Unparse(items[1..]));
      }
    }

    lemma {:induction false} WithoutRuntimeIdempotent(body: Lines)
      ensures WithoutRuntime(WithoutRuntime(body)) == WithoutRuntime(body)
      ensures forall b :: b in WithoutRuntime(body) <==> b in body && !dropsEntry(b)
      decreases |body|
    {
      if body != [] {
        WithoutRuntimeIdempotent(body[1..]);
        assert body == [body[0]] + body[1..];
        assert ([body[0]] + WithoutRuntime(body[1..]))[1..] == WithoutRuntime(body[1..]);
      }
    }

    lemma {:induction false} StripItemsIdempotent(items: seq<Item>)
      requires Parsed(items)
      ensures Parsed(StripItems(items)) && |StripItems(items)| <= |items|
      ensures StripItems(StripItems(items)) == StripItems(items)
      decreases |items|
    {
      if items != [] {
        assert forall i :: 0 <= i < |items[1..]| ==> items[1..][i] == items[i + 1];
        StripItemsIdempotent(items[1..]);
        if !items[0].Single? {
          WithoutRuntimeIdempotent(items[0].body);
        }
        if StripItem(items[0]).Some? {
          assert StripItems(items)[1..] == StripItems(items[1..]);
        }
      }
    }

    /** A second strip removes nothing. */
    lemma StripIdempotent(lines: Lines)
      ensures Strip(Strip(lines)) == Strip(lines)
    {
      ParseYieldsParsed(lines);
      StripItemsIdempotent(Parse(lines));
      ParseUnparse(StripItems(Parse(lines)));
    }

    /** No runtime replace in either form, and no closed block without a line. */
    predicate NoRuntimeReplace(lines: Lines) {
      forall i :: 0 <= i < |Parse(lines)| ==>
        match Parse(lines)[i]
        case Single(line) => !dropsLine(line)
        case Block(_, body, _) => body != [] && forall b :: b in body ==> !dropsEntry(b)
        case Unclosed(_, body) => forall b :: b in body ==> !dropsEntry(b)
    }

    lemma {:induction false} StripItemsClean(items: seq<Item>, i: nat)
      requires i < |StripItems(items)|
      ensures var item := StripItems(items)[i];
              && (item.Single? ==> !dropsLine(item.line))
              && (item.Block? ==> item.body != [])
              && (!item.Single? ==> forall b :: b in item.body ==> !dropsEntry(b))
      decreases |items|
    {
      if !items[0].Single? {
        WithoutRuntimeIdempotent(items[0].body);
      }
      if StripItem(items[0]).None? {
        StripItemsClean(items[1..], i);
      } else if i > 0 {
        assert StripItems(items)[1..] == StripItems(items[1..]);
        StripItemsClean(items[1..], i - 1);
      }
    }

    lemma StripLeavesNoRuntimeReplace(lines: Lines)
      ensures NoRuntimeReplace(Strip(lines))
    {
      ParseYieldsParsed(lines);
      StripItemsIdempotent(Parse(lines));
      ParseUnparse(StripItems(Parse(lines)));
      forall i | 0 <= i < |Parse(Strip(lines))| {
        StripItemsClean(Parse(lines), i);
      }
    }

    // ---- files the strip leaves alone ---------------------------------------------------------

    /** No line is dropped when the scan is outside a block (0), in one without a body yet (1),
        or in one with a body (2). */
    predicate Keeps(state: nat, lines: Lines)
      decreases |lines|
    {
      if lines == [] then true
      else if state == 0 then
        if opens(lines[0]) then Keeps(1, lines[1..]) else !dropsLine(lines[0]) && Keeps(0, lines[1..])
      else if closes(lines[0]) then state > 1 && Keeps(0, lines[1..])
      else !dropsEntry(lines[0]) && Keeps(2, lines[1..])
    }

    function Next(state: nat, line: string): nat {
      if state == 0 then if opens(line) then 1 else 0
      else if closes(line) then 0
      else 2
    }

    function After(state: nat, lines: Lines): nat
      decreases |lines|
    {
      if lines == [] then state else After(Next(state, lines[0]), lines[1..])
    }

    lemma {:induction false} ScanShortens(buf: Lines, lines: Lines)
      ensures |Scan(buf, lines)| <= |buf| + |lines|
      ensures !Keeps(if |buf| < 2 then |buf| else 2, lines) ==> |Scan(buf, lines)| < |buf| + |lines|
      ensures Keeps(if |buf| < 2 then |buf| else 2, lines) ==> Scan(buf, lines) == buf + lines
      decreases |lines|
    {
      if lines != [] {
        var line, rest := lines[0], lines[1..];
        assert lines == [line] + rest;
        if buf != [] && !closes(line) {
          ScanShortens(if dropsEntry(line) then buf else buf + [line], rest);
          assert (buf + [line]) + rest == buf + lines;
        } else if buf == [] && opens(line) {
          ScanShortens([line], rest);
        } else {
          ScanShortens([], rest);
          assert [] + rest == rest;
          assert buf + [line] + rest == buf + lines;
        }
      }
    }

    lemma StripKeepsIff(lines: Lines)
      ensures Strip(lines) == lines <==> Keeps(0, lines)
    {
      ScanIsRemaining([], lines);
      ScanShortens([], lines);
    }

    lemma {:induction false} KeepsConcat(state: nat, p: Lines, q: Lines)
      ensures Keeps(state, p + q) <==> Keeps(state, p) && Keeps(After(state, p), q)
      ensures After(state, p + q) == After(After(state, p), q)
      decreases |p|
    {
      if p == [] {
        assert p + q == q;
      } else {
        assert (p + q)[0] == p[0] && (p + q)[1..] == p[1..] + q;
        KeepsConcat(Next(state, p[0]), p[1..], q);
      }
    }

    /** A line that is dropped nowhere and neither opens nor closes a block. */
    predicate Inert(line: string) {
      !opens(line) && !closes(line) && !dropsLine(line) && !dropsEntry(line)
    }

    lemma {:induction false} InertLines(state: nat, lines: Lines)
      requires state <= 2 && forall i :: 0 <= i < |lines| ==> Inert(lines[i])
      ensures Keeps(state, lines) && After(state, lines) == if state == 1 && lines != [] then 2 else state
      decreases |lines|
    {
      if lines != [] {
        InertLines(Next(state, lines[0]), lines[1..]);
      }
    }
  }

  const RUNTIME_REPLACE := Rules(l => OpensReplace(l), l => Closes(l),
                                 l => IsRuntimeReplaceLine(l), l => IsRuntimeBlockLine(l))

  function StripFile(file: File): File {
    Joined(RUNTIME_REPLACE.Strip(file.lines), file.newline)
  }

  method StripRuntimeReplaceDirective(original: File) returns (stripped: File)
    ensures stripped == StripFile(original)
  {
    var outLines := RUNTIME_REPLACE.StripLines(original.lines);
    stripped := Joined(outLines, original.newline);
  }

  // ---- reading `use` entries --------------------------------------------------------------

  function EntryFromLine(line: string): Option<string> {
    var entry := Trim(match BeforeFirst(line, "//") case None => line case Some(before) => before);
    if entry == "" then None else Some(entry)
  }

  function SingleUseEntry(line: string): Option<string> {
    var trimmed := Trim(line);
    if StartsWith(trimmed, "use ") && Trim(trimmed[|"use "|..]) != "("
    then EntryFromLine(Trim(trimmed[|"use "|..]))
    else None
  }

  predicate OpensUse(line: string) {
    Trim(line) == "use ("
  }

  function BlockEntry(line: string): Option<string> {
    EntryFromLine(Trim(line))
  }

  /** Leading whitespace of a line. */
  function Indent(line: string): (indent: string)
    ensures Blank(indent)
  {
    if line == "" || !IsSpace(line[0]) then "" else [line[0]] + Indent(line[1..])
  }

  /** The file without trailing blank lines and without trailing whitespace; one empty
      line at least. */
  function TrimEndLines(lines: Lines): Lines {
    if lines == [] then [""]
    else
      var front, last := lines[..|lines| - 1], TrimEnd(lines[|lines| - 1]);
      if last == "" && front != [] then TrimEndLines(front) else front + [last]
  }

  function Indented(indent: string, entries: seq<string>): Lines {
    seq(|entries|, i requires 0 <= i < |entries| => indent + entries[i])
  }

  const USE_OPEN := "use ("
  const USE_CLOSE := ")"

  /** Reading and merging in terms of the tests on one line: what opens and closes a
      `use` block, and the entry a line gives inside and outside one. */
  datatype UseRules = UseRules(opens: string -> bool, closes: string -> bool,
                               blockEntry: string -> Option<string>, lineEntry: string -> Option<string>) {
    function ExtractFrom(inBlock: bool, lines: Lines): seq<string>
      decreases |lines|
    {
      if lines == [] then []
      else if inBlock then
        if closes(lines[0]) then ExtractFrom(false, lines[1..])
        else Prepend(blockEntry(lines[0]), ExtractFrom(true, lines[1..]))
      else if opens(lines[0]) then ExtractFrom(true, lines[1..])
      else Prepend(lineEntry(lines[0]), ExtractFrom(false, lines[1..]))
    }

    static function Prepend(entry: Option<string>, rest: seq<string>): seq<string> {
      match entry
      case None => rest
      case Some(e) => [e] + rest
    }

    static lemma PrependNext(entries: seq<string>, entry: Option<string>, rest: seq<string>)
      ensures entries + Prepend(entry, rest) == (if entry.Some? then entries + [entry.value] else entries) + rest
    {
    }

    /** Whether a block is open after the lines. */
    function EndsInBlock(inBlock: bool, lines: Lines): bool
      decreases |lines|
    {
      if lines == [] then inBlock
      else EndsInBlock(if inBlock then !closes(lines[0]) else opens(lines[0]), lines[1..])
    }

    function Extract(lines: Lines): seq<string> {
      ExtractFrom(false, lines)
    }

    method ExtractGoWorkUseEntries(lines: Lines) returns (entries: seq<string>)
      ensures entries == Extract(lines)
    {
      entries := [];
      var inUseBlock := false;
      for i := 0 to |lines|
        invariant Extract(lines) == entries + ExtractFrom(inUseBlock, lines[i..])
      {
        assert lines[i..][1..] == lines[i + 1..];
        if inUseBlock {
          if closes(lines[i]) {
            inUseBlock := false;
            continue;
          }
          var entry := blockEntry(lines[i]);
          PrependNext(entries, entry, ExtractFrom(true, lines[i + 1..]));
          if entry.Some? {
            entries := entries + [entry.value];
          }
          continue;
        }
        if opens(lines[i]) {
          inUseBlock := true;
          continue;
        }
        var entry := lineEntry(lines[i]);
        PrependNext(entries, entry, ExtractFrom(false, lines[i + 1..]));
        if entry.Some? {
          entries := entries + [entry.value];
        }
      }
    }

    lemma {:induction false} ExtractConcat(inBlock: bool, p: Lines, q: Lines)
      ensures ExtractFrom(inBlock, p + q) == ExtractFrom(inBlock, p) + ExtractFrom(EndsInBlock(inBlock, p), q)
      ensures EndsInBlock(inBlock, p + q) == EndsInBlock(EndsInBlock(inBlock, p), q)
      decreases |p|
    {
      if p == [] {
        assert p + q == q;
      } else {
        assert (p + q)[0] == p[0] && (p + q)[1..] == p[1..] + q;
        ExtractConcat(if inBlock then !closes(p[0]) else opens(p[0]), p[1..], q);
      }
    }

    predicate ClosesBlock(lines: Lines, k: nat)
      requires k < |lines|
    {
      closes(lines[k]) && EndsInBlock(false, lines[..k])
    }

    /** Line `k` is the first that closes a `use` block. */
    predicate IsFirstClose(lines: Lines, k: nat) {
      k < |lines| && ClosesBlock(lines, k) && forall j :: 0 <= j < k ==> !ClosesBlock(lines, j)
    }

    /** Indentation of the first entry inside a block among the first `k` lines. */
    function FirstEntryIndent(lines: Lines, k: nat): (indent: Option<string>)
      requires k <= |lines|
      ensures indent.Some? ==> Blank(indent.value)
    {
      if k == 0 then None
      else if FirstEntryIndent(lines, k - 1).Some? then FirstEntryIndent(lines, k - 1)
      else if EndsInBlock(false, lines[..k - 1]) && blockEntry(lines[k - 1]).Some? then Some(Indent(lines[k - 1]))
      else None
    }

    function BlockIndent(lines: Lines, k: nat): (indent: string)
      requires k <= |lines|
      ensures Blank(indent)
    {
      match FirstEntryIndent(lines, k)
      case None => "\t"
      case Some(indent) => indent
    }

    method FindGoWorkUseBlockClose(lines: Lines) returns (close: Option<(nat, string)>)
      ensures close.Some? ==> IsFirstClose(lines, close.value.0) && close.value.1 == BlockIndent(lines, close.value.0)
      ensures close.None? ==> forall k :: 0 <= k < |lines| ==> !ClosesBlock(lines, k)
    {
      var inUseBlock := false;
      var entryIndent: Option<string> := None;
      for i := 0 to |lines|
        invariant inUseBlock <==> EndsInBlock(false, lines[..i])
        invariant forall j :: 0 <= j < i ==> !ClosesBlock(lines, j)
        invariant entryIndent == FirstEntryIndent(lines, i)
      {
        assert lines[..i + 1] == lines[..i] + [lines[i]];
        ExtractConcat(false, lines[..i], [lines[i]]);
        OneLine(inUseBlock, lines[i]);
        if inUseBlock {
          if closes(lines[i]) {
            return Some((i, if entryIndent.Some? then entryIndent.value else "\t"));
          }
          if entryIndent.None? && blockEntry(lines[i]).Some? {
            entryIndent := Some(Indent(lines[i]));
          }
        } else if opens(lines[i]) {
          inUseBlock := true;
        }
      }
      close := None;
    }

    /** Required entries the file does not have yet. */
    function Missing(lines: Lines, required: seq<string>): seq<string> {
      if required == [] then []
      else
        var front := Missing(lines, required[..|required| - 1]);
        if required[|required| - 1] in Extract(lines) then front else front + [required[|required| - 1]]
    }

    lemma {:induction false} MissingMembers(lines: Lines, required: seq<string>)
      ensures forall e :: e in Missing(lines, required) <==> e in required && e !in Extract(lines)
      decreases |required|
    {
      if required != [] {
        var front := required[..|required| - 1];
        MissingMembers(lines, front);
        assert required == front + [required[|required| - 1]];
      }
    }

    /** Where the merged file differs: the missing entries stand before the close of the
        first closed `use` block, or, without one, in a new block at the end. */
    ghost predicate IsMerge(lines: Lines, required: seq<string>, merged: Lines) {
      var missing := Missing(lines, required);
      if missing == [] then merged == lines
      else if exists k :: IsFirstClose(lines, k) then
        exists k :: MergesAt(lines, missing, merged, k)
      else
        merged == TrimEndLines(lines) + ["", USE_OPEN] + Indented("\t", missing) + [USE_CLOSE]
    }

    ghost predicate MergesAt(lines: Lines, missing: seq<string>, merged: Lines, k: nat) {
      IsFirstClose(lines, k) && merged == lines[..k] + Indented(BlockIndent(lines, k), missing) + lines[k..]
    }

    /** Whether a merge has to open a new block. */
    ghost predicate Appends(lines: Lines, required: seq<string>) {
      Missing(lines, required) != [] && !exists k :: IsFirstClose(lines, k)
    }

    /** On whole files: a new block ends in a newline. */
    ghost predicate IsFileMerge(file: File, required: seq<string>, merged: File) {
      && IsMerge(file.lines, required, merged.lines)
      && (merged.newline <==> file.newline || Appends(file.lines, required))
    }

    method AddMissingGoWorkUseEntries(original: File, required: seq<string>) returns (updated: File)
      ensures IsFileMerge(original, required, updated)
    {
      var lines := original.lines;
      var existing := ExtractGoWorkUseEntries(lines);
      var missing: seq<string> := [];
      for i := 0 to |required|
        invariant missing == Missing(lines, required[..i])
      {
        assert required[..i + 1][..i] == required[..i];
        if required[i] !in existing {
          missing := missing + [required[i]];
        }
      }
      assert required[..|required|] == required;
      if missing == [] {
        return original;
      }
      var close := FindGoWorkUseBlockClose(lines);
      if close.Some? {
        var merged := lines[..close.value.0] + Indented(close.value.1, missing) + lines[close.value.0..];
        assert MergesAt(lines, missing, merged, close.value.0);
        return File(merged, original.newline);
      }
      updated := File(TrimEndLines(lines) + ["", USE_OPEN] + Indented("\t", missing) + [USE_CLOSE], true);
    }

    // ---- what the merge does to the entries ----------------------------------------------

    /** What the proofs need of the line tests. */
    ghost predicate Sound() {
      MarkersWork() && EmptyLineIsNeutral() && ClosingIsOnlyThat() && TrailingSpaceIsIgnored()
    }

    predicate MarkersWork() {
      opens(USE_OPEN) && !closes(USE_OPEN) && blockEntry(USE_OPEN) == Some(USE_OPEN) && closes(USE_CLOSE)
    }

    predicate EmptyLineIsNeutral() {
      !opens("") && !closes("") && lineEntry("") == None && blockEntry("") == None
    }

    ghost predicate ClosingIsOnlyThat() {
      forall l: string :: closes(l) ==> !opens(l) && lineEntry(l) == None
    }

    ghost predicate TrailingSpaceIsIgnored() {
      forall l: string :: SameTests(l, TrimEnd(l))
    }

    ghost predicate SameTests(l: string, m: string) {
      opens(l) == opens(m) && closes(l) == closes(m) && blockEntry(l) == blockEntry(m) && lineEntry(l) == lineEntry(m)
    }

    /** An entry that a line of a `use` block gives back, however indented. */
    ghost predicate Readable(e: string) {
      forall indent :: Blank(indent) ==> blockEntry(indent + e) == Some(e) && !closes(indent + e)
    }

    lemma {:induction false} TrimEndLinesKeepsEntries(inBlock: bool, lines: Lines)
      requires Sound()
      ensures ExtractFrom(inBlock, TrimEndLines(lines)) == ExtractFrom(inBlock, lines)
      ensures EndsInBlock(inBlock, TrimEndLines(lines)) == EndsInBlock(inBlock, lines)
      decreases |lines|
    {
      if lines == [] {
        ExtractConcat(inBlock, [], [""]);
        assert [""] == [] + [""];
        OneLine(inBlock, "");
      } else {
        var front, line := lines[..|lines| - 1], lines[|lines| - 1];
        assert lines == front + [line];
        assert SameTests(line, TrimEnd(line));
        ExtractConcat(inBlock, front, [line]);
        OneLine(EndsInBlock(inBlock, front), line);
        if TrimEnd(line) == "" && front != [] {
          TrimEndLinesKeepsEntries(inBlock, front);
        } else {
          ExtractConcat(inBlock, front, [TrimEnd(line)]);
          OneLine(EndsInBlock(inBlock, front), TrimEnd(line));
        }
      }
    }

    lemma OneLine(inBlock: bool, line: string)
      ensures ExtractFrom(inBlock, [line]) ==
              if inBlock then (if closes(line) then [] else Prepend(blockEntry(line), []))
              else if opens(line) then [] else Prepend(lineEntry(line), [])
      ensures EndsInBlock(inBlock, [line]) == if inBlock then !closes(line) else opens(line)
    {
      assert [line][1..] == [];
    }

    lemma {:induction false} ReadableLines(indent: string, entries: seq<string>)
      requires Blank(indent) && forall e :: e in entries ==> Readable(e)
      ensures ExtractFrom(true, Indented(indent, entries)) == entries
      ensures EndsInBlock(true, Indented(indent, entries))
      decreases |entries|
    {
      if entries != [] {
        assert Readable(entries[0]);
        assert Indented(indent, entries)[1..] == Indented(indent, entries[1..]);
        ReadableLines(indent, entries[1..]);
      }
    }

    /** `entries` with `added` put in at one place. */
    ghost predicate InsertedIn(old_: seq<string>, added: seq<string>, entries: seq<string>) {
      exists k :: 0 <= k <= |old_| && entries == old_[..k] + added + old_[k..]
    }

    lemma InsertedAt(a: seq<string>, added: seq<string>, b: seq<string>)
      ensures InsertedIn(a + b, added, a + added + b)
    {
      assert (a + b)[..|a|] == a && (a + b)[|a|..] == b;
    }

    lemma InsertedLast(entries: seq<string>, added: seq<string>)
      ensures InsertedIn(entries, added, entries + added)
    {
      InsertedAt(entries, added, []);
      assert entries + [] == entries && entries + added + [] == entries + added;
    }

    lemma MergeInBlock(lines: Lines, missing: seq<string>, merged: Lines, k: nat)
      requires Sound() && MergesAt(lines, missing, merged, k)
      ensures InsertedIn(Extract(lines), ExtractFrom(true, Indented(BlockIndent(lines, k), missing)), Extract(merged))
    {
      var head, ins, tail := lines[..k], Indented(BlockIndent(lines, k), missing), lines[k..];
      assert lines == head + tail && merged == head + (ins + tail);
      ExtractConcat(false, head, tail);
      ExtractConcat(false, head, ins + tail);
      ExtractConcat(true, ins, tail);
      var rest := ExtractFrom(false, tail[1..]);
      assert Extract(head) + (ExtractFrom(true, ins) + rest) == Extract(head) + ExtractFrom(true, ins) + rest;
      InsertedAt(Extract(head), ExtractFrom(true, ins), rest);
    }

    lemma MergeAtEnd(lines: Lines, missing: seq<string>)
      requires Sound()
      ensures var block := ["", USE_OPEN] + Indented("\t", missing) + [USE_CLOSE];
              Extract(TrimEndLines(lines) + block) ==
                Extract(lines) + ExtractFrom(EndsInBlock(false, lines), block)
    {
      ExtractConcat(false, TrimEndLines(lines), ["", USE_OPEN] + Indented("\t", missing) + [USE_CLOSE]);
      TrimEndLinesKeepsEntries(false, lines);
    }

    lemma NewBlockLines(inBlock: bool, ins: Lines)
      requires Sound()
      ensures ExtractFrom(inBlock, ["", USE_OPEN] + ins + [USE_CLOSE]) ==
              (if inBlock then [USE_OPEN] else []) + ExtractFrom(true, ins)
    {
      ExtractConcat(inBlock, ["", USE_OPEN], ins + [USE_CLOSE]);
      assert ["", USE_OPEN] + ins + [USE_CLOSE] == ["", USE_OPEN] + (ins + [USE_CLOSE]);
      ExtractConcat(inBlock, [""], [USE_OPEN]);
      assert ["", USE_OPEN] == [""] + [USE_OPEN];
      OneLine(inBlock, "");
      OneLine(inBlock, USE_OPEN);
      ExtractConcat(true, ins, [USE_CLOSE]);
      OneLine(EndsInBlock(true, ins), USE_CLOSE);
    }

    lemma NewBlockEntries(inBlock: bool, missing: seq<string>)
      requires Sound() && forall e :: e in missing ==> Readable(e)
      ensures ExtractFrom(inBlock, ["", USE_OPEN] + Indented("\t", missing) + [USE_CLOSE]) ==
              if inBlock then [USE_OPEN] + missing else missing
    {
      NewBlockLines(inBlock, Indented("\t", missing));
      ReadableLines("\t", missing);
    }

    /** A merge keeps every old entry, in order, and puts all new ones in one place. */
    lemma MergeKeepsEntries(lines: Lines, required: seq<string>, merged: Lines)
      requires Sound() && IsMerge(lines, required, merged)
      ensures exists added :: InsertedIn(Extract(lines), added, Extract(merged))
    {
      var missing, entries := Missing(lines, required), Extract(lines);
      if missing == [] {
        InsertedLast(entries, []);
        assert entries + [] == entries;
      } else if exists k :: MergesAt(lines, missing, merged, k) {
        var k :| MergesAt(lines, missing, merged, k);
        MergeInBlock(lines, missing, merged, k);
      } else {
        var block := ["", USE_OPEN] + Indented("\t", missing) + [USE_CLOSE];
        assert merged == TrimEndLines(lines) + block;
        MergeAtEnd(lines, missing);
        var added := ExtractFrom(EndsInBlock(false, lines), block);
        InsertedLast(entries, added);
      }
    }

    /** When the missing entries are readable, exactly they are put in; a file that ends
        inside an open `use` block also gains the line that would open the new one. */
    lemma MergeAddsMissing(lines: Lines, required: seq<string>, merged: Lines)
      requires Sound() && IsMerge(lines, required, merged)
      requires forall e :: e in Missing(lines, required) ==> Readable(e)
      ensures || InsertedIn(Extract(lines), Missing(lines, required), Extract(merged))
              || (EndsInBlock(false, lines) &&
                  Extract(merged) == Extract(lines) + [USE_OPEN] + Missing(lines, required))
    {
      var missing := Missing(lines, required);
      if missing == [] {
        InsertedLast(Extract(lines), []);
        assert Extract(lines) + [] == Extract(lines);
      } else if exists k :: MergesAt(lines, missing, merged, k) {
        var k :| MergesAt(lines, missing, merged, k);
        MergeInBlock(lines, missing, merged, k);
        ReadableLines(BlockIndent(lines, k), missing);
      } else {
        NewBlockAddsMissing(lines, missing, merged);
      }
    }

    lemma NewBlockAddsMissing(lines: Lines, missing: seq<string>, merged: Lines)
      requires Sound() && forall e :: e in missing ==> Readable(e)
      requires merged == TrimEndLines(lines) + ["", USE_OPEN] + Indented("\t", missing) + [USE_CLOSE]
      ensures || InsertedIn(Extract(lines), missing, Extract(merged))
              || (EndsInBlock(false, lines) && Extract(merged) == Extract(lines) + [USE_OPEN] + missing)
    {
      var entries := Extract(lines);
      assert merged == TrimEndLines(lines) + (["", USE_OPEN] + Indented("\t", missing) + [USE_CLOSE]);
      MergeAtEnd(lines, missing);
      NewBlockEntries(EndsInBlock(false, lines), missing);
      if EndsInBlock(false, lines) {
        assert entries + ([USE_OPEN] + missing) == entries + [USE_OPEN] + missing;
      } else {
        InsertedLast(entries, missing);
      }
    }

    /** After a merge all required entries are there, and merging again changes nothing. */
    lemma MergeSettles(lines: Lines, required: seq<string>, merged: Lines, again: Lines)
      requires Sound() && IsMerge(lines, required, merged) && IsMerge(merged, required, again)
      requires forall e :: e in Missing(lines, required) ==> Readable(e)
      ensures forall e :: e in required ==> e in Extract(merged)
      ensures again == merged
    {
      MergeAddsMissing(lines, required, merged);
      MissingMembers(lines, required);
      NothingMissing(merged, required);
    }

    lemma {:induction false} NothingMissing(lines: Lines, required: seq<string>)
      requires forall e :: e in required ==> e in Extract(lines)
      ensures Missing(lines, required) == []
      decreases |required|
    {
      if required != [] {
        assert required[|required| - 1] in required;
        NothingMissing(lines, required[..|required| - 1]);
      }
    }

    /** Merging `required` keeps every `use` entry of the file, in order, brings in all the
        required ones, and merging once more changes nothing. */
    ghost predicate Settles(lines: Lines, required: seq<string>) {
      forall merged, again :: IsMerge(lines, required, merged) && IsMerge(merged, required, again) ==>
        && again == merged
        && (forall e :: e in required ==> e in Extract(merged))
        && exists added :: InsertedIn(Extract(lines), added, Extract(merged))
    }

    ghost predicate AllReadable(entries: seq<string>) {
      forall e :: e in entries ==> Readable(e)
    }

    lemma ReadableSettles(lines: Lines, required: seq<string>)
      ensures Sound() && AllReadable(Missing(lines, required)) ==> Settles(lines, required)
    {
      if Sound() && AllReadable(Missing(lines, required)) {
        forall merged, again | IsMerge(lines, required, merged) && IsMerge(merged, required, again)
          ensures again == merged
          ensures forall e :: e in required ==> e in Extract(merged)
          ensures exists added :: InsertedIn(Extract(lines), added, Extract(merged))
        {
          MergeKeepsEntries(lines, required, merged);
          MergeSettles(lines, required, merged, again);
        }
      }
    }

    lemma MergeExists(lines: Lines, required: seq<string>) returns (merged: Lines)
      ensures IsMerge(lines, required, merged)
    {
      var missing := Missing(lines, required);
      if missing == [] {
        merged := lines;
      } else if exists k :: IsFirstClose(lines, k) {
        var k: nat :| IsFirstClose(lines, k);
        merged := lines[..k] + Indented(BlockIndent(lines, k), missing) + lines[k..];
        assert MergesAt(lines, missing, merged, k);
      } else {
        merged := TrimEndLines(lines) + ["", USE_OPEN] + Indented("\t", missing) + [USE_CLOSE];
      }
    }

    /** Every entry after a merge was there before, is the marker of a new block, or was
        read from the lines put in. */
    lemma MergedEntries(lines: Lines, required: seq<string>, merged: Lines) returns (indent: string)
      requires Sound() && IsMerge(lines, required, merged)
      ensures Blank(indent)
      ensures forall e :: e in Extract(merged) ==>
                || e in Extract(lines) || e == USE_OPEN
                || e in ExtractFrom(true, Indented(indent, Missing(lines, required)))
    {
      var missing := Missing(lines, required);
      indent := "\t";
      if missing == [] {
      } else if exists k :: MergesAt(lines, missing, merged, k) {
        var k: nat :| MergesAt(lines, missing, merged, k);
        indent := BlockIndent(lines, k);
        MergeInBlock(lines, missing, merged, k);
      } else {
        var ins, inBlock := Indented(indent, missing), EndsInBlock(false, lines);
        assert merged == TrimEndLines(lines) + (["", USE_OPEN] + ins + [USE_CLOSE]);
        MergeAtEnd(lines, missing);
        NewBlockLines(inBlock, ins);
      }
    }

    /** A block that is open before line `a` is closed at the latest by a closing line after it. */
    lemma {:induction false} BlockCloses(lines: Lines, a: nat, b: nat)
      requires a <= b < |lines| && EndsInBlock(false, lines[..a]) && closes(lines[b])
      ensures exists k :: IsFirstClose(lines, k)
      decreases b - a
    {
      if closes(lines[a]) {
        assert ClosesBlock(lines, a);
        FirstCloseExists(lines, a);
      } else {
        assert lines[..a + 1] == lines[..a] + [lines[a]];
        ExtractConcat(false, lines[..a], [lines[a]]);
        OneLine(true, lines[a]);
        BlockCloses(lines, a + 1, b);
      }
    }

    lemma {:induction false} FirstCloseExists(lines: Lines, k: nat)
      requires k < |lines| && ClosesBlock(lines, k)
      ensures exists f :: IsFirstClose(lines, f)
    {
      if j: nat :| j < k && ClosesBlock(lines, j) {
        FirstCloseExists(lines, j);
      } else {
        assert IsFirstClose(lines, k);
      }
    }

    lemma InsertedBeforeClose(lines: Lines, missing: seq<string>, merged: Lines, k: nat)
      requires MergesAt(lines, missing, merged, k)
      ensures exists f :: IsFirstClose(merged, f)
    {
      var ins := Indented(BlockIndent(lines, k), missing);
      assert merged[..k] == lines[..k] && merged[k + |ins|] == lines[k];
      BlockCloses(merged, k, k + |ins|);
    }

    lemma NewBlockIsClosed(front: Lines, ins: Lines)
      requires Sound()
      ensures exists f :: IsFirstClose(front + ["", USE_OPEN] + ins + [USE_CLOSE], f)
    {
      var lines, open := front + ["", USE_OPEN] + ins + [USE_CLOSE], front + [""] + [USE_OPEN];
      ExtractConcat(false, front + [""], [USE_OPEN]);
      OneLine(EndsInBlock(false, front + [""]), USE_OPEN);
      assert lines[..|open|] == open;
      BlockCloses(lines, |open|, |lines| - 1);
    }

    /** After a merge that put lines in, there is a closed block. */
    lemma MergedIsClosed(lines: Lines, required: seq<string>, merged: Lines)
      requires Sound() && IsMerge(lines, required, merged) && Missing(lines, required) != []
      ensures exists k :: IsFirstClose(merged, k)
    {
      var missing := Missing(lines, required);
      if k: nat :| MergesAt(lines, missing, merged, k) {
        InsertedBeforeClose(lines, missing, merged, k);
      } else {
        NewBlockIsClosed(TrimEndLines(lines), Indented("\t", missing));
      }
    }

    /** A second merge that still misses an entry puts lines in again. */
    lemma MergeGrows(lines: Lines, required: seq<string>, merged: Lines, again: Lines)
      requires Sound() && IsMerge(lines, required, merged) && IsMerge(merged, required, again)
      requires Missing(merged, required) != []
      ensures |again| > |merged|
    {
      MergedIsClosed(lines, required, merged);
      var k: nat :| MergesAt(merged, Missing(merged, required), again, k);
    }
  }

  // ---- the predicates of the code -----------------------------------------------------------------------

  const GO_WORK := UseRules(l => OpensUse(l), l => Closes(l), l => BlockEntry(l), l => SingleUseEntry(l))

  lemma {:induction false} AbsentSeparator(s: string, sep: string)
    requires sep != "" && sep[0] !in s
    ensures BeforeFirst(s, sep) == None
  {
    if |s| >= |sep| {
      assert s[..|sep|][0] != sep[0];
      AbsentSeparator(s[1..], sep);
    }
  }

  /** What an entry read from a file looks like. */
  predicate IsEntry(e: string) {
    e != "" && Trimmed(e) && BeforeFirst(e, "//") == None
  }

  lemma TrimIndented(indent: string, e: string)
    requires Blank(indent) && Trimmed(e)
    ensures Trim(indent + e) == e
  {
    assert indent + e == indent + e + "";
    TrimPadded(indent, e, "");
  }

  lemma EntryIsReadable(e: string)
    requires IsEntry(e) && e != ")"
    ensures GO_WORK.Readable(e)
  {
    forall indent | Blank(indent)
      ensures GO_WORK.blockEntry(indent + e) == Some(e) && !GO_WORK.closes(indent + e)
    {
      TrimIndented(indent, e);
    }
  }

  lemma ClosingParenCloses(indent: string)
    requires Blank(indent)
    ensures GO_WORK.closes(indent + ")")
  {
    TrimIndented(indent, ")");
  }

  lemma OpenMarkerWorks()
    ensures OpensUse(USE_OPEN) && !Closes(USE_OPEN) && BlockEntry(USE_OPEN) == Some(USE_OPEN)
  {
    TrimOfTrimmed(USE_OPEN);
    AbsentSeparator(USE_OPEN, "//");
  }

  lemma GoWorkRulesAreSound()
    ensures GO_WORK.Sound()
  {
    assert GO_WORK.MarkersWork() by {
      OpenMarkerWorks();
      TrimOfTrimmed(USE_CLOSE);
    }
    assert GO_WORK.EmptyLineIsNeutral() by {
      TrimOfTrimmed("");
    }
    assert GO_WORK.ClosingIsOnlyThat() by {
      forall l: string | GO_WORK.closes(l)
        ensures !GO_WORK.opens(l) && GO_WORK.lineEntry(l) == None
      {
      }
    }
    assert GO_WORK.TrailingSpaceIsIgnored() by {
      forall l: string
        ensures GO_WORK.SameTests(l, TrimEnd(l))
      {
        TrimAfterTrimEnd(l);
      }
    }
  }

  lemma {:induction false} BeforeFirstIsFree(s: string, sep: string)
    requires sep != "" && BeforeFirst(s, sep).Some?
    ensures |BeforeFirst(s, sep).value| <= |s| && s[..|BeforeFirst(s, sep).value|] == BeforeFirst(s, sep).value
    ensures BeforeFirst(BeforeFirst(s, sep).value, sep) == None
  {
    if !StartsWith(s, sep) {
      var rest := BeforeFirst(s[1..], sep).value;
      BeforeFirstIsFree(s[1..], sep);
      var p := [s[0]] + rest;
      assert p[1..] == rest;
      assert |sep| <= |p| ==> p[..|sep|] == s[..|sep|];
    }
  }

  lemma {:induction false} PartsAreFree(before: string, core: string, after: string, sep: string)
    requires sep != "" && BeforeFirst(before + core + after, sep) == None
    ensures BeforeFirst(core, sep) == None
    decreases |before| + |core|
  {
    var s := before + core + after;
    if |core| >= |sep| {
      if before != "" {
        assert s[1..] == before[1..] + core + after;
        PartsAreFree(before[1..], core, after, sep);
      } else {
        assert s[..|sep|] == core[..|sep|];
        assert s[1..] == "" + core[1..] + after;
        PartsAreFree("", core[1..], after, sep);
      }
    }
  }

  lemma ReadEntryIsEntry(line: string)
    requires EntryFromLine(line).Some?
    ensures IsEntry(EntryFromLine(line).value)
  {
    var body := match BeforeFirst(line, "//") case None => line case Some(before) => before;
    if BeforeFirst(line, "//").Some? {
      BeforeFirstIsFree(line, "//");
    }
    TrimYieldsTrimmed(body);
    var before, after := TrimSplits(body);
    PartsAreFree(before, Trim(body), after, "//");
  }

  /** Every entry read from a file reads back from a block line, except a closing parenthesis. */
  lemma {:induction false} ExtractedEntriesAreReadable(inBlock: bool, lines: Lines, e: string)
    requires e in GO_WORK.ExtractFrom(inBlock, lines)
    ensures IsEntry(e) && (e != ")" ==> GO_WORK.Readable(e))
    decreases |lines|
  {
    var entry := if inBlock then BlockEntry(lines[0]) else SingleUseEntry(lines[0]);
    if entry == Some(e) {
      if inBlock {
        ReadEntryIsEntry(Trim(lines[0]));
      } else {
        ReadEntryIsEntry(Trim(Trim(lines[0])[4..]));
      }
      if e != ")" {
        EntryIsReadable(e);
      }
    } else {
      ExtractedEntriesAreReadable(if inBlock then !Closes(lines[0]) else OpensUse(lines[0]), lines[1..], e);
    }
  }

  // ---- one regeneration --------------------------------------------------------------------------

  /** What is written over an existing file: stale runtime replaces go, then the entries
      of the generated file are merged in. */
  ghost predicate Regenerates(existing: File, required: seq<string>, written: File) {
    GO_WORK.IsFileMerge(StripFile(existing), required, written)
  }

  method WriteGoWorkPreservingEntries(existing: Option<File>, generated: File) returns (written: File)
    ensures existing.None? ==> written == generated
    ensures existing.Some? ==> Regenerates(existing.value, GO_WORK.Extract(generated.lines), written)
  {
    var required := GO_WORK.ExtractGoWorkUseEntries(generated.lines);
    if existing.None? {
      return generated;
    }
    var original := StripRuntimeReplaceDirective(existing.value);
    written := GO_WORK.AddMissingGoWorkUseEntries(original, required);
  }
}
