/** Field-level `@cap.PII(...)` markers: finding one in a field's type text, reading it,
    and taking it out. */
module Pii {
  import opened Wrappers
  import opened Text
  import opened Decorators
  import opened Markers

  const PREFIX := "@cap.PII("

  // ---- the marker's own arguments ----------------------------------------------------------

  datatype PiiCapability = PiiCapability(dataClass: string, retention: Option<string>, logRedact: Option<bool>)

  function ArgOf(part: string): Option<(string, string)> {
    match SplitOnce(Trim(part), ':')
    case None => None
    case Some(halves) => Some((Trim(halves.0), Trim(halves.1)))
  }

  /** Later arguments replace earlier ones of the same name. */
  function Args(parts: seq<string>): map<string, string> {
    if parts == [] then map[]
    else
      var earlier := Args(parts[..|parts| - 1]);
      match ArgOf(parts[|parts| - 1])
      case None => earlier
      case Some(arg) => earlier[arg.0 := arg.1]
  }

  function Unquote(value: string): string {
    if |value| >= 2 && value[0] == '"' && value[|value| - 1] == '"' then value[1..|value| - 1] else value
  }

  function FromArgs(args: map<string, string>): Option<PiiCapability> {
    if "class" !in args || Unquote(args["class"]) == "" then None
    else
      var dataClass := Unquote(args["class"]);
      var retention := if "retention" in args then Some(Unquote(args["retention"])) else None;
      if "log_redact" !in args then Some(PiiCapability(dataClass, retention, None))
      else if args["log_redact"] == "true" then Some(PiiCapability(dataClass, retention, Some(true)))
      else if args["log_redact"] == "false" then Some(PiiCapability(dataClass, retention, Some(false)))
      else None
  }

  function StripCap(ty: string): Option<string> {
    var inner := if StartsWith(ty, PREFIX) then Some(ty[|PREFIX|..])
                 else if StartsWith(ty, "PII(") then Some(ty[4..])
                 else None;
    if inner.Some? && EndsWith(inner.value, ")") then Some(inner.value[..|inner.value| - 1]) else None
  }

  function ParseCapPii(ty: string): Option<PiiCapability> {
    match StripCap(FirstToken(ty))
    case None => None
    case Some(inner) => FromArgs(Args(SplitOn(inner, ',')))
  }

  function Quote(value: string, quoted: bool): string {
    if quoted then ['"'] + (value + ['"']) else value
  }

  function ClassPart(pii: PiiCapability, quoted: bool): string {
    "class:" + Quote(pii.dataClass, quoted)
  }

  function RetentionParts(pii: PiiCapability, quoted: bool): seq<string> {
    if pii.retention.Some? then ["retention:" + Quote(pii.retention.value, quoted)] else []
  }

  function RedactParts(pii: PiiCapability): seq<string> {
    match pii.logRedact
    case None => []
    case Some(redact) => [if redact then "log_redact:true" else "log_redact:false"]
  }

  function Parts(pii: PiiCapability, quoted: bool): seq<string> {
    [ClassPart(pii, quoted)] + RetentionParts(pii, quoted) + RedactParts(pii)
  }

  /** The marker as authors write it, with or without quotes around the values. */
  function PrintPii(pii: PiiCapability, quoted: bool): string {
    PREFIX + (JoinWith(Parts(pii, quoted), ',') + [')'])
  }

  predicate Safe(value: string) {
    Trimmed(value) && Bare(value) && ',' !in value
  }

  /** Values the argument syntax can carry: it has no way to write brackets, commas or quotes. */
  predicate Printable(pii: PiiCapability) {
    pii.dataClass != "" && Safe(pii.dataClass) && (pii.retention.Some? ==> Safe(pii.retention.value))
  }

  /** A `key:value` part without outer spaces is read as that pair. */
  lemma ArgOfPair(key: string, value: string)
    requires key != "" && Trimmed(key) && ':' !in key && Trimmed(value)
    ensures ArgOf(key + ([':'] + value)) == Some((key, value))
  {
    var part := key + ([':'] + value);
    assert part[0] == key[0] && part[|part| - 1] == if value == "" then ':' else value[|value| - 1];
    TrimOfTrimmed(part);
    SplitAtFirst(key, value, ':');
    TrimOfTrimmed(key);
    TrimOfTrimmed(value);
  }

  lemma UnquoteQuoted(value: string, quoted: bool)
    requires Safe(value)
    ensures Unquote(Quote(value, quoted)) == value
  {
  }

  lemma QuoteIsSafe(value: string, quoted: bool)
    requires Safe(value)
    ensures Trimmed(Quote(value, quoted)) && ',' !in Quote(value, quoted)
    ensures forall st: Lex :: !st.escaped && !st.inString ==> Through(Quote(value, quoted), st)
    ensures forall i :: 0 <= i < |Quote(value, quoted)| ==> Quote(value, quoted)[i] !in "()[]"
  {
    forall st: Lex | !st.escaped && !st.inString ensures Through(Quote(value, quoted), st) {
      QuotedIsRunThrough(value, st);
      BareIsRunThrough(value, st);
    }
  }

  /** What the scanners need of one printed part. */
  predicate Clean(part: string) {
    ',' !in part && Through(part, INSIDE) && forall i :: 0 <= i < |part| ==> part[i] !in "()[]"
  }

  predicate GoodPart(part: string, key: string, value: string) {
    ArgOf(part) == Some((key, value)) && Clean(part)
  }

  lemma PairIsGood(part: string, key: string, value: string)
    requires part == key + ([':'] + value)
    requires key != "" && Trimmed(key) && Bare(key) && ':' !in key && ',' !in key
    requires Trimmed(value) && ',' !in value && Through(value, INSIDE)
    requires forall i :: 0 <= i < |value| ==> value[i] !in "()[]"
    ensures GoodPart(part, key, value)
  {
    ArgOfPair(key, value);
    BareIsRunThrough(key, INSIDE);
    BareIsRunThrough([':'], INSIDE);
    ThroughAppend([':'], value, INSIDE);
    ThroughAppend(key, [':'] + value, INSIDE);
  }

  lemma QuotedPairIsGood(part: string, key: string, value: string, quoted: bool)
    requires part == key + ([':'] + Quote(value, quoted)) && Safe(value)
    requires key != "" && Trimmed(key) && Bare(key) && ':' !in key && ',' !in key
    ensures GoodPart(part, key, Quote(value, quoted))
  {
    QuoteIsSafe(value, quoted);
    PairIsGood(part, key, Quote(value, quoted));
  }

  lemma ClassIsGood(pii: PiiCapability, quoted: bool)
    requires Printable(pii)
    ensures GoodPart(ClassPart(pii, quoted), "class", Quote(pii.dataClass, quoted))
  {
    assert ClassPart(pii, quoted) == "class" + ([':'] + Quote(pii.dataClass, quoted));
    QuotedPairIsGood(ClassPart(pii, quoted), "class", pii.dataClass, quoted);
  }

  lemma RetentionIsGood(pii: PiiCapability, quoted: bool)
    requires Printable(pii) && pii.retention.Some?
    ensures GoodPart(RetentionParts(pii, quoted)[0], "retention", Quote(pii.retention.value, quoted))
  {
    var part := RetentionParts(pii, quoted)[0];
    assert part == "retention" + ([':'] + Quote(pii.retention.value, quoted));
    QuotedPairIsGood(part, "retention", pii.retention.value, quoted);
  }

  lemma RedactIsGood(pii: PiiCapability, part: string, key: string, value: string)
    requires pii.logRedact.Some? && part == RedactParts(pii)[0]
    requires key == "log_redact" && value == if pii.logRedact.value then "true" else "false"
    ensures GoodPart(part, key, value)
  {
    assert part == key + ([':'] + value);
    BareIsRunThrough(value, INSIDE);
    PairIsGood(part, key, value);
  }

  /** Parts read back as `args`, all of them clean. */
  predicate GoodParts(parts: seq<string>, args: map<string, string>) {
    Args(parts) == args && forall p :: p in parts ==> Clean(p)
  }

  lemma GoodSnoc(parts: seq<string>, args: map<string, string>, part: string, key: string, value: string)
    requires GoodParts(parts, args) && GoodPart(part, key, value)
    ensures GoodParts(parts + [part], args[key := value])
  {
    assert (parts + [part])[..|parts|] == parts;
  }

  /** The arguments a printed marker holds. */
  function ClassArgs(pii: PiiCapability, quoted: bool): map<string, string> {
    map["class" := Quote(pii.dataClass, quoted)]
  }

  function RetentionArgs(pii: PiiCapability, quoted: bool): map<string, string> {
    if pii.retention.None? then ClassArgs(pii, quoted)
    else ClassArgs(pii, quoted)["retention" := Quote(pii.retention.value, quoted)]
  }

  function PrintedArgs(pii: PiiCapability, quoted: bool): map<string, string> {
    if pii.logRedact.None? then RetentionArgs(pii, quoted)
    else RetentionArgs(pii, quoted)["log_redact" := if pii.logRedact.value then "true" else "false"]
  }

  lemma PrintedArgsAreRead(pii: PiiCapability, quoted: bool)
    requires Printable(pii)
    ensures FromArgs(PrintedArgs(pii, quoted)) == Some(pii)
  {
    UnquoteQuoted(pii.dataClass, quoted);
    if pii.retention.Some? {
      UnquoteQuoted(pii.retention.value, quoted);
    }
    KeysDiffer();
    var args := PrintedArgs(pii, quoted);
    assert "class" in args && args["class"] == Quote(pii.dataClass, quoted);
    assert "retention" in args <==> pii.retention.Some?;
    assert "log_redact" in args <==> pii.logRedact.Some?;
  }

  lemma KeysDiffer()
    ensures "class" != "retention" && "class" != "log_redact" && "retention" != "log_redact" && "true" != "false"
  {
    assert |"class"| == 5 && |"retention"| == 9 && |"log_redact"| == 10 && |"true"| == 4 && |"false"| == 5;
  }

  lemma FirstPartsAreGood(pii: PiiCapability, quoted: bool)
    requires Printable(pii)
    ensures GoodParts([ClassPart(pii, quoted)] + RetentionParts(pii, quoted), RetentionArgs(pii, quoted))
  {
    var part := ClassPart(pii, quoted);
    ClassIsGood(pii, quoted);
    GoodSnoc([], map[], part, "class", Quote(pii.dataClass, quoted));
    assert [] + [part] == [part];
    if pii.retention.Some? {
      RetentionIsGood(pii, quoted);
      GoodSnoc([part], ClassArgs(pii, quoted), RetentionParts(pii, quoted)[0],
               "retention", Quote(pii.retention.value, quoted));
    } else {
      assert [part] + RetentionParts(pii, quoted) == [part];
    }
  }

  lemma PartsAreGood(pii: PiiCapability, quoted: bool)
    requires Printable(pii)
    ensures GoodParts(Parts(pii, quoted), PrintedArgs(pii, quoted))
  {
    var first := [ClassPart(pii, quoted)] + RetentionParts(pii, quoted);
    FirstPartsAreGood(pii, quoted);
    if pii.logRedact.Some? {
      var part, value := RedactParts(pii)[0], if pii.logRedact.value then "true" else "false";
      RedactIsGood(pii, part, "log_redact", value);
      GoodSnoc(first, RetentionArgs(pii, quoted), part, "log_redact", value);
    } else {
      assert first + RedactParts(pii) == first;
    }
  }

  lemma {:induction false} JoinedIsThrough(parts: seq<string>)
    requires forall p :: p in parts ==> Clean(p)
    ensures Through(JoinWith(parts, ','), INSIDE)
    ensures forall i :: 0 <= i < |JoinWith(parts, ',')| ==> JoinWith(parts, ',')[i] !in "()[]"
    decreases |parts|
  {
    if parts != [] {
      assert Clean(parts[0]);
    }
    if |parts| > 1 {
      var rest := JoinWith(parts[1..], ',');
      JoinedIsThrough(parts[1..]);
      BareIsRunThrough([','], INSIDE);
      ThroughAppend(parts[0], [','], INSIDE);
      ThroughAppend(parts[0] + [','], rest, INSIDE);
    }
  }

  lemma NameOpens(name: string, opening: string)
    requires Bare(name) && opening == name + ['(']
    requires forall i :: 0 <= i < |name| ==> !IsSpace(name[i])
    ensures Opening(opening)
  {
    BareIsRunThrough(name, START);
    RunAppend(START, name, ['(']);
    AfterGroupAppend(name, ['('], START);
    RunOne('(', "", START);
    assert ['('] + "" == ['('];
  }

  lemma PrefixOpens(prefix: string)
    requires prefix == PREFIX
    ensures Opening(prefix)
  {
    NameOpens("@cap.PII", prefix);
  }

  lemma MarkerAround(prefix: string, body: string)
    requires Opening(prefix) && Through(body, INSIDE)
    ensures IsMarker(prefix + (body + [')']), prefix)
  {
    var m := prefix + (body + [')']);
    AfterGroupAppend(prefix, body + [')'], START);
    AfterGroupAppend(body, [')'], INSIDE);
    RunOne(')', "", INSIDE);
    assert [')'] + "" == [')'];
    assert m[..|prefix|] == prefix;
  }

  lemma StripAround(prefix: string, body: string)
    requires prefix == PREFIX
    requires forall i :: 0 <= i < |body| ==> body[i] !in "()[]"
    ensures StripCap(FirstToken(prefix + (body + [')']))) == Some(body)
  {
    var inner := body + [')'];
    TokenIsWhole(body);
    assert (prefix + inner)[..|prefix|] == prefix && (prefix + inner)[|prefix|..] == inner;
    assert inner[|body|..] == ")" && inner[..|body|] == body;
  }

  lemma TokenIsWhole(body: string)
    requires forall i :: 0 <= i < |body| ==> body[i] !in "()[]"
    ensures FirstToken(PREFIX + (body + [')'])) == PREFIX + (body + [')'])
  {
    var m := PREFIX + (body + [')']);
    assert m[0] == '@' && m[|m| - 1] == ')';
    TrimOfTrimmed(m);
    var name := "@cap.PII";
    var group := ['('] + (body + [')']);
    assert m == name + group && group[1..] == body + [')'];
    TokenLengthThrough(name, group, 0);
    TokenLengthThrough(body, [')'], 1);
    assert [')'][1..] == "";
    assert TokenLength(group, 0) == 1 + TokenLength(body + [')'], 1);
    assert m[..|m|] == m;
  }

  /** Printing a marker and reading it back gives the capability. */
  lemma ParsePrintedPii(pii: PiiCapability, quoted: bool)
    requires Printable(pii)
    ensures IsMarker(PrintPii(pii, quoted), PREFIX) && ParseCapPii(PrintPii(pii, quoted)) == Some(pii)
  {
    PartsAreGood(pii, quoted);
    PrintedArgsAreRead(pii, quoted);
    JoinedIsThrough(Parts(pii, quoted));
    var prefix := PREFIX;
    PrefixOpens(prefix);
    MarkerAround(prefix, JoinWith(Parts(pii, quoted), ','));
    StripAround(prefix, JoinWith(Parts(pii, quoted), ','));
    SplitJoined(Parts(pii, quoted), ',');
  }

  // ---- taking the marker out of a field's type text -------------------------------------------

  method FindFieldLevelCapPiiSpan(text: string) returns (span: Option<(nat, nat)>)
    ensures span == MarkerSpan(text, PREFIX)
  {
    span := FindMarkerSpan(text, PREFIX);
  }

  /** The type text without the marker, and the marker's capability. */
  function Extracted(typeText: string): (string, Option<PiiCapability>) {
    match MarkerSpan(typeText, PREFIX)
    case None => (Trim(typeText), None)
    case Some((start, end)) =>
      var before, after := TrimEnd(typeText[..start]), TrimStart(typeText[end..]);
      var pii := ParseCapPii(typeText[start..end]);
      if before == "" || pii.None? then (Trim(typeText), None)
      else (Trim(if after == "" then before else before + ([' '] + after)), pii)
  }

  method ExtractFieldLevelPiiDecorator(typeText: string) returns (typeOnly: string, pii: Option<PiiCapability>)
    ensures (typeOnly, pii) == Extracted(typeText)
  {
    var original := Trim(typeText);
    var span := FindFieldLevelCapPiiSpan(typeText);
    if span.None? {
      return original, None;
    }
    var (start, end) := span.value;
    var before := TrimEnd(typeText[..start]);
    if before == "" {
      return original, None;
    }
    pii := ParseCapPii(typeText[start..end]);
    if pii.None? {
      return original, None;
    }
    var after := TrimStart(typeText[end..]);
    var cleaned := before;
    if cleaned != "" && after != "" {
      cleaned := cleaned + [' '];
    }
    cleaned := cleaned + after;
    assert after != "" ==> before + [' '] + after == before + ([' '] + after);
    assert after == "" ==> cleaned == before;
    typeOnly := Trim(cleaned);
  }

  lemma TrimmedEnds(s: string) returns (before: string, after: string)
    requires Trim(s) != ""
    ensures Blank(before) && Blank(after) && Trimmed(Trim(s))
    ensures TrimEnd(s) == before + Trim(s) && TrimStart(s) == Trim(s) + after
  {
    before, after := TrimSplits(s);
    var core := Trim(s);
    TrimYieldsTrimmed(s);
    assert (before + core)[|before + core| - 1] == core[|core| - 1];
    TrimEndPadded(before + core, after);
    assert s == before + (core + after) && (core + after)[0] == core[0];
    TrimStartPadded(before, core + after);
  }

  /** Two trimmed texts with a space between them, inside blank ends. */
  lemma TrimBetween(lead: string, a: string, b: string, tail: string)
    requires Blank(lead) && Blank(tail) && Trimmed(a) && Trimmed(b) && a != "" && b != ""
    ensures Trim((lead + a) + ([' '] + (b + tail))) == a + ([' '] + b)
  {
    var core := a + ([' '] + b);
    assert core[0] == a[0] && core[|core| - 1] == b[|b| - 1];
    TrimPadded(lead, core, tail);
    assert (lead + a) + ([' '] + (b + tail)) == lead + core + tail;
  }

  lemma TrimSplice(u: string, after: string)
    requires Trim(u) != "" && Trim(after) != ""
    ensures Trim(TrimEnd(u) + ([' '] + TrimStart(after))) == Trim(u) + ([' '] + Trim(after))
  {
    var lead, _ := TrimmedEnds(u);
    var _, tail := TrimmedEnds(after);
    TrimBetween(lead, Trim(u), Trim(after), tail);
  }

  lemma BlankIsTrimmedAway(s: string)
    requires Blank(s)
    ensures TrimEnd(s) == "" && TrimStart(s) == ""
  {
    TrimEndPadded("", s);
    TrimStartPadded(s, "");
    assert "" + s == s && s + "" == s;
  }

  lemma BlankEnds(s: string)
    ensures (TrimEnd(s) == "") == (Trim(s) == "") == (TrimStart(s) == "")
  {
    if Trim(s) != "" {
      var _, _ := TrimmedEnds(s);
    } else {
      var before, after := TrimSplits(s);
      assert s == before + after;
      BlankIsTrimmedAway(s);
    }
  }

  /** Taking out a marker that was put into a type text gives back the text around it and
      the marker's capability; a leading or unreadable marker stays where it is. */
  lemma ExtractInserted(u: string, m: string, after: string)
    requires u == "" || IsSpace(u[|u| - 1])
    requires Closed(u) && MarkerSpan(u, PREFIX).None? && IsMarker(m, PREFIX)
    ensures Extracted(u + m + after)
         == if Trim(u) == "" || ParseCapPii(m).None? then (Trim(u + m + after), None)
            else (if Trim(after) == "" then Trim(u) else Trim(u) + ([' '] + Trim(after)), ParseCapPii(m))
  {
    var text := u + m + after;
    var prefix := PREFIX;
    PrefixOpens(prefix);
    InsertedIsFound(u, m, after, prefix);
    assert text[..|u|] == u && text[|u|..|u| + |m|] == m && text[|u| + |m|..] == after;
    TrimAfterTrimEnd(u);
    BlankEnds(u);
    BlankEnds(after);
    if Trim(u) != "" && Trim(after) != "" {
      TrimSplice(u, after);
    }
  }
}
