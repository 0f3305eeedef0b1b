/** Inline field constraints: the shape check on regex patterns, the combination and
    range rules, and the check of a default against them. */
module Validators {
  import opened Wrappers
  import opened Text
  import opened Decimal

  // ---- the pattern scan --------------------------------------------------------------

  datatype Verdict = Accepted | TrailingBackslash | UnbalancedClose | UnbalancedClass | UnbalancedOpen

  /** Backslashes at the very end of the pattern. */
  function TrailingBackslashes(s: string): (n: nat)
    ensures n <= |s|
  {
    if s != "" && s[|s| - 1] == '\\' then 1 + TrailingBackslashes(s[..|s| - 1]) else 0
  }

  /** The left-to-right scan: `depth` open parentheses, inside a class or not. */
  function Scan(s: string, depth: nat, inClass: bool): Verdict
    decreases |s|
  {
    if s == "" then
      if inClass then UnbalancedClass else if depth != 0 then UnbalancedOpen else Accepted
    else if s[0] == '\\' then Scan(if |s| == 1 then "" else s[2..], depth, inClass)
    else if inClass then Scan(s[1..], depth, s[0] != ']')
    else if s[0] == '[' then Scan(s[1..], depth, true)
    else if s[0] == '(' then Scan(s[1..], depth + 1, false)
    else if s[0] == ')' then (if depth == 0 then UnbalancedClose else Scan(s[1..], depth - 1, false))
    else Scan(s[1..], depth, false)
  }

  function PatternVerdict(pattern: string): Verdict {
    if TrailingBackslashes(pattern) % 2 == 1 then TrailingBackslash else Scan(pattern, 0, false)
  }

  method CountTrailingBackslashes(p: string) returns (trailing: nat)
    ensures trailing == TrailingBackslashes(p)
  {
    trailing := 0;
    assert p[..|p|] == p;
    while trailing < |p| && p[|p| - 1 - trailing] == '\\'
      invariant trailing <= |p|
      invariant TrailingBackslashes(p) == trailing + TrailingBackslashes(p[..|p| - trailing])
    {
      assert p[..|p| - trailing][..|p| - trailing - 1] == p[..|p| - trailing - 1];
      trailing := trailing + 1;
    }
  }

  method ScanPattern(p: string) returns (verdict: Verdict)
    ensures verdict == Scan(p, 0, false)
  {
    var parenDepth := 0;
    var inClass := false;
    var i := 0;
    assert p[0..] == p;
    while i < |p|
      invariant 0 <= i <= |p| && parenDepth >= 0
      invariant Scan(p[i..], parenDepth, inClass) == Scan(p, 0, false)
    {
      var c := p[i];
      i := i + 1;
      if c == '\\' {
        i := if i < |p| then i + 1 else i;
      } else if c == '[' && !inClass {
        inClass := true;
      } else if c == ']' && inClass {
        inClass := false;
      } else if c == '(' && !inClass {
        parenDepth := parenDepth + 1;
      } else if c == ')' && !inClass {
        parenDepth := parenDepth - 1;
        if parenDepth < 0 {
          return UnbalancedClose;
        }
      }
    }
    verdict := if inClass then UnbalancedClass else if parenDepth != 0 then UnbalancedOpen else Accepted;
  }

  method ValidateConstraintPatternCompile(pattern: Option<string>) returns (verdict: Verdict)
    ensures verdict == if pattern.None? then Accepted else PatternVerdict(pattern.value)
  {
    if pattern.None? {
      return Accepted;
    }
    var p := pattern.value;
    assert p != "" ==> p[|p| - 1..] == [p[|p| - 1]];
    if EndsWith(p, "\\") {
      var trailing := CountTrailingBackslashes(p);
      if trailing % 2 == 1 {
        return TrailingBackslash;
      }
    }
    verdict := ScanPattern(p);
  }

  // ---- the grammar it accepts -----------------------------------------------------------

  datatype ClassItem = Plain(c: char) | Escaped(c: char)

  /** Patterns as trees: a sequence of literals, escaped characters, closed classes and groups. */
  datatype Regex =
    | Empty
    | Literal(c: char, rest: Regex)
    | Escape(c: char, rest: Regex)
    | Class(items: seq<ClassItem>, rest: Regex)
    | Group(body: Regex, rest: Regex)

  predicate WellFormed(re: Regex) {
    match re
    case Empty => true
    case Literal(c, rest) => c !in "\\[()" && WellFormed(rest)
    case Escape(_, rest) => WellFormed(rest)
    case Class(items, rest) => (forall item :: item in items && item.Plain? ==> item.c !in "\\]") && WellFormed(rest)
    case Group(body, rest) => WellFormed(body) && WellFormed(rest)
  }

  function PrintItems(items: seq<ClassItem>): string {
    if items == [] then ""
    else (match items[0] case Plain(c) => [c] case Escaped(c) => ['\\', c]) + PrintItems(items[1..])
  }

  function Print(re: Regex): string {
    match re
    case Empty => ""
    case Literal(c, rest) => [c] + Print(rest)
    case Escape(c, rest) => ['\\', c] + Print(rest)
    case Class(items, rest) => "[" + PrintItems(items) + "]" + Print(rest)
    case Group(body, rest) => "(" + Print(body) + ")" + Print(rest)
  }

  /** Read in pairs from the left, the text ends in a backslash with nothing after it. */
  predicate Dangling(s: string) {
    s != "" && (if s[0] == '\\' then |s| == 1 || Dangling(s[2..]) else Dangling(s[1..]))
  }

  lemma {:induction false} TrailingFromFront(s: string)
    requires s != ""
    ensures TrailingBackslashes(s) ==
            if s[0] == '\\' && TrailingBackslashes(s[1..]) == |s| - 1 then |s| else TrailingBackslashes(s[1..])
  {
    if |s| > 1 && s[|s| - 1] == '\\' {
      var front := s[..|s| - 1];
      TrailingFromFront(front);
      assert front[1..] == s[1..][..|s| - 2];
    }
  }

  /** The parity test fires exactly when the scan would meet a backslash with nothing after it. */
  lemma {:induction false} TrailingParityIsDangling(s: string)
    ensures TrailingBackslashes(s) % 2 == 1 <==> Dangling(s)
    decreases |s|
  {
    if s != "" {
      TrailingFromFront(s);
      if s[0] != '\\' {
        TrailingParityIsDangling(s[1..]);
      } else if |s| > 1 {
        TrailingFromFront(s[1..]);
        assert s[1..][1..] == s[2..];
        TrailingParityIsDangling(s[2..]);
      }
    }
  }

  lemma {:induction false} ScanPrintedItems(items: seq<ClassItem>, tail: string, depth: nat)
    requires forall item :: item in items && item.Plain? ==> item.c !in "\\]"
    ensures Scan(PrintItems(items) + ([']'] + tail), depth, true) == Scan(tail, depth, false)
    ensures Dangling(PrintItems(items) + ([']'] + tail)) == Dangling(tail)
    decreases |items|
  {
    if items == [] {
      assert "" + ([']'] + tail) == [']'] + tail;
    } else {
      var rest := PrintItems(items[1..]) + ([']'] + tail);
      ScanPrintedItems(items[1..], tail, depth);
      assert items[0] in items;
      match items[0] {
        case Plain(c) =>
          assert PrintItems(items) + ([']'] + tail) == [c] + rest;
        case Escaped(c) =>
          assert PrintItems(items) + ([']'] + tail) == ['\\', c] + rest;
      }
    }
  }

  lemma Assoc(a: string, b: string, c: string)
    ensures (a + b) + c == a + (b + c)
  {
  }

  /** How a printed tree with text after it starts. */
  lemma PrintedStarts(re: Regex, tail: string)
    ensures match re
            case Empty => Print(re) + tail == tail
            case Literal(c, rest) => Print(re) + tail == [c] + (Print(rest) + tail)
            case Escape(c, rest) => Print(re) + tail == ['\\', c] + (Print(rest) + tail)
            case Class(items, rest) => Print(re) + tail == ['['] + (PrintItems(items) + ([']'] + (Print(rest) + tail)))
            case Group(body, rest) => Print(re) + tail == ['('] + (Print(body) + ([')'] + (Print(rest) + tail)))
  {
    match re
    case Empty =>
    case Literal(c, rest) => Assoc([c], Print(rest), tail);
    case Escape(c, rest) => Assoc(['\\', c], Print(rest), tail);
    case Class(items, rest) => Enclosed("[", PrintItems(items), "]", Print(rest), tail);
    case Group(body, rest) => Enclosed("(", Print(body), ")", Print(rest), tail);
  }

  lemma Enclosed(open: string, body: string, close: string, rest: string, tail: string)
    ensures open + body + close + rest + tail == open + (body + (close + (rest + tail)))
  {
    Assoc(open + body + close, rest, tail);
    Assoc(open + body, close, rest + tail);
    Assoc(open, body, close + (rest + tail));
  }

  /** The scan runs through a printed tree without trace. */
  lemma {:induction false} ScanPrinted(re: Regex, tail: string, depth: nat)
    requires WellFormed(re)
    ensures Scan(Print(re) + tail, depth, false) == Scan(tail, depth, false)
    ensures Dangling(Print(re) + tail) == Dangling(tail)
    decreases re
  {
    PrintedStarts(re, tail);
    if !re.Empty? {
      var after := Print(re.rest) + tail;
      ScanPrinted(re.rest, tail, depth);
      match re
      case Literal(c, rest) =>
      case Escape(c, rest) =>
      case Class(items, rest) =>
        ScanPrintedItems(items, after, depth);
      case Group(body, rest) =>
        ScanPrinted(body, [')'] + after, depth + 1);
    }
  }

  lemma ReadsOne(s: string) returns (tail: string)
    requires s != "" && s[0] != '\\'
    ensures tail == s[1..] && s == [s[0]] + tail && Dangling(s) == Dangling(tail)
  {
    tail := s[1..];
  }

  lemma ReadsEscaped(s: string) returns (tail: string)
    requires s != "" && s[0] == '\\' && !Dangling(s)
    ensures |s| >= 2 && tail == s[2..] && s == ['\\', s[1]] + tail && !Dangling(tail)
  {
    tail := s[2..];
  }

  lemma PrintItemsCons(item: ClassItem, more: seq<ClassItem>, tail: string)
    ensures PrintItems([item] + more) + tail
         == (match item case Plain(c) => [c] case Escaped(c) => ['\\', c]) + (PrintItems(more) + tail)
  {
    assert ([item] + more)[1..] == more;
  }

  /** A class that the scan leaves again is a list of items and a closing bracket. */
  lemma {:induction false} ReadClass(s: string, depth: nat) returns (items: seq<ClassItem>, rest: string)
    requires Scan(s, depth, true) == Accepted && !Dangling(s)
    ensures forall item :: item in items && item.Plain? ==> item.c !in "\\]"
    ensures s == PrintItems(items) + ([']'] + rest) && |rest| < |s|
    ensures Scan(rest, depth, false) == Accepted && !Dangling(rest)
    decreases |s|
  {
    if s[0] == '\\' {
      var tail := ReadsEscaped(s);
      var more;
      more, rest := ReadClass(tail, depth);
      items := [Escaped(s[1])] + more;
      PrintItemsCons(Escaped(s[1]), more, [']'] + rest);
    } else if s[0] == ']' {
      items := [];
      rest := ReadsOne(s);
    } else {
      var tail := ReadsOne(s);
      var more;
      more, rest := ReadClass(tail, depth);
      items := [Plain(s[0])] + more;
      PrintItemsCons(Plain(s[0]), more, [']'] + rest);
    }
  }

  /** The tree the scan reads, up to the end or to the parenthesis that closes its group. */
  lemma {:induction false} ReadRegex(s: string, depth: nat) returns (re: Regex, rest: string)
    requires Scan(s, depth, false) == Accepted && !Dangling(s)
    ensures WellFormed(re) && s == Print(re) + rest
    ensures if rest == "" then depth == 0 else rest[0] == ')' && depth > 0
    ensures Scan(rest, depth, false) == Accepted && !Dangling(rest)
    decreases |s|
  {
    if s == "" || s[0] == ')' {
      re, rest := Empty, s;
    } else if s[0] == '\\' {
      var tail := ReadsEscaped(s);
      re, rest := ReadRegex(tail, depth);
      re := Escape(s[1], re);
    } else {
      var tail := ReadsOne(s);
      if s[0] == '[' {
        var items, after := ReadClass(tail, depth);
        re, rest := ReadRegex(after, depth);
        re := Class(items, re);
      } else if s[0] == '(' {
        var body, close := ReadRegex(tail, depth + 1);
        var after := ReadsOne(close);
        re, rest := ReadRegex(after, depth);
        re := Group(body, re);
      } else {
        re, rest := ReadRegex(tail, depth);
        re := Literal(s[0], re);
      }
    }
    PrintedStarts(re, rest);
  }

  /** The check accepts exactly the patterns of the grammar. */
  lemma AcceptedIffGrammar(pattern: string)
    ensures PatternVerdict(pattern) == Accepted <==> exists re :: WellFormed(re) && Print(re) == pattern
  {
    TrailingParityIsDangling(pattern);
    if PatternVerdict(pattern) == Accepted {
      var re, rest := ReadRegex(pattern, 0);
      assert Print(re) + "" == Print(re);
    }
    if exists re :: WellFormed(re) && Print(re) == pattern {
      var re :| WellFormed(re) && Print(re) == pattern;
      ScanPrinted(re, "", 0);
      assert Print(re) + "" == pattern;
    }
  }

  // ---- combinations, ranges and defaults ---------------------------------------------------

  datatype Constraints = Constraints(
    min: Option<int>, max: Option<int>, length: Option<nat>,
    between: Option<(int, int)>, oneOf: Option<seq<string>>, pattern: Option<string>)

  datatype Combo = LengthMin | LengthMax | BetweenMin | BetweenMax | InPattern

  /** The first conflicting pair, in the order the rules are tried. */
  function CombinationConflict(c: Constraints): Option<Combo> {
    if c.length.Some? && c.min.Some? then Some(LengthMin)
    else if c.length.Some? && c.max.Some? then Some(LengthMax)
    else if c.between.Some? && c.min.Some? then Some(BetweenMin)
    else if c.between.Some? && c.max.Some? then Some(BetweenMax)
    else if c.oneOf.Some? && c.pattern.Some? then Some(InPattern)
    else None
  }

  predicate RangeIsEmpty(c: Constraints) {
    || (c.min.Some? && c.max.Some? && c.min.value > c.max.value)
    || (c.between.Some? && c.between.value.0 > c.between.value.1)
  }

  predicate I64(n: int) {
    -I64_MAX - 1 <= n <= I64_MAX
  }

  /** Bounds are stored as 64-bit integers. */
  predicate BoundsAreI64(c: Constraints) {
    && (c.min.Some? ==> I64(c.min.value)) && (c.max.Some? ==> I64(c.max.value))
    && (c.between.Some? ==> I64(c.between.value.0) && I64(c.between.value.1))
  }

  predicate InRange(c: Constraints, n: int) {
    && (c.min.Some? ==> c.min.value <= n) && (c.max.Some? ==> n <= c.max.value)
    && (c.between.Some? ==> c.between.value.0 <= n <= c.between.value.1)
  }

  /** For constraints without a conflicting pair, the range check rejects exactly the
      ones no 64-bit integer can meet. */
  lemma RangeCheckIsExact(c: Constraints)
    requires BoundsAreI64(c) && CombinationConflict(c).None?
    ensures RangeIsEmpty(c) <==> !exists n :: I64(n) && InRange(c, n)
  {
    if !RangeIsEmpty(c) {
      var n := if c.between.Some? then c.between.value.0
               else if c.min.Some? then c.min.value
               else if c.max.Some? then c.max.value
               else 0;
      assert I64(n) && InRange(c, n);
    }
  }

  /** Without double quotes around it, if it has them. */
  function Unquoted(defaultRaw: string): string {
    var d := Trim(defaultRaw);
    if |d| >= 2 && d[0] == '"' && d[|d| - 1] == '"' then d[1..|d| - 1] else d
  }

  datatype Rule = RuleLength | RuleMin | RuleMax | RuleBetween | RuleIn | RulePattern

  /** The first rule the default breaks. Bounds count characters when it is not an integer. */
  function DefaultViolation(defaultRaw: string, c: Constraints): Option<Rule> {
    var unquoted := Unquoted(defaultRaw);
    var asInt := ParseI64(unquoted);
    var measure := if asInt.Some? then asInt.value else |unquoted|;
    if c.length.Some? && |unquoted| != c.length.value then Some(RuleLength)
    else if c.min.Some? && measure < c.min.value then Some(RuleMin)
    else if c.max.Some? && measure > c.max.value then Some(RuleMax)
    else if c.between.Some? && asInt.Some? &&
            (asInt.value < c.between.value.0 || asInt.value > c.between.value.1) then Some(RuleBetween)
    else if c.oneOf.Some? && unquoted !in c.oneOf.value then Some(RuleIn)
    else if c.pattern.Some? && unquoted == "" && c.pattern.value != "" then Some(RulePattern)
    else None
  }

  /** An integer default, printed in the usual way, passes the numeric rules exactly when
      it is in range; so an empty range admits no integer default. */
  lemma IntegerDefaultIffInRange(n: int, c: Constraints)
    requires I64(n) && c.length.None? && c.oneOf.None?
    ensures DefaultViolation(Print10(n), c).None? <==> InRange(c, n)
    ensures RangeIsEmpty(c) ==> DefaultViolation(Print10(n), c).Some?
  {
    ParsePrinted(n);
    PrintedIsBare(n);
  }

  function Print10(n: int): string {
    Decimal.Print(n)
  }

  lemma PrintedIsBare(n: int)
    ensures Print10(n) != "" && Unquoted(Print10(n)) == Print10(n)
  {
    var s := Print10(n);
    assert forall i :: 0 <= i < |s| ==> s[i] == '-' || IsDigit(s[i]);
    TrimOfTrimmed(s);
  }

  /** A default that does not read as an integer meets `min` and `max` with its number of
      characters, and `between` never applies to it. */
  lemma TextDefaultIffLengthInRange(defaultRaw: string, c: Constraints)
    requires ParseI64(Unquoted(defaultRaw)).None?
    ensures DefaultViolation(defaultRaw, c) != Some(RuleBetween)
    ensures c.length.None? && c.oneOf.None? && c.pattern.None? ==>
              (DefaultViolation(defaultRaw, c).None? <==>
               (c.min.Some? ==> c.min.value <= |Unquoted(defaultRaw)|) &&
               (c.max.Some? ==> |Unquoted(defaultRaw)| <= c.max.value))
  {
  }

  /** A text default that the numeric rules do not pass over: three characters against `min 5`. */
  lemma TextDefaultIsRejected()
    ensures var c := Constraints(Some(5), None, None, None, None, None);
            ParseI64(Unquoted("abc")).None? && DefaultViolation("abc", c) == Some(RuleMin)
  {
    TrimOfTrimmed("abc");
    assert !IsDigit("abc"[0]);
  }
}
