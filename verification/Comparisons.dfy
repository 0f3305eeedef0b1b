/** Closed predicates and query filters: one comparison, split at its operator. */
module Comparisons {
  import opened Wrappers
  import opened Text
  import opened Expr

  // ---- finding an operator outside quotes ------------------------------------------------------

  /** Whether position `k` is inside double quotes: an odd number of them stand before it. */
  predicate Quoted(text: string, k: nat)
    requires k <= |text|
  {
    k > 0 && Quoted(text, k - 1) != (text[k - 1] == '"')
  }

  predicate OpAt(text: string, op: string, k: nat) {
    k < |text| && !Quoted(text, k) && text[k] != '"' && StartsWith(text[k..], op)
  }

  function FindFrom(text: string, op: string, i: nat, inQuote: bool): (at: Option<nat>)
    requires i <= |text|
    ensures at.Some? ==> i <= at.value < |text| && |op| <= |text| - at.value
    decreases |text| - i
  {
    if i == |text| then None
    else if text[i] == '"' then FindFrom(text, op, i + 1, !inQuote)
    else if !inQuote && StartsWith(text[i..], op) then Some(i)
    else FindFrom(text, op, i + 1, inQuote)
  }

  method FindTopLevelOperator(text: string, op: string) returns (at: Option<nat>)
    ensures at == FindFrom(text, op, 0, false)
  {
    var inQuote := false;
    var i := 0;
    while i < |text|
      invariant 0 <= i <= |text|
      invariant FindFrom(text, op, i, inQuote) == FindFrom(text, op, 0, false)
    {
      var b := text[i];
      if b == '"' {
        inQuote := !inQuote;
        i := i + 1;
        continue;
      }
      if !inQuote && StartsWith(text[i..], op) {
        return Some(i);
      }
      i := i + 1;
    }
    return None;
  }

  /** The search yields the first place outside quotes where the operator stands. */
  lemma {:induction false} FindIsFirst(text: string, op: string, i: nat)
    requires i <= |text|
    ensures match FindFrom(text, op, i, Quoted(text, i))
            case None => forall k :: i <= k ==> !OpAt(text, op, k)
            case Some(at) => OpAt(text, op, at) && forall k :: i <= k < at ==> !OpAt(text, op, k)
    decreases |text| - i
  {
    if i < |text| && !OpAt(text, op, i) {
      FindIsFirst(text, op, i + 1);
    }
  }

  // ---- the two parsers ---------------------------------------------------------------------------

  datatype CompareOp = Le | Ge | Ne | Lt | Gt | Eq

  function Token(op: CompareOp): string {
    match op
    case Le => "<="
    case Ge => ">="
    case Ne => "!="
    case Lt => "<"
    case Gt => ">"
    case Eq => "=="
  }

  /** The order in which operators are tried. */
  const ORDER := [Le, Ge, Ne, Lt, Gt, Eq]

  datatype EvalPredicate = Closed(left: Expr, op: CompareOp, right: Expr) | Unparsed(text: string)

  function ParseClosedFrom(text: string, trimmed: string, ops: seq<CompareOp>): EvalPredicate {
    if ops == [] then Unparsed(text)
    else
      match FindFrom(trimmed, Token(ops[0]), 0, false)
      case None => ParseClosedFrom(text, trimmed, ops[1..])
      case Some(at) =>
        var lhs, rhs := Trim(trimmed[..at]), Trim(trimmed[at + |Token(ops[0])|..]);
        if lhs == "" || rhs == "" then Unparsed(text) else Closed(ExprFromText(lhs), ops[0], ExprFromText(rhs))
  }

  function ParseClosedPredicate(text: string): EvalPredicate {
    ParseClosedFrom(text, Trim(text), ORDER)
  }

  datatype Filter = Filter(left: Expr, op: CompareOp, right: Expr)

  function FilterLhsExpr(text: string): Expr {
    Path(SplitOn(text, '.'))
  }

  function FilterRhsExpr(text: string): Expr {
    var t := Trim(text);
    if Literal(t).Some? then Literal(t).value
    else if '.' in t then Path(SplitOn(t, '.'))
    else Enum(t)
  }

  function ParseFilterFrom(trimmed: string, ops: seq<CompareOp>): Option<Filter> {
    if ops == [] then None
    else
      match FindFrom(trimmed, Token(ops[0]), 0, false)
      case None => ParseFilterFrom(trimmed, ops[1..])
      case Some(at) =>
        var lhs, rhs := Trim(trimmed[..at]), Trim(trimmed[at + |Token(ops[0])|..]);
        if lhs == "" || rhs == "" then None else Some(Filter(FilterLhsExpr(lhs), ops[0], FilterRhsExpr(rhs)))
  }

  function ParseQueryFilterLine(text: string): Option<Filter> {
    var trimmed := Trim(text);
    if trimmed == "" || trimmed[0] == '#' then None else ParseFilterFrom(trimmed, ORDER)
  }

  // ---- the parsers agree ---------------------------------------------------------------------------

  /** The operator both loops stop at: the first in order that stands anywhere outside quotes. */
  function FirstOp(trimmed: string, ops: seq<CompareOp>): (first: Option<(CompareOp, nat)>)
    ensures first.Some? ==> first.value.1 + |Token(first.value.0)| <= |trimmed|
  {
    if ops == [] then None
    else
      match FindFrom(trimmed, Token(ops[0]), 0, false)
      case None => FirstOp(trimmed, ops[1..])
      case Some(at) => Some((ops[0], at))
  }

  /** What the predicate parser makes of the operator it stops at. */
  function ClosedAt(text: string, trimmed: string, first: Option<(CompareOp, nat)>): EvalPredicate
    requires first.Some? ==> first.value.1 + |Token(first.value.0)| <= |trimmed|
  {
    if first.None? then Unparsed(text)
    else
      var (op, at) := first.value;
      var lhs, rhs := Trim(trimmed[..at]), Trim(trimmed[at + |Token(op)|..]);
      if lhs == "" || rhs == "" then Unparsed(text) else Closed(ExprFromText(lhs), op, ExprFromText(rhs))
  }

  function FilterAt(trimmed: string, first: Option<(CompareOp, nat)>): Option<Filter>
    requires first.Some? ==> first.value.1 + |Token(first.value.0)| <= |trimmed|
  {
    if first.None? then None
    else
      var (op, at) := first.value;
      var lhs, rhs := Trim(trimmed[..at]), Trim(trimmed[at + |Token(op)|..]);
      if lhs == "" || rhs == "" then None else Some(Filter(FilterLhsExpr(lhs), op, FilterRhsExpr(rhs)))
  }

  lemma {:induction false} ClosedByFirst(text: string, trimmed: string, ops: seq<CompareOp>)
    ensures ParseClosedFrom(text, trimmed, ops) == ClosedAt(text, trimmed, FirstOp(trimmed, ops))
    decreases |ops|
  {
    if ops != [] {
      match FindFrom(trimmed, Token(ops[0]), 0, false) {
        case None => ClosedByFirst(text, trimmed, ops[1..]);
        case Some(at) => assert FirstOp(trimmed, ops) == Some((ops[0], at));
      }
    }
  }

  lemma {:induction false} FilterByFirst(trimmed: string, ops: seq<CompareOp>)
    ensures ParseFilterFrom(trimmed, ops) == FilterAt(trimmed, FirstOp(trimmed, ops))
    decreases |ops|
  {
    if ops != [] {
      match FindFrom(trimmed, Token(ops[0]), 0, false) {
        case None => FilterByFirst(trimmed, ops[1..]);
        case Some(at) => assert FirstOp(trimmed, ops) == Some((ops[0], at));
      }
    }
  }

  /** Both results come from the same operand texts around the same operator. */
  predicate SameSplit(closed: EvalPredicate, filter: Option<Filter>, lhs: string, rhs: string) {
    && closed.Closed? && filter.Some? && closed.op == filter.value.op
    && Trimmed(lhs) && lhs != "" && Trimmed(rhs) && rhs != ""
    && closed.left == ExprFromText(lhs) && filter.value.left == FilterLhsExpr(lhs)
    && closed.right == ExprFromText(rhs) && filter.value.right == FilterRhsExpr(rhs)
  }

  /** Both reject, or both accept with the same split. */
  ghost predicate Agree(closed: EvalPredicate, filter: Option<Filter>) {
    || (closed.Unparsed? && filter.None?)
    || exists lhs, rhs :: SameSplit(closed, filter, lhs, rhs)
  }

  lemma SidesAgree(text: string, trimmed: string, first: Option<(CompareOp, nat)>)
    requires first.Some? ==> first.value.1 + |Token(first.value.0)| <= |trimmed|
    ensures Agree(ClosedAt(text, trimmed, first), FilterAt(trimmed, first))
  {
    if first.Some? {
      var (op, at) := first.value;
      var left, right := trimmed[..at], trimmed[at + |Token(op)|..];
      TrimYieldsTrimmed(left);
      TrimYieldsTrimmed(right);
      if Trim(left) != "" && Trim(right) != "" {
        assert SameSplit(ClosedAt(text, trimmed, first), FilterAt(trimmed, first), Trim(left), Trim(right));
      }
    }
  }

  lemma LoopsAgree(text: string, trimmed: string, ops: seq<CompareOp>)
    ensures Agree(ParseClosedFrom(text, trimmed, ops), ParseFilterFrom(trimmed, ops))
  {
    ClosedByFirst(text, trimmed, ops);
    FilterByFirst(trimmed, ops);
    SidesAgree(text, trimmed, FirstOp(trimmed, ops));
  }

  /** The two parsers accept the same texts, comment lines aside, and split them alike. */
  lemma ParsersAgree(text: string)
    ensures if StartsWith(Trim(text), "#") then ParseQueryFilterLine(text).None?
            else Agree(ParseClosedPredicate(text), ParseQueryFilterLine(text))
  {
    var t := Trim(text);
    LoopsAgree(text, t, ORDER);
    assert t != "" ==> t[..1] == [t[0]];
    if t == "" {
      BlankHasNoOp(ORDER);
      ClosedByFirst(text, t, ORDER);
    }
  }

  lemma {:induction false} BlankHasNoOp(ops: seq<CompareOp>)
    ensures FirstOp("", ops).None?
    decreases |ops|
  {
    if ops != [] {
      BlankHasNoOp(ops[1..]);
    }
  }

  /** The right operands differ exactly on a bare name, an enum variant to the filter and a
      path to the predicate; the left ones exactly on literals. */
  lemma OperandsDifferIff(t: string)
    requires Trimmed(t)
    ensures FilterRhsExpr(t) != ExprFromText(t) <==> Literal(t).None? && '.' !in t
    ensures FilterLhsExpr(t) != ExprFromText(t) <==> Literal(t).Some?
  {
    TrimOfTrimmed(t);
  }

  // ---- printing and parsing back ---------------------------------------------------------------------

  predicate IsOpChar(c: char) {
    c == '<' || c == '>' || c == '=' || c == '!'
  }

  /** No operator character outside quotes. */
  predicate OpFree(s: string) {
    forall k {:trigger s[k]} :: 0 <= k < |s| && !Quoted(s, k) ==> !IsOpChar(s[k])
  }

  predicate QuotesClosed(s: string) {
    !Quoted(s, |s|)
  }

  lemma {:induction false} QuotedPrefix(a: string, b: string, k: nat)
    requires k <= |a|
    ensures Quoted(a + b, k) == Quoted(a, k)
  {
    if k > 0 {
      QuotedPrefix(a, b, k - 1);
    }
  }

  lemma {:induction false} QuotedSuffix(a: string, b: string, j: nat)
    requires j <= |b|
    ensures Quoted(a + b, |a| + j) == (Quoted(a, |a|) != Quoted(b, j))
  {
    if j > 0 {
      QuotedSuffix(a, b, j - 1);
    } else {
      QuotedPrefix(a, b, |a|);
    }
  }

  lemma {:induction false} NoQuotes(s: string, k: nat)
    requires k <= |s| && '"' !in s
    ensures !Quoted(s, k)
  {
    if k > 0 {
      NoQuotes(s, k - 1);
    }
  }

  /** Two operator-free texts that leave no quote open in the first make one. */
  lemma OpFreeAppend(a: string, b: string)
    requires OpFree(a) && OpFree(b) && QuotesClosed(a)
    ensures OpFree(a + b) && Quoted(a + b, |a + b|) == Quoted(b, |b|)
  {
    QuotedSuffix(a, b, |b|);
    forall k | 0 <= k < |a + b| && !Quoted(a + b, k) ensures !IsOpChar((a + b)[k]) {
      if k < |a| {
        QuotedPrefix(a, b, k);
      } else {
        QuotedSuffix(a, b, k - |a|);
      }
    }
  }

  lemma BlankIsOpFree(s: string)
    requires Blank(s)
    ensures OpFree(s) && QuotesClosed(s)
  {
    NoQuotes(s, |s|);
  }

  /** Outside quotes, operator characters stand only in the operator. */
  lemma OnlyInToken(a: string, tok: string, c: string, k: nat)
    requires OpFree(a) && QuotesClosed(a) && OpFree(c) && '"' !in tok
    requires k < |a + (tok + c)| && !Quoted(a + (tok + c), k) && IsOpChar((a + (tok + c))[k])
    ensures |a| <= k < |a| + |tok|
  {
    if k < |a| {
      QuotedPrefix(a, tok + c, k);
    } else if k >= |a| + |tok| {
      QuotedSuffix(a, tok + c, k - |a|);
      QuotedSuffix(tok, c, k - |a| - |tok|);
      NoQuotes(tok, |tok|);
    }
  }

  lemma NotAfterToken(a: string, tok: string, c: string)
    requires QuotesClosed(a) && OpFree(c) && '"' !in tok && c != ""
    ensures !IsOpChar((a + (tok + c))[|a| + |tok|])
  {
    assert !Quoted(c, 0);
  }

  function Rank(op: CompareOp): nat {
    match op
    case Le => 0
    case Ge => 1
    case Ne => 2
    case Lt => 3
    case Gt => 4
    case Eq => 5
  }

  lemma TokenShape(op: CompareOp)
    ensures 1 <= |Token(op)| <= 2 && '"' !in Token(op)
    ensures forall i :: 0 <= i < |Token(op)| ==> IsOpChar(Token(op)[i])
  {
  }

  lemma StartsChars(t: string, k: nat, tok: string, i: nat)
    requires k <= |t| && StartsWith(t[k..], tok) && i < |tok|
    ensures k + i < |t| && t[k + i] == tok[i]
  {
    assert t[k..][..|tok|][i] == t[k + i];
  }

  lemma TokenChars(a: string, tok: string, c: string)
    ensures forall i {:trigger tok[i]} :: 0 <= i < |tok| ==> (a + (tok + c))[|a| + i] == tok[i]
  {
  }

  /** An operator tried earlier is found nowhere. */
  lemma EarlierNotAt(a: string, op: CompareOp, c: string, other: CompareOp, k: nat)
    requires OpFree(a) && QuotesClosed(a) && OpFree(c) && Rank(other) < Rank(op)
    ensures !OpAt(a + (Token(op) + c), Token(other), k)
  {
    var tok := Token(op);
    var t := a + (tok + c);
    if OpAt(t, Token(other), k) {
      TokenShape(op);
      TokenShape(other);
      StartsChars(t, k, Token(other), 0);
      OnlyInToken(a, tok, c, k);
      TokenChars(a, tok, c);
      if |Token(other)| == 2 {
        StartsChars(t, k, Token(other), 1);
        if k + 1 == |a| + |tok| {
          NotAfterToken(a, tok, c);
        }
      }
    }
  }

  lemma EarlierNotFound(a: string, op: CompareOp, c: string, other: CompareOp)
    requires OpFree(a) && QuotesClosed(a) && OpFree(c) && Rank(other) < Rank(op)
    ensures FindFrom(a + (Token(op) + c), Token(other), 0, false).None?
  {
    var t := a + (Token(op) + c);
    FindIsFirst(t, Token(other), 0);
    if FindFrom(t, Token(other), 0, false).Some? {
      EarlierNotAt(a, op, c, other, FindFrom(t, Token(other), 0, false).value);
    }
  }

  lemma OwnFound(a: string, op: CompareOp, c: string)
    requires OpFree(a) && QuotesClosed(a) && OpFree(c)
    ensures FindFrom(a + (Token(op) + c), Token(op), 0, false) == Some(|a|)
  {
    var tok := Token(op);
    var t := a + (tok + c);
    TokenShape(op);
    QuotedPrefix(a, tok + c, |a|);
    assert t[|a|..] == tok + c && (tok + c)[..|tok|] == tok;
    assert OpAt(t, tok, |a|);
    FindIsFirst(t, tok, 0);
    var at := FindFrom(t, tok, 0, false);
    if at != Some(|a|) {
      StartsChars(t, at.value, tok, 0);
      OnlyInToken(a, tok, c, at.value);
    }
  }

  lemma {:induction false} OpReached(a: string, op: CompareOp, c: string, order: seq<CompareOp>, i: nat)
    requires OpFree(a) && QuotesClosed(a) && OpFree(c) && i <= Rank(op) && order == ORDER
    ensures FirstOp(a + (Token(op) + c), order[i..]) == Some((op, |a|))
    decreases Rank(op) - i
  {
    assert Rank(order[i]) == i && order[Rank(op)] == op && order[i..][1..] == order[i + 1..];
    if i < Rank(op) {
      EarlierNotFound(a, op, c, order[i]);
      OpReached(a, op, c, order, i + 1);
    } else {
      OwnFound(a, op, c);
    }
  }

  /** Operands that hold no operator outside quotes; the left one closes its quotes. */
  predicate GoodOperands(lhs: string, rhs: string) {
    && Trimmed(lhs) && lhs != "" && OpFree(lhs) && QuotesClosed(lhs)
    && Trimmed(rhs) && rhs != "" && OpFree(rhs)
  }

  function PrintComparison(lhs: string, before: string, op: CompareOp, after: string, rhs: string): string {
    (lhs + before) + (Token(op) + (after + rhs))
  }

  /** What the parsers need to know of a printed comparison. */
  predicate PrintedShape(t: string, at: nat, op: CompareOp, lhs: string, rhs: string) {
    && t != "" && lhs != "" && at + |Token(op)| <= |t| && t[0] == lhs[0] && Trim(t) == t
    && Trim(t[..at]) == lhs && Trim(t[at + |Token(op)|..]) == rhs
  }

  lemma SidesOf(a: string, token: string, c: string)
    ensures var t := a + (token + c); t[..|a|] == a && t[|a| + |token|..] == c
  {
  }

  lemma SidesTrim(lhs: string, before: string, after: string, rhs: string)
    requires Trimmed(lhs) && Trimmed(rhs) && Blank(before) && Blank(after)
    ensures Trim(lhs + before) == lhs && Trim(after + rhs) == rhs
  {
    TrimPadded("", lhs, before);
    TrimPadded(after, rhs, "");
    assert "" + lhs + before == lhs + before && after + rhs + "" == after + rhs;
  }

  lemma WholeIsTrimmed(lhs: string, middle: string, rhs: string, t: string)
    requires t == lhs + middle + rhs && lhs != "" && rhs != "" && Trimmed(lhs) && Trimmed(rhs)
    ensures t != "" && t[0] == lhs[0] && Trim(t) == t
  {
    assert t[|t| - 1] == rhs[|rhs| - 1];
    TrimOfTrimmed(t);
  }

  lemma Regroup(a: string, b: string, c: string, d: string, e: string)
    ensures (a + b) + (c + (d + e)) == a + (b + c + d) + e
  {
  }

  lemma PrintedHasShape(lhs: string, before: string, op: CompareOp, after: string, rhs: string)
    requires GoodOperands(lhs, rhs) && Blank(before) && Blank(after)
    ensures PrintedShape(PrintComparison(lhs, before, op, after, rhs), |lhs + before|, op, lhs, rhs)
  {
    var a, c := lhs + before, after + rhs;
    var t := a + (Token(op) + c);
    SidesOf(a, Token(op), c);
    SidesTrim(lhs, before, after, rhs);
    Regroup(lhs, before, Token(op), after, rhs);
    WholeIsTrimmed(lhs, before + Token(op) + after, rhs, t);
  }

  lemma OperandsAreOpFree(lhs: string, before: string, after: string, rhs: string)
    requires GoodOperands(lhs, rhs) && Blank(before) && Blank(after)
    ensures OpFree(lhs + before) && QuotesClosed(lhs + before) && OpFree(after + rhs)
  {
    BlankIsOpFree(before);
    BlankIsOpFree(after);
    OpFreeAppend(lhs, before);
    OpFreeAppend(after, rhs);
  }

  lemma FirstOfPrinted(lhs: string, before: string, op: CompareOp, after: string, rhs: string, order: seq<CompareOp>)
    requires GoodOperands(lhs, rhs) && Blank(before) && Blank(after) && order == ORDER
    ensures FirstOp(PrintComparison(lhs, before, op, after, rhs), order) == Some((op, |lhs + before|))
  {
    OperandsAreOpFree(lhs, before, after, rhs);
    OpReached(lhs + before, op, after + rhs, order, 0);
    assert order[0..] == order;
  }

  /** Text whose first operator and sides are known is read by both parsers. */
  lemma ReadAt(t: string, op: CompareOp, at: nat, lhs: string, rhs: string, order: seq<CompareOp>)
    requires order == ORDER && FirstOp(t, order) == Some((op, at))
    requires rhs != "" && PrintedShape(t, at, op, lhs, rhs)
    ensures ParseClosedPredicate(t) == Closed(ExprFromText(lhs), op, ExprFromText(rhs))
    ensures ParseQueryFilterLine(t)
         == if lhs[0] == '#' then None else Some(Filter(FilterLhsExpr(lhs), op, FilterRhsExpr(rhs)))
  {
    ClosedByFirst(t, t, order);
    SidesAt(t, op, at, lhs, rhs);
    FilterByFirst(t, order);
  }

  lemma SidesAt(t: string, op: CompareOp, at: nat, lhs: string, rhs: string)
    requires rhs != "" && PrintedShape(t, at, op, lhs, rhs)
    ensures ClosedAt(t, t, Some((op, at))) == Closed(ExprFromText(lhs), op, ExprFromText(rhs))
    ensures FilterAt(t, Some((op, at))) == Some(Filter(FilterLhsExpr(lhs), op, FilterRhsExpr(rhs)))
  {
  }

  /** Every comparison printed with any spacing parses back to the same three parts, in both
      parsers, for all six operators. */
  lemma ParsePrintedComparison(lhs: string, before: string, op: CompareOp, after: string, rhs: string)
    requires GoodOperands(lhs, rhs) && Blank(before) && Blank(after)
    ensures var t := PrintComparison(lhs, before, op, after, rhs);
            && ParseClosedPredicate(t) == Closed(ExprFromText(lhs), op, ExprFromText(rhs))
            && ParseQueryFilterLine(t)
               == if lhs[0] == '#' then None else Some(Filter(FilterLhsExpr(lhs), op, FilterRhsExpr(rhs)))
  {
    var order := ORDER;
    PrintedHasShape(lhs, before, op, after, rhs);
    FirstOfPrinted(lhs, before, op, after, rhs, order);
    ReadAt(PrintComparison(lhs, before, op, after, rhs), op, |lhs + before|, lhs, rhs, order);
  }
}
