/** Freeform expressions: literals, dotted paths and nested `@fn` calls read from text. */
module Expr {
  import opened Wrappers
  import opened Text
  import opened Decimal

  datatype Expr =
    | String(value: string)
    | Integer(n: int)
    | Boolean(b: bool)
    | Nil
    | Path(segments: seq<string>)
    | Enum(variant: string)
    | FnCall(name: string, args: seq<Expr>)

  // ---- splitting call arguments -----------------------------------------------------------

  /** Open parentheses (never below zero), and whether the scan is inside quotes. */
  datatype Nest = Nest(depth: nat, inQuote: bool)

  const TOP := Nest(0, false)

  function Step(st: Nest, c: char): Nest {
    if c == '"' then st.(inQuote := !st.inQuote)
    else if st.inQuote then st
    else if c == '(' then st.(depth := st.depth + 1)
    else if c == ')' then st.(depth := if st.depth == 0 then 0 else st.depth - 1)
    else st
  }

  /** A comma that separates arguments. */
  predicate Breaks(st: Nest, c: char) {
    c == ',' && st == TOP
  }

  /** The texts between separating commas: always at least one. */
  function Pieces(s: string, st: Nest): (pieces: seq<string>)
    ensures |pieces| >= 1
    decreases |s|
  {
    if s == "" then [""]
    else if Breaks(st, s[0]) then [""] + Pieces(s[1..], st)
    else Glue([s[0]], Pieces(s[1..], Step(st, s[0])))
  }

  function Glue(text: string, pieces: seq<string>): (glued: seq<string>)
    requires pieces != []
    ensures |glued| == |pieces|
  {
    [text + pieces[0]] + pieces[1..]
  }

  function KeptOne(piece: string): seq<string> {
    var part := Trim(piece);
    if part == "" then [] else [part]
  }

  /** Trimmed, without the blank ones. */
  function Kept(pieces: seq<string>): seq<string> {
    if pieces == [] then [] else KeptOne(pieces[0]) + Kept(pieces[1..])
  }

  function SplitArgs(input: string): seq<string> {
    Kept(Pieces(input, TOP))
  }

  lemma GlueGlue(a: string, b: string, pieces: seq<string>)
    requires pieces != []
    ensures Glue(a, Glue(b, pieces)) == Glue(a + b, pieces)
  {
    assert a + (b + pieces[0]) == a + b + pieces[0];
  }

  lemma GlueNothing(empty: string, pieces: seq<string>)
    requires empty == "" && pieces != []
    ensures Glue(empty, pieces) == pieces
  {
    assert empty + pieces[0] == pieces[0];
  }

  lemma KeptCons(first: string, rest: seq<string>)
    ensures Kept([first] + rest) == KeptOne(first) + Kept(rest)
  {
    assert ([first] + rest)[1..] == rest;
  }

  /** What a split that has put out `out`, and is at `i` in an argument begun at `start`, will yield. */
  ghost function Yield(input: string, out: seq<string>, start: nat, i: nat, st: Nest): seq<string>
    requires start <= i <= |input|
  {
    out + Kept(Glue(input[start..i], Pieces(input[i..], st)))
  }

  lemma YieldAtBreak(input: string, out: seq<string>, start: nat, i: nat, st: Nest)
    requires start <= i < |input| && Breaks(st, input[i])
    ensures Yield(input, out, start, i, st) == Yield(input, out + KeptOne(input[start..i]), i + 1, i + 1, st)
  {
    var part, rest := input[start..i], Pieces(input[i + 1..], st);
    assert input[i..][1..] == input[i + 1..];
    assert part + "" == part && ([""] + rest)[1..] == rest;
    assert Glue(part, [""] + rest) == [part] + rest;
    KeptCons(part, rest);
    GlueNothing(input[i + 1..i + 1], rest);
    assert out + (KeptOne(part) + Kept(rest)) == out + KeptOne(part) + Kept(rest);
  }

  lemma YieldInside(input: string, out: seq<string>, start: nat, i: nat, st: Nest)
    requires start <= i < |input| && !Breaks(st, input[i])
    ensures Yield(input, out, start, i, st) == Yield(input, out, start, i + 1, Step(st, input[i]))
  {
    assert input[i..][1..] == input[i + 1..];
    GlueGlue(input[start..i], [input[i]], Pieces(input[i + 1..], Step(st, input[i])));
    assert input[start..i] + [input[i]] == input[start..i + 1];
  }

  lemma YieldAtEnd(input: string, out: seq<string>, start: nat, st: Nest)
    requires start <= |input|
    ensures Yield(input, out, start, |input|, st) == out + KeptOne(input[start..])
  {
    assert input[|input|..] == "" && input[start..|input|] == input[start..];
    assert input[start..] + "" == input[start..];
    assert Glue(input[start..], [""]) == [input[start..]] + [];
    KeptCons(input[start..], []);
    assert KeptOne(input[start..]) + [] == KeptOne(input[start..]);
  }

  /** The split as a scan over positions. */
  function Scan(input: string, i: nat, start: nat, st: Nest, out: seq<string>): seq<string>
    requires start <= i <= |input|
    decreases |input| - i
  {
    if i == |input| then out + KeptOne(input[start..])
    else if Breaks(st, input[i]) then Scan(input, i + 1, i + 1, st, out + KeptOne(input[start..i]))
    else Scan(input, i + 1, start, Step(st, input[i]), out)
  }

  lemma {:induction false} ScanYields(input: string, i: nat, start: nat, st: Nest, out: seq<string>)
    requires start <= i <= |input|
    ensures Scan(input, i, start, st, out) == Yield(input, out, start, i, st)
    decreases |input| - i
  {
    if i == |input| {
      YieldAtEnd(input, out, start, st);
    } else if Breaks(st, input[i]) {
      YieldAtBreak(input, out, start, i, st);
      ScanYields(input, i + 1, i + 1, st, out + KeptOne(input[start..i]));
    } else {
      YieldInside(input, out, start, i, st);
      ScanYields(input, i + 1, start, Step(st, input[i]), out);
    }
  }

  lemma ScanIsSplit(input: string)
    ensures Scan(input, 0, 0, TOP, []) == SplitArgs(input)
  {
    ScanYields(input, 0, 0, TOP, []);
    assert input[0..] == input;
    GlueNothing(input[0..0], Pieces(input, TOP));
  }

  method SplitFnCallArgs(input: string) returns (out: seq<string>)
    ensures out == SplitArgs(input)
  {
    out := [];
    var depth: nat := 0;
    var inQuote := false;
    var start, i := 0, 0;
    while i < |input|
      invariant 0 <= start <= i <= |input|
      invariant Scan(input, i, start, Nest(depth, inQuote), out) == Scan(input, 0, 0, TOP, [])
    {
      var b := input[i];
      if b == '"' {
        inQuote := !inQuote;
      } else if !inQuote {
        if b == '(' {
          depth := depth + 1;
        } else if b == ')' {
          depth := if depth == 0 then 0 else depth - 1;
        } else if b == ',' && depth == 0 {
          var part := Trim(input[start..i]);
          assert out + [] == out;
          if part != "" {
            out := out + [part];
          }
          start := i + 1;
        }
      }
      i := i + 1;
    }
    var tail := Trim(input[start..]);
    assert out + [] == out;
    if tail != "" {
      out := out + [tail];
    }
    ScanIsSplit(input);
  }

  // ---- splitting inverts joining ------------------------------------------------------------

  function Run(st: Nest, s: string): Nest
    decreases |s|
  {
    if s == "" then st else Run(Step(st, s[0]), s[1..])
  }

  predicate NoBreak(st: Nest, s: string)
    decreases |s|
  {
    s == "" || (!Breaks(st, s[0]) && NoBreak(Step(st, s[0]), s[1..]))
  }

  /** Scanned from `st`, the text holds no separating comma and closes all it opens. */
  predicate Whole(s: string, st: Nest) {
    NoBreak(st, s) && Run(st, s) == st
  }

  lemma {:induction false} RunAppend(st: Nest, a: string, b: string)
    ensures Run(st, a + b) == Run(Run(st, a), b)
    ensures NoBreak(st, a + b) == (NoBreak(st, a) && NoBreak(Run(st, a), b))
    decreases |a|
  {
    if a == "" {
      assert a + b == b;
    } else {
      assert (a + b)[1..] == a[1..] + b;
      RunAppend(Step(st, a[0]), a[1..], b);
    }
  }

  lemma RunOne(st: Nest, c: char)
    ensures Run(st, [c]) == Step(st, c) && NoBreak(st, [c]) == !Breaks(st, c)
  {
    assert [c][1..] == "";
  }

  lemma WholeAppend(a: string, b: string, st: Nest)
    requires Whole(a, st) && Whole(b, st)
    ensures Whole(a + b, st)
  {
    RunAppend(st, a, b);
  }

  /** Text without parentheses, commas and quotes. */
  predicate Plain(s: string) {
    forall i :: 0 <= i < |s| ==> s[i] != '(' && s[i] != ')' && s[i] != ',' && s[i] != '"'
  }

  lemma {:induction false} PlainIsWhole(s: string, st: Nest)
    requires Plain(s)
    ensures Whole(s, st)
    decreases |s|
  {
    if s != "" {
      PlainIsWhole(s[1..], st);
    }
  }

  lemma {:induction false} QuotedRun(s: string, st: Nest)
    requires '"' !in s && st.inQuote
    ensures Whole(s, st)
    decreases |s|
  {
    if s != "" {
      QuotedRun(s[1..], st);
    }
  }

  lemma QuotedIsWhole(s: string, st: Nest)
    requires '"' !in s && !st.inQuote
    ensures Whole(['"'] + s + ['"'], st)
  {
    var inside := st.(inQuote := true);
    RunOne(st, '"');
    RunOne(inside, '"');
    QuotedRun(s, inside);
    RunAppend(st, ['"'], s);
    RunAppend(st, ['"'] + s, ['"']);
  }

  lemma GroupIsWhole(s: string, st: Nest)
    requires !st.inQuote && Whole(s, st.(depth := st.depth + 1))
    ensures Whole(['('] + s + [')'], st)
  {
    var inside := st.(depth := st.depth + 1);
    RunOne(st, '(');
    RunOne(inside, ')');
    RunAppend(st, ['('], s);
    RunAppend(st, ['('] + s, [')']);
  }

  lemma {:induction false} PiecesPast(s: string, tail: string, st: Nest)
    requires NoBreak(st, s)
    ensures Pieces(s + tail, st) == Glue(s, Pieces(tail, Run(st, s)))
    decreases |s|
  {
    if s == "" {
      assert s + tail == tail;
      GlueNothing(s, Pieces(tail, st));
    } else {
      assert (s + tail)[1..] == s[1..] + tail;
      PiecesPast(s[1..], tail, Step(st, s[0]));
      GlueGlue([s[0]], s[1..], Pieces(tail, Run(st, s)));
      assert [s[0]] + s[1..] == s;
    }
  }

  /** An argument as written, with spaces around it. */
  datatype Arg = Arg(before: string, text: string, after: string)

  predicate GoodArg(a: Arg) {
    Blank(a.before) && Blank(a.after) && Trimmed(a.text) && a.text != "" && Whole(a.text, TOP)
  }

  function PrintArg(a: Arg): string {
    a.before + a.text + a.after
  }

  function JoinArgs(args: seq<Arg>): string {
    if args == [] then ""
    else if |args| == 1 then PrintArg(args[0])
    else PrintArg(args[0]) + ([','] + JoinArgs(args[1..]))
  }

  function Texts(args: seq<Arg>): seq<string> {
    seq(|args|, i requires 0 <= i < |args| => args[i].text)
  }

  lemma ArgIsWhole(a: Arg)
    requires GoodArg(a)
    ensures Whole(PrintArg(a), TOP) && KeptOne(PrintArg(a)) == [a.text]
  {
    PlainIsWhole(a.before, TOP);
    PlainIsWhole(a.after, TOP);
    WholeAppend(a.before, a.text, TOP);
    WholeAppend(a.before + a.text, a.after, TOP);
    TrimPadded(a.before, a.text, a.after);
  }

  lemma SplitOne(a: Arg)
    requires GoodArg(a)
    ensures SplitArgs(PrintArg(a)) == [a.text]
  {
    ArgIsWhole(a);
    PiecesPast(PrintArg(a), "", TOP);
    assert PrintArg(a) + "" == PrintArg(a);
    KeptCons(PrintArg(a), []);
    assert Glue(PrintArg(a), [""]) == [PrintArg(a)] + [];
  }

  lemma SplitCons(a: Arg, rest: string)
    requires GoodArg(a)
    ensures SplitArgs(PrintArg(a) + ([','] + rest)) == [a.text] + SplitArgs(rest)
  {
    var first := PrintArg(a);
    ArgIsWhole(a);
    PiecesPast(first, [','] + rest, TOP);
    assert ([','] + rest)[1..] == rest;
    var pieces := Pieces(rest, TOP);
    assert first + "" == first && ([""] + pieces)[1..] == pieces;
    assert Glue(first, [""] + pieces) == [first] + pieces;
    KeptCons(first, pieces);
  }

  /** Splitting undoes joining arguments with commas, whatever spaces are around them. */
  lemma {:induction false} SplitJoinedArgs(args: seq<Arg>)
    requires args != [] && forall a :: a in args ==> GoodArg(a)
    ensures SplitArgs(JoinArgs(args)) == Texts(args)
    decreases |args|
  {
    var a, rest := args[0], args[1..];
    assert a in args;
    if |args| == 1 {
      SplitOne(a);
    } else {
      var joined := JoinArgs(rest);
      assert JoinArgs(args) == PrintArg(a) + ([','] + joined);
      SplitCons(a, joined);
      assert forall b :: b in rest ==> b in args;
      SplitJoinedArgs(rest);
      TextsCons(a, rest);
      assert args == [a] + rest;
    }
  }

  lemma TextsCons(a: Arg, rest: seq<Arg>)
    ensures Texts([a] + rest) == [a.text] + Texts(rest)
  {
  }

  // ---- lowering -------------------------------------------------------------------------------

  function TrimAll(parts: seq<string>): seq<string> {
    seq(|parts|, i requires 0 <= i < |parts| => Trim(parts[i]))
  }

  function StringLiteral(t: string): Option<string> {
    if |t| >= 2 && t[0] == '"' && t[|t| - 1] == '"' then Some(t[1..|t| - 1]) else None
  }

  /** The literal shapes, tried in this order. */
  function Literal(t: string): Option<Expr> {
    if StringLiteral(t).Some? then Some(String(StringLiteral(t).value))
    else if ParseI64(t).Some? then Some(Integer(ParseI64(t).value))
    else if t == "true" then Some(Boolean(true))
    else if t == "false" then Some(Boolean(false))
    else if t == "nil" then Some(Nil)
    else None
  }

  const FN := "@fn."

  datatype Call = Call(name: string, args: seq<string>)

  /** The name and the argument texts of a call, or of a bare reference. */
  function ParseFnCall(t: string): (call: Option<Call>)
    ensures call.Some? ==> forall a :: a in call.value.args ==> |a| < |t|
  {
    if !StartsWith(t, FN) then None
    else
      match SplitOnce(t[|FN|..], '(')
      case None =>
        var name := Trim(t[|FN|..]);
        if name == "" || '.' in name then None else Some(Call(name, []))
      case Some((nameText, after)) =>
        SplitOnceSplits(t[|FN|..], '(');
        var name := Trim(nameText);
        if after == "" || after[|after| - 1] != ')' || name == "" then None
        else
          var inside := after[..|after| - 1];
          SplitArgsAreShort(inside);
          Some(Call(name, if Trim(inside) == "" then [] else SplitArgs(inside)))
  }

  lemma {:induction false} SplitOnceSplits(s: string, sep: char)
    ensures match SplitOnce(s, sep)
            case None => sep !in s
            case Some((a, b)) => sep !in a && s == a + ([sep] + b)
  {
    if s != "" && s[0] != sep {
      SplitOnceSplits(s[1..], sep);
      assert s == [s[0]] + s[1..];
    }
  }

  lemma {:induction false} NoSeparator(s: string, sep: char)
    requires sep !in s
    ensures SplitOnce(s, sep).None?
  {
    if s != "" {
      NoSeparator(s[1..], sep);
    }
  }

  lemma {:induction false} PiecesAreShort(s: string, st: Nest)
    ensures forall p :: p in Pieces(s, st) ==> |p| <= |s|
    decreases |s|
  {
    if s != "" {
      if Breaks(st, s[0]) {
        PiecesAreShort(s[1..], st);
      } else {
        PiecesAreShort(s[1..], Step(st, s[0]));
        assert Pieces(s[1..], Step(st, s[0]))[0] in Pieces(s[1..], Step(st, s[0]));
      }
    }
  }

  lemma {:induction false} KeptAreShort(pieces: seq<string>, n: nat)
    requires forall p :: p in pieces ==> |p| <= n
    ensures forall p :: p in Kept(pieces) ==> |p| <= n
  {
    if pieces != [] {
      TrimYieldsTrimmed(pieces[0]);
      KeptAreShort(pieces[1..], n);
    }
  }

  lemma SplitArgsAreShort(s: string)
    ensures forall p :: p in SplitArgs(s) ==> |p| <= |s|
  {
    PiecesAreShort(s, TOP);
    KeptAreShort(Pieces(s, TOP), |s|);
  }

  /** An expression read from text; it recurs on shorter and shorter argument texts. */
  function LowerRawExpr(text: string): Expr
    decreases |text|, 1, 0
  {
    TrimYieldsTrimmed(text);
    var t := Trim(text);
    if Literal(t).Some? then Literal(t).value
    else
      match ParseFnCall(t)
      case Some(call) => FnCall(call.name, LowerAll(call.args, |text|))
      case None => Path(TrimAll(SplitOn(t, '.')))
  }

  function LowerAll(args: seq<string>, ghost bound: nat): (exprs: seq<Expr>)
    requires forall a :: a in args ==> |a| < bound
    decreases bound, 0, |args|
  {
    if args == [] then [] else [LowerRawExpr(args[0])] + LowerAll(args[1..], bound)
  }

  /** The sibling that knows no calls and keeps the spaces of path segments. */
  function ExprFromText(text: string): Expr {
    var t := Trim(text);
    if Literal(t).Some? then Literal(t).value else Path(SplitOn(t, '.'))
  }

  // ---- printing and reading back --------------------------------------------------------------

  /** An expression as authors write it, with `pad` before each argument. */
  function Print(e: Expr, pad: string): string
    decreases e
  {
    match e
    case String(value) => Quoted(value)
    case Integer(n) => Decimal.Print(n)
    case Boolean(b) => if b then "true" else "false"
    case Nil => "nil"
    case Path(segments) => JoinWith(segments, '.')
    case Enum(variant) => variant
    case FnCall(name, args) => PrintCall(name, PrintArgs(args, pad))
  }

  function PrintCall(name: string, args: seq<Arg>): string {
    FN + (name + (['('] + JoinArgs(args) + [')']))
  }

  function PrintArgs(args: seq<Expr>, pad: string): (printed: seq<Arg>)
    ensures |printed| == |args|
    decreases args
  {
    if args == [] then [] else [Arg(pad, Print(args[0], pad), "")] + PrintArgs(args[1..], pad)
  }

  /** A path that none of the earlier shapes claims. */
  predicate PathText(t: string) {
    t != "" && ParseI64(t).None? && t != "true" && t != "false" && t != "nil" && !StartsWith(t, FN)
  }

  predicate Segment(s: string) {
    Trimmed(s) && Plain(s) && '.' !in s
  }

  /** What printed text looks like to the scanners: trimmed, not empty, and one argument. */
  ghost predicate Solid(t: string) {
    t != "" && Trimmed(t) && forall st: Nest :: !st.inQuote ==> Whole(t, st)
  }

  function Quoted(value: string): string {
    ['"'] + value + ['"']
  }

  /** Trees the syntax can carry: strings that stay one argument, 64-bit integers, paths of
      plain segments that do not read as another shape, and calls with a plain name. */
  ghost predicate WellFormed(e: Expr)
    decreases e
  {
    match e
    case String(value) => Solid(Quoted(value))
    case Integer(n) => -I64_MAX - 1 <= n <= I64_MAX
    case Boolean(_) => true
    case Nil => true
    case Path(segments) =>
      segments != [] && (forall s :: s in segments ==> Segment(s)) && PathText(JoinWith(segments, '.'))
    case Enum(_) => false
    case FnCall(name, args) =>
      name != "" && Trimmed(name) && Plain(name) && forall i :: 0 <= i < |args| ==> WellFormed(args[i])
  }

  lemma {:induction false} JoinedShape(segments: seq<string>)
    requires segments != [] && forall s :: s in segments ==> Segment(s)
    ensures Plain(JoinWith(segments, '.')) && Trimmed(JoinWith(segments, '.'))
    decreases |segments|
  {
    var first, rest := segments[0], segments[1..];
    assert first in segments;
    if |segments| > 1 {
      var joined := JoinWith(rest, '.');
      JoinedShape(rest);
      assert JoinWith(segments, '.') == first + ['.'] + joined;
    }
  }

  lemma PlainIsSolid(t: string)
    requires t != "" && Trimmed(t) && Plain(t)
    ensures Solid(t)
  {
    forall st: Nest | !st.inQuote ensures Whole(t, st) {
      PlainIsWhole(t, st);
    }
  }

  /** A string without quotes stays one argument, whatever commas and parentheses it holds. */
  lemma QuoteFreeIsSolid(value: string)
    requires '"' !in value
    ensures Solid(Quoted(value))
  {
    forall st: Nest | !st.inQuote ensures Whole(Quoted(value), st) {
      QuotedIsWhole(value, st);
    }
  }

  lemma {:induction false} JoinedAreWhole(args: seq<Arg>, st: Nest)
    requires !st.inQuote && st.depth > 0
    requires forall a :: a in args ==> Blank(a.before) && Blank(a.after) && Solid(a.text)
    ensures Whole(JoinArgs(args), st)
    decreases |args|
  {
    if args != [] {
      var a := args[0];
      assert a in args;
      PlainIsWhole(a.before, st);
      PlainIsWhole(a.after, st);
      WholeAppend(a.before, a.text, st);
      WholeAppend(a.before + a.text, a.after, st);
      if |args| > 1 {
        JoinedAreWhole(args[1..], st);
        RunOne(st, ',');
        WholeAppend([','], JoinArgs(args[1..]), st);
        WholeAppend(PrintArg(a), [','] + JoinArgs(args[1..]), st);
      }
    }
  }

  lemma CallIsSolid(name: string, args: seq<Arg>)
    requires Plain(name)
    requires forall a :: a in args ==> Blank(a.before) && Blank(a.after) && Solid(a.text)
    ensures Solid(PrintCall(name, args))
  {
    var t := PrintCall(name, args);
    assert t[0] == '@' && t[|t| - 1] == ')';
    var inside := JoinArgs(args);
    forall st: Nest | !st.inQuote ensures Whole(t, st) {
      JoinedAreWhole(args, st.(depth := st.depth + 1));
      GroupIsWhole(inside, st);
      PlainIsWhole(name, st);
      PlainIsWhole(FN, st);
      WholeAppend(name, ['('] + inside + [')'], st);
      WholeAppend(FN, name + (['('] + inside + [')']), st);
    }
  }

  lemma {:induction false} PrintedIsSolid(e: Expr, pad: string)
    requires WellFormed(e) && Blank(pad)
    ensures Solid(Print(e, pad))
    decreases e
  {
    match e
    case String(value) =>
    case Integer(n) =>
      PlainIsSolid(Print(e, pad));
    case Path(segments) =>
      JoinedShape(segments);
      PlainIsSolid(Print(e, pad));
    case FnCall(name, args) =>
      PrintedAreSolid(args, pad);
      CallIsSolid(name, PrintArgs(args, pad));
    case _ =>
      PlainIsSolid(Print(e, pad));
  }

  lemma {:induction false} PrintedAreSolid(args: seq<Expr>, pad: string)
    requires (forall i :: 0 <= i < |args| ==> WellFormed(args[i])) && Blank(pad)
    ensures forall a :: a in PrintArgs(args, pad) ==> Blank(a.before) && Blank(a.after) && Solid(a.text)
    decreases args
  {
    if args != [] {
      PrintedIsSolid(args[0], pad);
      PrintedAreSolid(args[1..], pad);
    }
  }

  lemma TrimmedAwayIsBlank(s: string)
    requires Trim(s) == ""
    ensures Blank(s)
  {
    var before, after := TrimSplits(s);
    assert s == before + after;
  }

  lemma JoinedNotBlank(args: seq<Arg>)
    requires args != [] && GoodArg(args[0])
    ensures Trim(JoinArgs(args)) != ""
  {
    var a, s := args[0], JoinArgs(args);
    assert s[|a.before|] == a.text[0] && |a.before| < |s|;
    if Trim(s) == "" {
      TrimmedAwayIsBlank(s);
    }
  }

  lemma FnPrefixed(t: string, rest: string)
    requires t == FN + rest
    ensures StartsWith(t, FN) && t[|FN|..] == rest && t[0] == '@'
  {
  }

  lemma AtIsNoLiteral(t: string)
    requires t != "" && t[0] == '@'
    ensures Literal(t).None?
  {
  }

  lemma SplitCall(name: string, inside: string)
    requires Plain(name)
    ensures SplitOnce(name + (['('] + inside + [')']), '(') == Some((name, inside + [')']))
    ensures (inside + [')'])[..|inside + [')']| - 1] == inside
  {
    assert ['('] + inside + [')'] == ['('] + (inside + [')']);
    SplitAtFirst(name, inside + [')'], '(');
  }

  lemma JoinedAreSplit(args: seq<Arg>)
    requires forall a :: a in args ==> GoodArg(a)
    ensures (if Trim(JoinArgs(args)) == "" then [] else SplitArgs(JoinArgs(args))) == Texts(args)
  {
    if args != [] {
      assert args[0] in args;
      JoinedNotBlank(args);
      SplitJoinedArgs(args);
    }
  }

  /** A printed call is read as its name and its argument texts. */
  lemma CallIsParsed(name: string, args: seq<Arg>)
    requires name != "" && Trimmed(name) && Plain(name) && forall a :: a in args ==> GoodArg(a)
    ensures ParseFnCall(PrintCall(name, args)) == Some(Call(name, Texts(args)))
    ensures Literal(PrintCall(name, args)).None?
  {
    var t, inside := PrintCall(name, args), JoinArgs(args);
    FnPrefixed(t, name + (['('] + inside + [')']));
    AtIsNoLiteral(t);
    SplitCall(name, inside);
    TrimOfTrimmed(name);
    JoinedAreSplit(args);
  }

  /** Reading a printed tree gives the tree back. A string that is not an argument may hold
      quotes: only the first and the last one of the text count. */
  lemma {:induction false} LowerPrinted(e: Expr, pad: string)
    requires (WellFormed(e) || e.String?) && Blank(pad)
    ensures LowerRawExpr(Print(e, pad)) == e
    decreases e
  {
    var t := Print(e, pad);
    if !e.String? {
      PrintedIsSolid(e, pad);
    }
    TrimOfTrimmed(t);
    match e
    case String(value) => assert t[1..|t| - 1] == value;
    case Integer(n) =>
      ParsePrinted(n);
    case Path(segments) => LowerPath(segments, t);
    case FnCall(name, args) =>
      PrintedAreSolid(args, pad);
      CallIsParsed(name, PrintArgs(args, pad));
      LowerPrintedArgs(args, pad, |t|);
    case _ =>
  }

  lemma LowerPath(segments: seq<string>, t: string)
    requires WellFormed(Path(segments)) && t == JoinWith(segments, '.')
    ensures Literal(t).None? && ParseFnCall(t).None? && TrimAll(SplitOn(t, '.')) == segments
  {
    JoinedShape(segments);
    SplitJoined(segments, '.');
    forall i | 0 <= i < |segments| ensures Trim(segments[i]) == segments[i] {
      assert segments[i] in segments;
      TrimOfTrimmed(segments[i]);
    }
  }

  lemma PrintArgsCons(args: seq<Expr>, pad: string)
    requires args != []
    ensures Texts(PrintArgs(args, pad)) == [Print(args[0], pad)] + Texts(PrintArgs(args[1..], pad))
  {
    var printed := PrintArgs(args, pad);
    assert printed[1..] == PrintArgs(args[1..], pad);
  }

  lemma LowerCons(first: string, rest: seq<string>, bound: nat)
    requires forall a :: a in [first] + rest ==> |a| < bound
    ensures LowerAll([first] + rest, bound) == [LowerRawExpr(first)] + LowerAll(rest, bound)
  {
    assert ([first] + rest)[1..] == rest;
  }

  lemma {:induction false} LowerPrintedArgs(args: seq<Expr>, pad: string, bound: nat)
    requires (forall i :: 0 <= i < |args| ==> WellFormed(args[i])) && Blank(pad)
    requires forall a :: a in Texts(PrintArgs(args, pad)) ==> |a| < bound
    ensures LowerAll(Texts(PrintArgs(args, pad)), bound) == args
    decreases args
  {
    if args != [] {
      PrintArgsCons(args, pad);
      var rest := Texts(PrintArgs(args[1..], pad));
      assert forall a :: a in rest ==> a in [Print(args[0], pad)] + rest;
      LowerPrinted(args[0], pad);
      LowerPrintedArgs(args[1..], pad, bound);
      LowerCons(Print(args[0], pad), rest, bound);
    }
  }

  /** A bare `@fn.<name>` is a call without arguments; a dotted or missing name leaves a path. */
  lemma BareReference(name: string)
    requires Trimmed(name) && Plain(name)
    ensures LowerRawExpr(FN + name)
         == if name == "" || '.' in name then Path(TrimAll(SplitOn(FN + name, '.'))) else FnCall(name, [])
  {
    var t := FN + name;
    FnPrefixed(t, name);
    AtIsNoLiteral(t);
    assert t[|t| - 1] == if name == "" then '.' else name[|name| - 1];
    TrimOfTrimmed(t);
    TrimOfTrimmed(name);
    NoSeparator(name, '(');
  }

  /** With empty parentheses it reads the same, and then the name may hold dots. */
  lemma EmptyParentheses(name: string)
    requires name != "" && Trimmed(name) && Plain(name)
    ensures LowerRawExpr(PrintCall(name, [])) == FnCall(name, [])
  {
    LowerPrinted(FnCall(name, []), "");
  }

  lemma TrimFixed(s: string)
    ensures Trim(s) == s <==> Trimmed(s)
  {
    TrimYieldsTrimmed(s);
    if Trimmed(s) {
      TrimOfTrimmed(s);
    }
  }

  /** The two readers agree exactly on literals and on paths whose segments have no spaces
      around them. */
  lemma ReadersAgreeIff(text: string)
    ensures var t := Trim(text);
            LowerRawExpr(text) == ExprFromText(text)
            <==> Literal(t).Some? || (ParseFnCall(t).None? && forall s :: s in SplitOn(t, '.') ==> Trimmed(s))
  {
    var t := Trim(text);
    var parts := SplitOn(t, '.');
    if Literal(t).None? && ParseFnCall(t).None? {
      forall i | 0 <= i < |parts| ensures TrimAll(parts)[i] == parts[i] <==> Trimmed(parts[i]) {
        TrimFixed(parts[i]);
      }
      if TrimAll(parts) == parts {
        assert forall i :: 0 <= i < |parts| ==> Trimmed(parts[i]);
      }
      if forall s :: s in parts ==> Trimmed(s) {
        assert TrimAll(parts) == parts;
      }
    }
  }
}
