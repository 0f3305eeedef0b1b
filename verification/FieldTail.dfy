/** The tail of a resource field: modifiers after the type, with a marker anywhere among them. */
module FieldTail {
  import opened Wrappers
  import opened Text
  import opened Decorators
  import opened Markers
  import opened Pii

  datatype Modifier = Required | Optional | Unique

  function Word(m: Modifier): string {
    match m
    case Required => "required"
    case Optional => "optional"
    case Unique => "unique"
  }

  /** The modifier a text ends with, after a space. */
  function Suffixed(t: string): Option<Modifier> {
    if EndsWith(t, " required") then Some(Required)
    else if EndsWith(t, " optional") then Some(Optional)
    else if EndsWith(t, " unique") then Some(Unique)
    else None
  }

  datatype RecoveredFieldType = RecoveredFieldType(typeText: string, required: bool, unique: bool)

  function WithModifier(r: RecoveredFieldType, m: Modifier): RecoveredFieldType {
    RecoveredFieldType(r.typeText, r.required || m.Required?, r.unique || m.Unique?)
  }

  function Cut(t: string, m: Modifier): (head: string)
    requires Suffixed(t) == Some(m)
    ensures |head| < |t|
  {
    t[..|t| - |Word(m)| - 1]
  }

  function Peel(head: string): RecoveredFieldType
    decreases |head|
  {
    TrimEndSplits(head);
    var t := TrimEnd(head);
    match Suffixed(t)
    case None => RecoveredFieldType(t, false, false)
    case Some(m) => WithModifier(Peel(Cut(t, m)), m)
  }

  method PeelTrailingFieldModifiers(text: string) returns (recovered: RecoveredFieldType)
    ensures recovered == Peel(Trim(text))
  {
    var head := Trim(text);
    var required, unique := false, false;
    while true
      invariant Peel(Trim(text)) == RecoveredFieldType(
        Peel(head).typeText, required || Peel(head).required, unique || Peel(head).unique)
      decreases |head|
    {
      var trimmed := TrimEnd(head);
      TrimEndSplits(head);
      if EndsWith(trimmed, " required") {
        required := true;
        head := Cut(trimmed, Required);
      } else if EndsWith(trimmed, " optional") {
        head := Cut(trimmed, Optional);
      } else if EndsWith(trimmed, " unique") {
        unique := true;
        head := Cut(trimmed, Unique);
      } else {
        head := trimmed;
        break;
      }
    }
    recovered := RecoveredFieldType(head, required, unique);
  }

  // ---- what peeling recovers --------------------------------------------------------------

  /** A modifier as written: after any spaces, the last of which is a plain one. */
  datatype Spaced = Spaced(pad: string, word: Modifier)

  function Print(s: Spaced): string {
    s.pad + ([' '] + Word(s.word))
  }

  function Modifiers(mods: seq<Spaced>): string {
    if mods == [] then "" else Modifiers(mods[..|mods| - 1]) + Print(mods[|mods| - 1])
  }

  predicate Padded(mods: seq<Spaced>) {
    forall s :: s in mods ==> Blank(s.pad)
  }

  predicate Mentions(mods: seq<Spaced>, m: Modifier) {
    exists s :: s in mods && s.word == m
  }

  function Written(base: string, mods: seq<Spaced>): RecoveredFieldType {
    RecoveredFieldType(base, Mentions(mods, Required), Mentions(mods, Unique))
  }

  /** A type text that ends in neither a space nor a modifier. */
  predicate Peeled(base: string) {
    TrimEnd(base) == base && Suffixed(base).None?
  }

  lemma ModifiersSnoc(mods: seq<Spaced>, s: Spaced)
    ensures Modifiers(mods + [s]) == Modifiers(mods) + Print(s)
  {
    assert (mods + [s])[..|mods|] == mods;
  }

  lemma MentionsEither(a: seq<Spaced>, b: seq<Spaced>, m: Modifier)
    ensures Mentions(a + b, m) <==> Mentions(a, m) || Mentions(b, m)
  {
    assert forall t :: t in a + b <==> t in a || t in b;
  }

  lemma MentionsOne(s: Spaced, m: Modifier)
    ensures Mentions([s], m) <==> s.word == m
  {
    assert s in [s];
  }

  lemma WrittenSnoc(base: string, mods: seq<Spaced>, s: Spaced)
    ensures Written(base, mods + [s]) == WithModifier(Written(base, mods), s.word)
  {
    MentionsEither(mods, [s], Required);
    MentionsEither(mods, [s], Unique);
    MentionsOne(s, Required);
    MentionsOne(s, Unique);
  }

  lemma Assoc(a: string, b: string, c: string)
    ensures (a + b) + c == a + (b + c)
  {
  }

  lemma EndsLike(head: string, suffix: string, other: string)
    requires suffix != "" && other != ""
    ensures EndsWith(head + suffix, suffix)
    ensures EndsWith(head + suffix, other) ==> other[|other| - 1] == suffix[|suffix| - 1]
    ensures EndsWith(head + suffix, other) && |other| == |suffix| ==> other == suffix
  {
    var t := head + suffix;
    assert t[|head|..] == suffix && t[|t| - 1] == suffix[|suffix| - 1];
    if EndsWith(t, other) {
      assert t[|t| - |other|..][|other| - 1] == t[|t| - 1];
    }
  }

  lemma WordsDiffer()
    ensures [' '] + Word(Required) == " required" && [' '] + Word(Optional) == " optional"
    ensures [' '] + Word(Unique) == " unique"
    ensures " required" != " optional" && " required"[8] == 'd' && " optional"[8] == 'l' && " unique"[6] == 'e'
  {
    assert " required"[1] == 'r' && " optional"[1] == 'o';
  }

  lemma SuffixOfWord(head: string, m: Modifier)
    ensures var t := head + ([' '] + Word(m)); Suffixed(t) == Some(m) && Cut(t, m) == head
  {
    var suffix := [' '] + Word(m);
    var t := head + suffix;
    WordsDiffer();
    EndsLike(head, suffix, " required");
    EndsLike(head, suffix, " optional");
    EndsLike(head, suffix, " unique");
    assert Suffixed(t) == Some(m);
    assert t[..|head|] == head;
  }

  /** One written modifier and trailing spaces are peeled off. */
  lemma PeelOne(head: string, s: Spaced, trailing: string)
    requires Blank(s.pad) && Blank(trailing)
    ensures Peel(head + Print(s) + trailing) == WithModifier(Peel(head), s.word)
  {
    var t := head + s.pad + ([' '] + Word(s.word));
    assert head + Print(s) == t;
    TrimEndPadded(t, trailing);
    assert t[|t| - 1] == Word(s.word)[|Word(s.word)| - 1];
    SuffixOfWord(head + s.pad, s.word);
    TrimEndPadded(head, s.pad);
  }

  /** Peeling `base` followed by any modifiers, in any order and number, gives `base` and
      says which modifiers were there. */
  lemma {:induction false} PeelPrinted(base: string, mods: seq<Spaced>)
    requires Peeled(base) && Padded(mods)
    ensures Peel(base + Modifiers(mods)) == Written(base, mods)
    decreases |mods|
  {
    if mods == [] {
      assert base + "" == base;
    } else {
      var front, last := mods[..|mods| - 1], mods[|mods| - 1];
      assert mods == front + [last];
      PeelPrinted(base, front);
      WrittenSnoc(base, front, last);
      PeelOne(base + Modifiers(front), last, "");
      Assoc(base, Modifiers(front), Print(last));
      assert base + Modifiers(mods) + "" == base + Modifiers(mods);
    }
  }

  lemma SuffixShows(t: string, m: Modifier)
    requires Suffixed(t) == Some(m)
    ensures t == Cut(t, m) + ([' '] + Word(m))
  {
    var suffix := [' '] + Word(m);
    match m
    case Required => assert suffix == " required";
    case Optional => assert suffix == " optional";
    case Unique => assert suffix == " unique";
  }

  /** What was peeled, put back together with the last modifier. */
  lemma PutBack(head: string, t: string, trailing: string, cut: string, base: string,
                rest: seq<Spaced>, last: Spaced)
    requires head == t + trailing && t == cut + ([' '] + Word(last.word))
    requires cut == base + Modifiers(rest) + last.pad
    ensures head == base + Modifiers(rest + [last]) + trailing
  {
    ModifiersSnoc(rest, last);
    Assoc(base + Modifiers(rest), last.pad, [' '] + Word(last.word));
    Assoc(base, Modifiers(rest), Print(last));
  }

  /** The text is the recovered type, modifiers that account for the flags, and trailing spaces. */
  predicate Recovers(head: string, mods: seq<Spaced>, trailing: string) {
    var base := Peel(head).typeText;
    && Padded(mods) && Blank(trailing) && Peeled(base)
    && head == base + Modifiers(mods) + trailing && Peel(head) == Written(base, mods)
  }

  lemma RecoversNone(head: string, trailing: string)
    requires Suffixed(TrimEnd(head)).None? && head == TrimEnd(head) + trailing && Blank(trailing)
    ensures Recovers(head, [], trailing)
  {
    var t := TrimEnd(head);
    TrimEndSplits(head);
    assert TrimEnd(t) == t;
    assert t + "" == t;
  }

  lemma RecoversMore(head: string, trailing: string, m: Modifier, rest: seq<Spaced>, pad: string)
    requires Suffixed(TrimEnd(head)) == Some(m) && head == TrimEnd(head) + trailing && Blank(trailing)
    requires Recovers(Cut(TrimEnd(head), m), rest, pad)
    ensures Recovers(head, rest + [Spaced(pad, m)], trailing)
  {
    var t, last := TrimEnd(head), Spaced(pad, m);
    var cut := Cut(t, m);
    var base := Peel(cut).typeText;
    SuffixShows(t, m);
    PutBack(head, t, trailing, cut, base, rest, last);
    WrittenSnoc(base, rest, last);
    assert Peel(head) == WithModifier(Peel(cut), m);
  }

  /** Whatever is peeled was written: the text is the recovered type, modifiers that account
      for the flags, and trailing spaces; and nothing more can be peeled. */
  lemma {:induction false} PeelSplits(head: string) returns (mods: seq<Spaced>, trailing: string)
    ensures Padded(mods) && Blank(trailing) && Peeled(Peel(head).typeText)
    ensures head == Peel(head).typeText + Modifiers(mods) + trailing
    ensures Peel(head) == Written(Peel(head).typeText, mods)
    decreases |head|
  {
    var t := TrimEnd(head);
    TrimEndSplits(head);
    trailing := head[|t|..];
    match Suffixed(t) {
      case None =>
        mods := [];
        RecoversNone(head, trailing);
      case Some(m) =>
        var rest, pad := PeelSplits(Cut(t, m));
        mods := rest + [Spaced(pad, m)];
        RecoversMore(head, trailing, m, rest, pad);
    }
    assert Recovers(head, mods, trailing);
  }

  // ---- a marker among the modifiers -----------------------------------------------------------

  lemma {:induction false} ModifiersAppend(a: seq<Spaced>, b: seq<Spaced>)
    ensures Modifiers(a + b) == Modifiers(a) + Modifiers(b)
    decreases |b|
  {
    if b == [] {
      assert a + b == a && Modifiers(a) + "" == Modifiers(a);
    } else {
      var front, last := b[..|b| - 1], b[|b| - 1];
      assert a + b == (a + front) + [last];
      ModifiersAppend(a, front);
      ModifiersSnoc(a + front, last);
      Assoc(Modifiers(a), Modifiers(front), Print(last));
    }
  }

  lemma ModifiersCons(s: Spaced, rest: seq<Spaced>)
    ensures Modifiers([s] + rest) == Print(s) + Modifiers(rest)
  {
    ModifiersAppend([s], rest);
    ModifiersSnoc([], s);
    assert [] + [s] == [s] && "" + Print(s) == Print(s);
  }

  lemma BareAppend(a: string, b: string)
    requires Bare(a) && Bare(b)
    ensures Bare(a + b)
  {
    forall i | 0 <= i < |a + b| ensures (a + b)[i] !in "()[]\"\\" {
      assert (a + b)[i] == if i < |a| then a[i] else b[i - |a|];
    }
  }

  lemma BlankIsBare(s: string)
    requires Blank(s)
    ensures Bare(s) && '@' !in s
  {
  }

  lemma PrintShape(s: Spaced)
    requires Blank(s.pad)
    ensures '@' !in Print(s) && Bare(Print(s))
    ensures Print(s) != "" && IsSpace(Print(s)[0]) && !IsSpace(Print(s)[|Print(s)| - 1])
  {
    var word := Word(s.word);
    BlankIsBare(s.pad);
    BareAppend([' '], word);
    BareAppend(s.pad, [' '] + word);
  }

  /** Modifiers hold no brackets, quotes or `@`, start with a space and do not end in one. */
  lemma {:induction false} ModifiersShape(mods: seq<Spaced>)
    requires Padded(mods)
    ensures '@' !in Modifiers(mods) && Bare(Modifiers(mods))
    ensures mods != [] ==> Modifiers(mods) != "" && IsSpace(Modifiers(mods)[0])
                           && !IsSpace(Modifiers(mods)[|Modifiers(mods)| - 1])
    decreases |mods|
  {
    if mods != [] {
      var front, last := mods[..|mods| - 1], mods[|mods| - 1];
      assert last in mods;
      ModifiersShape(front);
      PrintShape(last);
      BareAppend(Modifiers(front), Print(last));
    }
  }

  lemma {:induction false} NoNameNoMarker(s: string, prefix: string, st: Lex, boundary: bool)
    requires prefix != "" && prefix[0] !in s
    ensures FindMarker(s, prefix, st, boundary).None?
    decreases |s|
  {
    if s != "" && |s| >= |prefix| {
      assert s[..|prefix|][0] != prefix[0];
      NoNameNoMarker(s[1..], prefix, Step(st, s[0]), IsSpace(s[0]));
    }
  }

  /** A type text followed by modifiers and a space is still closed and free of markers. */
  lemma ModifiedIsPlain(base: string, mods: seq<Spaced>, prefix: string)
    requires Opening(prefix) && prefix[0] == '@'
    requires base != "" && Closed(base) && MarkerSpan(base, prefix).None? && Padded(mods)
    ensures Closed(base + Modifiers(mods) + [' ']) && MarkerSpan(base + Modifiers(mods) + [' '], prefix).None?
  {
    var rest := Modifiers(mods) + [' '];
    assert base + Modifiers(mods) + [' '] == base + rest;
    ModifiersShape(mods);
    assert mods == [] ==> rest[0] == ' ';
    BareIsRunThrough(rest, START);
    RunAppend(START, base, rest);
    MarkerSkips(base, rest, prefix, START, true);
    NoNameNoMarker(rest, prefix, START, AfterSpace(base, true));
  }

  lemma SolidAppend(base: string, tail: string)
    requires Trimmed(base) && base != "" && (tail != "" ==> !IsSpace(tail[|tail| - 1]))
    ensures Trimmed(base + tail) && Trim(base + tail + [' ']) == base + tail
  {
    var s := base + tail;
    assert s[0] == base[0] && s[|s| - 1] == if tail == "" then base[|base| - 1] else tail[|tail| - 1];
    TrimPadded("", s, [' ']);
    assert "" + s + [' '] == s + [' '];
  }

  lemma SolidEnd(base: string, mods: seq<Spaced>)
    requires Trimmed(base) && base != "" && Padded(mods)
    ensures Trimmed(base + Modifiers(mods)) && Trim(base + Modifiers(mods) + [' ']) == base + Modifiers(mods)
  {
    ModifiersShape(mods);
    SolidAppend(base, Modifiers(mods));
  }

  /** The modifiers as they read once the marker before them is gone. */
  function Rejoined(mods: seq<Spaced>): seq<Spaced> {
    if mods == [] then [] else [Spaced("", mods[0].word)] + mods[1..]
  }

  lemma TrimWord(pad: string, word: string, tail: string)
    requires Blank(pad) && word != "" && !IsSpace(word[0]) && !IsSpace(word[|word| - 1])
    requires tail != "" ==> !IsSpace(tail[|tail| - 1])
    ensures word + tail != "" && Trim(pad + ([' '] + word) + tail) == word + tail
  {
    var core := word + tail;
    assert core[0] == word[0] && core[|core| - 1] == if tail == "" then word[|word| - 1] else tail[|tail| - 1];
    TrimPadded(pad + [' '], core, "");
    assert pad + ([' '] + word) + tail == pad + [' '] + core + "";
  }

  lemma RejoinedPadded(mods: seq<Spaced>)
    requires Padded(mods)
    ensures Padded(Rejoined(mods))
  {
  }

  lemma TrimModifiers(first: Spaced, rest: seq<Spaced>)
    requires Blank(first.pad) && Padded(rest)
    ensures Trim(Modifiers([first] + rest)) == Word(first.word) + Modifiers(rest) != ""
  {
    ModifiersCons(first, rest);
    ModifiersShape(rest);
    TrimWord(first.pad, Word(first.word), Modifiers(rest));
  }

  lemma RejoinedText(word: Modifier, rest: seq<Spaced>)
    ensures Modifiers([Spaced("", word)] + rest) == [' '] + (Word(word) + Modifiers(rest))
  {
    ModifiersCons(Spaced("", word), rest);
    assert "" + ([' '] + Word(word)) == [' '] + Word(word);
    Assoc([' '], Word(word), Modifiers(rest));
  }

  lemma RejoinedReads(mods: seq<Spaced>)
    requires Padded(mods)
    ensures Trim(Modifiers(mods)) == "" <==> mods == []
    ensures Modifiers(Rejoined(mods)) == if mods == [] then "" else [' '] + Trim(Modifiers(mods))
  {
    if mods != [] {
      assert mods == [mods[0]] + mods[1..];
      TrimModifiers(mods[0], mods[1..]);
      RejoinedText(mods[0].word, mods[1..]);
    }
  }

  lemma RejoinedMentions(mods: seq<Spaced>, m: Modifier)
    ensures Mentions(Rejoined(mods), m) <==> Mentions(mods, m)
  {
    if mods != [] {
      assert mods == [mods[0]] + mods[1..];
      MentionsEither([mods[0]], mods[1..], m);
      MentionsEither([Spaced("", mods[0].word)], mods[1..], m);
      MentionsOne(mods[0], m);
      MentionsOne(Spaced("", mods[0].word), m);
    }
  }

  lemma RejoinedFlags(base: string, before: seq<Spaced>, after: seq<Spaced>)
    ensures Written(base, before + Rejoined(after)) == Written(base, before + after)
  {
    MentionsEither(before, after, Required);
    MentionsEither(before, Rejoined(after), Required);
    RejoinedMentions(after, Required);
    MentionsEither(before, after, Unique);
    MentionsEither(before, Rejoined(after), Unique);
    RejoinedMentions(after, Unique);
  }

  lemma PeelRejoined(base: string, before: seq<Spaced>, after: seq<Spaced>)
    requires Trimmed(base) && base != "" && Suffixed(base).None? && Padded(before) && Padded(after)
    ensures Peel(Trim(base + Modifiers(before) + Modifiers(Rejoined(after)))) == Written(base, before + after)
  {
    var mods := before + Rejoined(after);
    RejoinedPadded(after);
    ModifiersAppend(before, Rejoined(after));
    Assoc(base, Modifiers(before), Modifiers(Rejoined(after)));
    SolidEnd(base, mods);
    TrimOfTrimmed(base);
    TrimOfTrimmed(base + Modifiers(mods));
    PeelPrinted(base, mods);
    RejoinedFlags(base, before, after);
  }

  lemma PlainBefore(u: string, base: string, before: seq<Spaced>)
    requires u == base + Modifiers(before) + [' '] && Padded(before)
    requires Trimmed(base) && base != "" && Closed(base) && MarkerSpan(base, PREFIX).None?
    ensures u != "" && IsSpace(u[|u| - 1]) && Closed(u) && MarkerSpan(u, PREFIX).None?
    ensures Trim(u) == base + Modifiers(before) != ""
  {
    var prefix := PREFIX;
    PrefixOpens(prefix);
    ModifiedIsPlain(base, before, prefix);
    SolidEnd(base, before);
  }

  /** The text left when the marker is taken out from among the modifiers. */
  lemma ExtractAmong(base: string, before: seq<Spaced>, m: string, pii: PiiCapability, after: seq<Spaced>)
    requires Trimmed(base) && base != "" && Closed(base) && MarkerSpan(base, PREFIX).None?
    requires IsMarker(m, PREFIX) && ParseCapPii(m) == Some(pii)
    requires Padded(before) && Padded(after)
    ensures Extracted(base + Modifiers(before) + [' '] + m + Modifiers(after))
         == (base + Modifiers(before) + Modifiers(Rejoined(after)), Some(pii))
  {
    var u := base + Modifiers(before) + [' '];
    var head, tail := base + Modifiers(before), Modifiers(after);
    PlainBefore(u, base, before);
    ExtractBetween(u, m, pii, tail, head);
    JoinedTail(head, after);
  }

  lemma ExtractBetween(u: string, m: string, pii: PiiCapability, tail: string, head: string)
    requires u != "" && IsSpace(u[|u| - 1]) && Closed(u) && MarkerSpan(u, PREFIX).None? && Trim(u) == head != ""
    requires IsMarker(m, PREFIX) && ParseCapPii(m) == Some(pii)
    ensures Extracted(u + m + tail) == (if Trim(tail) == "" then head else head + ([' '] + Trim(tail)), Some(pii))
  {
    ExtractInserted(u, m, tail);
  }

  lemma JoinedTail(head: string, after: seq<Spaced>)
    requires Padded(after)
    ensures (if Trim(Modifiers(after)) == "" then head else head + ([' '] + Trim(Modifiers(after)))) ==
            head + Modifiers(Rejoined(after))
  {
    RejoinedReads(after);
    assert head + "" == head;
  }

  /** A field's tail, with a readable marker anywhere among the modifiers, is recovered whole:
      the type, the capability, and the flags of the modifiers on both sides of the marker. */
  lemma FieldTailRecovered(base: string, before: seq<Spaced>, m: string, pii: PiiCapability, after: seq<Spaced>)
    requires Trimmed(base) && base != "" && Suffixed(base).None?
    requires Closed(base) && MarkerSpan(base, PREFIX).None?
    requires IsMarker(m, PREFIX) && ParseCapPii(m) == Some(pii)
    requires Padded(before) && Padded(after)
    ensures var (typeOnly, found) := Extracted(base + Modifiers(before) + [' '] + m + Modifiers(after));
            found == Some(pii) && Peel(Trim(typeOnly)) == Written(base, before + after)
  {
    ExtractAmong(base, before, m, pii, after);
    PeelRejoined(base, before, after);
  }
}
