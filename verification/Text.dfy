/** ASCII text as the scanners see it: whitespace, trimming, prefixes and
    suffixes, in the sense of Rust's `str` methods restricted to ASCII. */
module Text {
  import opened Wrappers

  predicate IsSpace(c: char) {
    c == ' ' || '\t' <= c <= '\r'
  }

  predicate Blank(s: string) {
    forall i :: 0 <= i < |s| ==> IsSpace(s[i])
  }

  /** No whitespace at either end. */
  predicate Trimmed(s: string) {
    s == "" || (!IsSpace(s[0]) && !IsSpace(s[|s| - 1]))
  }

  function TrimStart(s: string): string {
    if s != "" && IsSpace(s[0]) then TrimStart(s[1..]) else s
  }

  function TrimEnd(s: string): string {
    if s != "" && IsSpace(s[|s| - 1]) then TrimEnd(s[..|s| - 1]) else s
  }

  function Trim(s: string): string {
    TrimEnd(TrimStart(s))
  }

  predicate StartsWith(s: string, prefix: string) {
    |prefix| <= |s| && s[..|prefix|] == prefix
  }

  predicate EndsWith(s: string, suffix: string) {
    |suffix| <= |s| && s[|s| - |suffix|..] == suffix
  }

  /** Trimming the front removes a blank prefix and stops at a non-space. */
  lemma {:induction false} TrimStartSplits(s: string)
    ensures |TrimStart(s)| <= |s|
    ensures TrimStart(s) == s[|s| - |TrimStart(s)|..]
    ensures Blank(s[..|s| - |TrimStart(s)|])
    ensures TrimStart(s) != "" ==> !IsSpace(TrimStart(s)[0])
  {
    if s != "" && IsSpace(s[0]) {
      TrimStartSplits(s[1..]);
      var cut := |s| - |TrimStart(s)|;
      assert s[..cut] == [s[0]] + s[1..][..cut - 1];
    }
  }

  lemma {:induction false} TrimEndSplits(s: string)
    ensures |TrimEnd(s)| <= |s|
    ensures TrimEnd(s) == s[..|TrimEnd(s)|]
    ensures Blank(s[|TrimEnd(s)|..])
    ensures TrimEnd(s) != "" ==> !IsSpace(TrimEnd(s)[|TrimEnd(s)| - 1])
  {
    if s != "" && IsSpace(s[|s| - 1]) {
      var front := s[..|s| - 1];
      TrimEndSplits(front);
      assert s[|TrimEnd(s)|..] == front[|TrimEnd(s)|..] + [s[|s| - 1]];
    }
  }

  lemma TrimYieldsTrimmed(s: string)
    ensures Trimmed(Trim(s)) && |Trim(s)| <= |s|
  {
    TrimStartSplits(s);
    TrimEndSplits(TrimStart(s));
  }

  lemma TrimOfTrimmed(s: string)
    requires Trimmed(s)
    ensures TrimStart(s) == s && TrimEnd(s) == s && Trim(s) == s
  {
  }

  lemma {:induction false} TrimStartPadded(pad: string, s: string)
    requires Blank(pad)
    ensures TrimStart(pad + s) == TrimStart(s)
  {
    if pad == "" {
      assert pad + s == s;
    } else {
      assert (pad + s)[1..] == pad[1..] + s;
      TrimStartPadded(pad[1..], s);
    }
  }

  lemma {:induction false} TrimEndPadded(s: string, pad: string)
    requires Blank(pad)
    ensures TrimEnd(s + pad) == TrimEnd(s)
  {
    if pad == "" {
      assert s + pad == s;
    } else {
      assert (s + pad)[..|s + pad| - 1] == s + pad[..|pad| - 1];
      TrimEndPadded(s, pad[..|pad| - 1]);
    }
  }

  lemma TrimPadded(before: string, s: string, after: string)
    requires Blank(before) && Blank(after) && Trimmed(s)
    ensures Trim(before + s + after) == s
  {
    assert before + s + after == before + (s + after);
    TrimStartPadded(before, s + after);
    if s == "" {
      assert s + after == after && after + "" == after;
      TrimStartPadded(after, "");
    } else {
      assert (s + after)[0] == s[0];
      TrimEndPadded(s, after);
    }
    TrimOfTrimmed(s);
  }

  /** A text is its trimmed core between blank ends. */
  lemma TrimSplits(s: string) returns (before: string, after: string)
    ensures Blank(before) && Blank(after) && s == before + Trim(s) + after
  {
    var t := TrimStart(s);
    var core := TrimEnd(t);
    TrimStartSplits(s);
    TrimEndSplits(t);
    before, after := s[..|s| - |t|], t[|core|..];
    assert s == before + t;
    assert t == core + after;
  }

  /** Trimming the end first does not change the trimmed text. */
  lemma TrimAfterTrimEnd(s: string)
    ensures Trim(TrimEnd(s)) == Trim(s)
  {
    var before, after := TrimSplits(s);
    var core := Trim(s);
    TrimYieldsTrimmed(s);
    TrimEndPadded(before + core, after);
    if core == "" {
      assert before + core == "" + before;
      TrimEndPadded("", before);
    } else {
      assert (before + core)[|before + core| - 1] == core[|core| - 1];
      assert TrimEnd(before + core) == before + core;
      assert before + core == before + core + "";
      TrimPadded(before, core, "");
    }
  }

  // ---- splitting and joining at a separator --------------------------------------

  /** The pieces between separators: always at least one. */
  function SplitOn(s: string, sep: char): (parts: seq<string>)
    ensures |parts| >= 1
  {
    if s == "" then [""]
    else
      var rest := SplitOn(s[1..], sep);
      if s[0] == sep then [""] + rest else [[s[0]] + rest[0]] + rest[1..]
  }

  function JoinWith(parts: seq<string>, sep: char): string {
    if parts == [] then ""
    else if |parts| == 1 then parts[0]
    else parts[0] + [sep] + JoinWith(parts[1..], sep)
  }

  lemma {:induction false} SplitFirst(part: string, rest: string, sep: char)
    requires sep !in part
    ensures SplitOn(part, sep) == [part]
    ensures SplitOn(part + [sep] + rest, sep) == [part] + SplitOn(rest, sep)
    decreases |part|
  {
    if part == "" {
      assert (part + [sep] + rest)[1..] == rest;
    } else {
      assert (part + [sep] + rest)[1..] == part[1..] + [sep] + rest;
      SplitFirst(part[1..], rest, sep);
      assert [part[0]] + part[1..] == part;
    }
  }

  /** The halves around the first separator. */
  function SplitOnce(s: string, sep: char): Option<(string, string)> {
    if s == "" then None
    else if s[0] == sep then Some(("", s[1..]))
    else
      match SplitOnce(s[1..], sep)
      case None => None
      case Some(halves) => Some(([s[0]] + halves.0, halves.1))
  }

  lemma {:induction false} SplitAtFirst(key: string, value: string, sep: char)
    requires sep !in key
    ensures SplitOnce(key + ([sep] + value), sep) == Some((key, value))
  {
    var s := key + ([sep] + value);
    if key == "" {
      assert s == [sep] + value;
    } else {
      assert s[1..] == key[1..] + ([sep] + value);
      SplitAtFirst(key[1..], value, sep);
      assert [key[0]] + key[1..] == key;
    }
  }

  /** Splitting undoes joining when no part holds the separator. */
  lemma {:induction false} SplitJoined(parts: seq<string>, sep: char)
    requires parts != []
    requires forall p :: p in parts ==> sep !in p
    ensures SplitOn(JoinWith(parts, sep), sep) == parts
    decreases |parts|
  {
    var first, rest := parts[0], parts[1..];
    assert first in parts && parts == [first] + rest;
    if |parts| == 1 {
      SplitFirst(first, "", sep);
    } else {
      var joined := JoinWith(rest, sep);
      assert JoinWith(parts, sep) == first + [sep] + joined;
      SplitFirst(first, joined, sep);
      SplitJoined(rest, sep);
    }
  }
}
