/** Decimal integers in text, read as Rust's `parse::<i64>()` and its narrower
    and unsigned siblings read them. */
module Decimal {
  import opened Wrappers

  predicate IsDigit(c: char) {
    '0' <= c <= '9'
  }

  predicate AllDigits(s: string) {
    forall i :: 0 <= i < |s| ==> IsDigit(s[i])
  }

  function Value(s: string): nat
    requires AllDigits(s)
  {
    if s == "" then 0 else 10 * Value(s[..|s| - 1]) + (s[|s| - 1] as int - '0' as int)
  }

  /** Digits of `n` without leading zeros. */
  function Digits(n: nat): (s: string)
    ensures s != "" && AllDigits(s)
  {
    var last := [('0' as int + n % 10) as char];
    if n < 10 then last else Digits(n / 10) + last
  }

  function Print(n: int): string {
    if n < 0 then "-" + Digits(-n) else Digits(n)
  }

  /** An unsigned literal: digits after an optional plus sign. */
  function ParseUnsigned(s: string): Option<nat> {
    var body := if s != "" && s[0] == '+' then s[1..] else s;
    if body != "" && AllDigits(body) then Some(Value(body)) else None
  }

  function ParseSigned(s: string): Option<int> {
    if s != "" && s[0] == '-' then
      if |s| > 1 && AllDigits(s[1..]) then Some(0 - Value(s[1..]) as int) else None
    else
      match ParseUnsigned(s)
      case None => None
      case Some(n) => Some(n)
  }

  const I64_MAX := 0x7fff_ffff_ffff_ffff
  const I32_MAX := 0x7fff_ffff
  const U32_MAX := 0xffff_ffff

  function ParseI64(s: string): Option<int> {
    match ParseSigned(s)
    case None => None
    case Some(n) => if -I64_MAX - 1 <= n <= I64_MAX then Some(n) else None
  }

  function ParseI32(s: string): Option<int> {
    match ParseSigned(s)
    case None => None
    case Some(n) => if -I32_MAX - 1 <= n <= I32_MAX then Some(n) else None
  }

  function ParseU32(s: string): Option<nat> {
    match ParseUnsigned(s)
    case None => None
    case Some(n) => if n <= U32_MAX then Some(n) else None
  }

  lemma {:induction false} ValueOfDigits(n: nat)
    ensures Value(Digits(n)) == n
  {
    var last := [('0' as int + n % 10) as char];
    if n < 10 {
      assert last[..0] == "";
    } else {
      ValueOfDigits(n / 10);
      assert Digits(n)[..|Digits(n)| - 1] == Digits(n / 10);
    }
  }

  /** Printing an integer and reading it back gives the integer. */
  lemma ParsePrinted(n: int)
    requires -I64_MAX - 1 <= n <= I64_MAX
    ensures ParseI64(Print(n)) == Some(n)
  {
    if n < 0 {
      ValueOfDigits(-n);
      assert Print(n)[1..] == Digits(-n);
    } else {
      ValueOfDigits(n);
      assert IsDigit(Print(n)[0]);
    }
  }
}
