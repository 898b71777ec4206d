/** Decimal numbers as the standard streams print and read them. */
module Decimal {
  import opened Wrappers

  predicate IsDigit(c: char) {
    '0' <= c <= '9'
  }

  predicate AllDigits(s: string) {
    forall i :: 0 <= i < |s| ==> IsDigit(s[i])
  }

  function Digit(n: nat): (c: char)
    requires n < 10
    ensures IsDigit(c) && c as int - '0' as int == n
  {
    ('0' as int + n) as char
  }

  function Dec(n: nat): (s: string)
    ensures s != "" && AllDigits(s)
  {
    if n < 10 then [Digit(n)] else Dec(n / 10) + [Digit(n % 10)]
  }

  function Value(s: string): nat
    requires AllDigits(s)
  {
    if s == "" then 0 else Value(s[..|s| - 1]) * 10 + (s[|s| - 1] as int - '0' as int)
  }

  lemma {:induction false} ValueOfDec(n: nat)
    ensures Value(Dec(n)) == n
  {
    var s := Dec(n);
    if n < 10 {
      assert s[..0] == "";
    } else {
      ValueOfDec(n / 10);
      assert s[..|s| - 1] == Dec(n / 10);
    }
  }

  lemma DecIsInjective(m: nat, n: nat)
    requires Dec(m) == Dec(n)
    ensures m == n
  {
    ValueOfDec(m);
    ValueOfDec(n);
  }

  /** How many leading characters satisfy a stream's digit loop. */
  function DigitSpan(s: string): (n: nat)
    ensures n <= |s| && AllDigits(s[..n])
    ensures n < |s| ==> !IsDigit(s[n])
  {
    if s == "" || !IsDigit(s[0]) then 0
    else
      var n := DigitSpan(s[1..]);
      assert s[..n + 1] == [s[0]] + s[1..][..n];
      n + 1
  }

  const SPACES: set<char> := {' ', '\t', '\n', '\r', 11 as char, 12 as char}

  function SkipSpaces(s: string): string {
    if s != "" && s[0] in SPACES then SkipSpaces(s[1..]) else s
  }

  /** operator>> followed by a test for the end of the stream: spaces, a sign, digits and nothing
      more; the sign and the magnitude. */
  function Extract(s: string): Option<(bool, nat)> {
    var t := SkipSpaces(s);
    var negative := t != "" && t[0] == '-';
    var digits := if t != "" && (t[0] == '-' || t[0] == '+') then t[1..] else t;
    var n := DigitSpan(digits);
    if n == 0 || n < |digits| then None else Some((negative, Value(digits[..n])))
  }

  const TWO_31 := 0x8000_0000
  const TWO_64 := 0x1_0000_0000_0000_0000

  function ExtractInt(s: string): Option<int> {
    var e := Extract(s);
    if e.None? then None
    else
      var (negative, m) := e.value;
      var v := if negative then -(m as int) else m;
      if -TWO_31 <= v < TWO_31 then Some(v) else None
  }

  /** A negative number wraps around, as strtoull has it. */
  function ExtractUInt64(s: string): Option<nat> {
    var e := Extract(s);
    if e.None? || e.value.1 >= TWO_64 then None
    else Some(if e.value.0 && e.value.1 > 0 then TWO_64 - e.value.1 else e.value.1)
  }

  lemma {:induction false} DigitSpanOfDigits(s: string)
    requires AllDigits(s)
    ensures DigitSpan(s) == |s|
  {
    if s != "" { DigitSpanOfDigits(s[1..]); }
  }

  lemma ExtractDec(n: nat)
    requires n < TWO_64
    ensures ExtractUInt64(Dec(n)) == Some(n)
  {
    var s := Dec(n);
    assert IsDigit(s[0]);
    assert SkipSpaces(s) == s;
    DigitSpanOfDigits(s);
    assert s[..|s|] == s;
    ValueOfDec(n);
  }
}
