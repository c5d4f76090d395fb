/** Decimal integers as Go's `strconv` prints and parses them. */
module Decimals {
  import opened Common

  predicate InInt64(n: int) {
    -0x8000_0000_0000_0000 <= n < 0x8000_0000_0000_0000
  }

  predicate IsDigit(c: char) {
    '0' <= c <= '9'
  }

  ghost predicate AllDigits(s: string) {
    forall i :: 0 <= i < |s| ==> IsDigit(s[i])
  }

  function Digits(n: nat): (s: string)
    ensures |s| > 0 && AllDigits(s) && (n > 0 ==> s[0] != '0') && (n == 0 ==> s == "0")
  {
    var last := '0' + (n % 10) as char;
    if n < 10 then [last] else Digits(n / 10) + [last]
  }

  function Format(n: int): string {
    if n < 0 then "-" + Digits(-n) else Digits(n)
  }

  /** The value of a run of digits, `None` if anything else occurs. */
  function Value(s: string): Option<nat> {
    if |s| == 0 then Some(0) else
      var last := s[|s| - 1];
      match Value(s[..|s| - 1])
      case Some(v) => if IsDigit(last) then Some(10 * v + (last as int - '0' as int)) else None
      case None => None
  }

  /** `strconv.ParseInt(s, 10, 64)`: an optional sign, at least one digit, and a
      value that fits. */
  function ParseInt(s: string): Option<int> {
    if |s| == 0 then None
    else if s[0] == '-' then Signed(-1, s[1..])
    else if s[0] == '+' then Signed(1, s[1..])
    else Signed(1, s)
  }

  function Signed(sign: int, digits: string): Option<int> {
    if |digits| == 0 then None else
      match Value(digits)
      case None => None
      case Some(v) => if InInt64(sign * v) then Some(sign * v) else None
  }

  lemma {:induction false} ValueExists(s: string)
    ensures Value(s).Some? <==> AllDigits(s)
    decreases |s|
  {
    if |s| > 0 {
      var init := s[..|s| - 1];
      ValueExists(init);
      assert s == init + [s[|s| - 1]];
    }
  }

  /** What is an integer: an optional sign before one or more digits whose value
      fits, and nothing else. */
  lemma ParseIntExactly(s: string)
    ensures var signed := |s| > 0 && (s[0] == '-' || s[0] == '+');
            var digits, sign := if signed then s[1..] else s, if signed && s[0] == '-' then -1 else 1;
            match Value(digits)
            case None => !AllDigits(digits) && ParseInt(s) == None
            case Some(v) =>
              && AllDigits(digits)
              && ParseInt(s) == if digits != "" && InInt64(sign * v) then Some(sign * v) else None
  {
    ValueExists(if |s| > 0 && (s[0] == '-' || s[0] == '+') then s[1..] else s);
  }

  lemma {:induction false} ValueOfDigits(n: nat)
    ensures Value(Digits(n)) == Some(n)
  {
    var s := Digits(n);
    if n < 10 {
      assert Value(s[..0]) == Some(0);
    } else {
      ValueOfDigits(n / 10);
      assert s[..|s| - 1] == Digits(n / 10);
    }
  }

  lemma ParseUnsigned(s: string, v: int)
    requires |s| > 0 && IsDigit(s[0]) && v >= 0 && Value(s) == Some(v) && InInt64(v)
    ensures ParseInt(s) == Some(v)
  {
  }

  lemma ParseNegative(s: string, v: int)
    requires |s| > 0 && v >= 0 && Value(s) == Some(v) && InInt64(-v)
    ensures ParseInt("-" + s) == Some(-v)
  {
    DropPrefix("-", s);
    assert ParseInt("-" + s) == Signed(-1, s);
  }

  lemma FormatRoundTrip(n: int)
    requires InInt64(n)
    ensures ParseInt(Format(n)) == Some(n)
  {
    if n < 0 {
      ValueOfDigits(-n);
      ParseNegative(Digits(-n), -n);
    } else {
      ValueOfDigits(n);
      ParseUnsigned(Digits(n), n);
    }
  }

  /** Printed integers consist of digits and perhaps a sign. */
  lemma FormatChars(n: int)
    ensures |Format(n)| > 0
    ensures forall i :: 0 <= i < |Format(n)| ==> IsDigit(Format(n)[i]) || Format(n)[i] == '-'
  {
  }
}
