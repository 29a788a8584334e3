/**
 * The two number/text conversions the request path relies on: rendering an integral
 * JavaScript number inside a template literal, and `parseInt(text, 10)`.
 */
module Numbers {
  import opened Common

  predicate IsDigit(c: char)
  {
    '0' <= c <= '9'
  }

  predicate AllDigits(s: string)
  {
    forall i :: 0 <= i < |s| ==> IsDigit(s[i])
  }

  function DigitChar(d: nat): (c: char)
    requires d < 10
    ensures IsDigit(c)
  {
    ('0' as int + d) as char
  }

  function DigitValue(c: char): (d: nat)
    requires IsDigit(c)
    ensures d < 10
  {
    c as int - '0' as int
  }

  /** The decimal numeral of `n`, most significant digit first, without leading zeros. */
  function NatToDecimal(n: nat): (r: string)
    ensures |r| >= 1
    ensures AllDigits(r)
    decreases n
  {
    if n < 10 then [DigitChar(n)] else NatToDecimal(n / 10) + [DigitChar(n % 10)]
  }

  /** `${n}` for an integral number `n`: a minus sign for negatives, then the decimal digits. */
  function IntToDecimal(n: int): string
  {
    if n < 0 then "-" + NatToDecimal(-n) else NatToDecimal(n)
  }

  /** The value of a numeral read left to right in base ten. */
  function DigitsValue(s: string): nat
    requires AllDigits(s)
    decreases |s|
  {
    if |s| == 0 then 0 else DigitsValue(s[..|s| - 1]) * 10 + DigitValue(s[|s| - 1])
  }

  /** Length of the run of digits that `s` starts with. */
  function DigitRun(s: string): (k: nat)
    ensures k <= |s|
    ensures AllDigits(s[..k])
    ensures k < |s| ==> !IsDigit(s[k])
    decreases |s|
  {
    if |s| == 0 || !IsDigit(s[0]) then 0
    else
      var k := 1 + DigitRun(s[1..]);
      assert s[..k] == [s[0]] + s[1..][..k - 1];
      k
  }

  /** The white space and line terminators that `parseInt` skips before the number. */
  predicate IsSpace(c: char)
  {
    || c == '\t' || c == '\n' || c == '\U{000B}' || c == '\U{000C}' || c == '\r'
    || c == ' ' || c == '\U{00A0}' || c == '\U{1680}' || ('\U{2000}' <= c <= '\U{200A}')
    || c == '\U{2028}' || c == '\U{2029}' || c == '\U{202F}' || c == '\U{205F}'
    || c == '\U{3000}' || c == '\U{FEFF}'
  }

  /** `s` with its leading white space removed. */
  function TrimStart(s: string): (r: string)
    ensures |r| == 0 || !IsSpace(r[0])
    decreases |s|
  {
    if |s| > 0 && IsSpace(s[0]) then TrimStart(s[1..]) else s
  }

  /** The longest leading digit run of `b` as a number, or `None` when `b` does not start with a digit. */
  function ParseDigits(b: string): Option<int>
  {
    var k := DigitRun(b);
    if k == 0 then None else Some(DigitsValue(b[..k]) as int)
  }

  /**
   * `parseInt(s, 10)`: skip leading white space, read an optional sign, then the longest
   * run of digits; `None` (NaN) when that run is empty. Text after the digits is ignored.
   */
  function ParseInt(s: string): (r: Option<int>)
    ensures var t := TrimStart(s);
      r.Some? <==> (|t| > 0 && IsDigit(t[0])) || (|t| > 1 && (t[0] == '-' || t[0] == '+') && IsDigit(t[1]))
    ensures r.Some? && r.value < 0 ==> TrimStart(s)[0] == '-'
  {
    var t := TrimStart(s);
    if |t| > 0 && t[0] == '-' then
      match ParseDigits(t[1..])
      case None => None
      case Some(v) => Some(-v)
    else if |t| > 0 && t[0] == '+' then ParseDigits(t[1..])
    else ParseDigits(t)
  }

  /** Reading back a rendered natural number gives the number. */
  lemma {:induction false} DigitsValueOfDecimal(n: nat)
    ensures DigitsValue(NatToDecimal(n)) == n
    decreases n
  {
    var s := NatToDecimal(n);
    if n >= 10 {
      DigitsValueOfDecimal(n / 10);
      assert s[..|s| - 1] == NatToDecimal(n / 10);
      assert DigitValue(s[|s| - 1]) == n % 10;
    }
  }

  /** A digit run followed by text that does not start with a digit is exactly that run. */
  lemma {:induction false} DigitRunOfNumeral(d: string, rest: string)
    requires AllDigits(d)
    requires |rest| == 0 || !IsDigit(rest[0])
    ensures DigitRun(d + rest) == |d|
    ensures (d + rest)[..|d|] == d
    decreases |d|
  {
    var s := d + rest;
    if |d| == 0 {
      assert s == rest;
    } else {
      assert s[0] == d[0] && IsDigit(s[0]);
      assert s[1..] == d[1..] + rest;
      assert AllDigits(d[1..]) by {
        forall i | 0 <= i < |d[1..]| ensures IsDigit(d[1..][i]) {
          assert d[1..][i] == d[i + 1];
        }
      }
      DigitRunOfNumeral(d[1..], rest);
      assert DigitRun(s) == 1 + DigitRun(s[1..]);
    }
    assert s[..|d|] == d;
  }

  /** Text that starts with a digit parses as its leading digit run. */
  lemma ParseIntOfDigitFirst(s: string)
    requires |s| > 0 && IsDigit(s[0])
    ensures ParseInt(s) == ParseDigits(s)
  {
    assert !IsSpace(s[0]);
    assert TrimStart(s) == s;
  }

  /** Text that starts with a minus sign parses as the negated digit run after it. */
  lemma ParseIntOfMinusFirst(s: string)
    requires |s| > 0 && s[0] == '-'
    ensures ParseInt(s) == match ParseDigits(s[1..]) case None => None case Some(v) => Some(-v)
  {
    assert !IsSpace(s[0]);
    assert TrimStart(s) == s;
  }

  /** A minus sign in front of text whose digit run reads `v` parses to `-v`. */
  lemma MinusThen(t: string)
    ensures ParseInt(['-'] + t) == match ParseDigits(t) case None => None case Some(v) => Some(-v)
  {
    var s := ['-'] + t;
    assert s[1..] == t;
    ParseIntOfMinusFirst(s);
  }

  /** A numeral followed by a non-digit has that numeral as its digit run. */
  lemma ParseDigitsOfNumeral(d: string, rest: string)
    requires |d| >= 1 && AllDigits(d)
    requires |rest| == 0 || !IsDigit(rest[0])
    ensures ParseDigits(d + rest) == Some(DigitsValue(d) as int)
  {
    DigitRunOfNumeral(d, rest);
  }

  /** An unsigned numeral followed by a non-digit parses to its value. */
  lemma ParseIntOfNumeral(d: string, rest: string)
    requires |d| >= 1 && AllDigits(d)
    requires |rest| == 0 || !IsDigit(rest[0])
    ensures ParseInt(d + rest) == Some(DigitsValue(d) as int)
  {
    ParseDigitsOfNumeral(d, rest);
    assert (d + rest)[0] == d[0];
    ParseIntOfDigitFirst(d + rest);
  }

  /**
   * `parseInt` undoes `${n}`: the rendered number, followed by anything that does not
   * continue the digits, parses back to `n`.
   */
  lemma ParseIntOfDecimal(n: int, rest: string)
    requires |rest| == 0 || !IsDigit(rest[0])
    ensures ParseInt(IntToDecimal(n) + rest) == Some(n)
  {
    if n < 0 {
      ParseIntOfNegativeDecimal(n, rest);
    } else {
      var d := NatToDecimal(n);
      assert IntToDecimal(n) == d;
      DigitsValueOfDecimal(n);
      ParseIntOfNumeral(d, rest);
    }
  }

  lemma ParseIntOfNegativeDecimal(n: int, rest: string)
    requires n < 0
    requires |rest| == 0 || !IsDigit(rest[0])
    ensures ParseInt(IntToDecimal(n) + rest) == Some(n)
  {
    var d := NatToDecimal(-n);
    var t := d + rest;
    assert IntToDecimal(n) + rest == ['-'] + t;
    DigitsValueOfDecimal(-n);
    ParseDigitsOfNumeral(d, rest);
    assert ParseDigits(t) == Some(-n);
    MinusThen(t);
  }

  /** The numerals of the two default values. */
  lemma OneAndTen()
    ensures IntToDecimal(1) == "1" && IntToDecimal(10) == "10"
  {
    assert NatToDecimal(10) == NatToDecimal(1) + [DigitChar(0)];
  }
}
