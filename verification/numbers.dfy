/**
 * Decimal text of integers in both directions: `str(n)` / `n.toString()` for
 * writing, Python's `int(text)` and JavaScript's `parseInt(text)` for reading,
 * and the numerals Python's `float` and `Decimal` accept.
 */
module Numbers {
  import opened Wrappers
  import opened Text

  predicate IsDigit(c: char) { '0' <= c <= '9' }

  predicate AllDigits(s: string) { forall i :: 0 <= i < |s| ==> IsDigit(s[i]) }

  function DigitChar(n: nat): char
    requires n < 10
  {
    ('0' as int + n) as char
  }

  function DigitValue(c: char): nat
    requires IsDigit(c)
  {
    c as int - '0' as int
  }

  /** The number a string of decimal digits stands for (most significant digit first). */
  function DigitsValue(s: string): nat
    requires AllDigits(s)
  {
    if |s| == 0 then 0 else DigitsValue(s[..|s| - 1]) * 10 + DigitValue(s[|s| - 1])
  }

  /** `str(n)` for a non-negative `n`: its shortest decimal digits. */
  function NatToString(n: nat): (r: string)
    ensures |r| >= 1 && AllDigits(r)
    ensures r[0] == '0' ==> n == 0
  {
    if n < 10 then [DigitChar(n)] else NatToString(n / 10) + [DigitChar(n % 10)]
  }

  /** `str(n)`: a minus sign for negative numbers, then the digits. */
  function IntToString(n: int): (r: string)
    ensures |r| >= 1
    ensures forall i :: 0 <= i < |r| ==> IsDigit(r[i]) || (i == 0 && r[i] == '-')
  {
    if n < 0 then "-" + NatToString(-n) else NatToString(n)
  }

  /**
   * Python's `int(text)`: an optional sign and at least one digit, nothing else;
   * any other text makes `int` raise `ValueError`, modelled as `None`.
   */
  function ParseInt(s: string): Option<int>
  {
    if |s| >= 2 && (s[0] == '-' || s[0] == '+') && AllDigits(s[1..]) then
      Some(if s[0] == '-' then -(DigitsValue(s[1..]) as int) else DigitsValue(s[1..]))
    else if |s| >= 1 && AllDigits(s) then Some(DigitsValue(s))
    else None
  }

  /** Position of the first `e` or `E` in `s`, or `|s|` when there is none. */
  function ExponentAt(s: string): (k: nat)
    ensures k <= |s|
    ensures forall i :: 0 <= i < k ==> s[i] != 'e' && s[i] != 'E'
    ensures k < |s| ==> s[k] == 'e' || s[k] == 'E'
  {
    if |s| == 0 || s[0] == 'e' || s[0] == 'E' then 0 else 1 + ExponentAt(s[1..])
  }

  /** Nothing but digits and `.`. */
  predicate DigitsAndDots(m: string)
  {
    |m| == 0 || ((IsDigit(m[0]) || m[0] == '.') && DigitsAndDots(m[1..]))
  }

  /** Digits with at most one `.` among them, and at least one digit. */
  predicate IsMantissa(m: string)
  {
    DigitsAndDots(m) && Count(m, '.') <= 1 && Count(m, '.') < |m|
  }

  /**
   * The finite numerals Python's `float(text)` and `Decimal(text)` both accept:
   * an optional sign, a mantissa, and an optional `e` or `E` followed by an
   * exponent `int` accepts.
   */
  predicate IsDecimalNumeral(s: string)
  {
    var body := if |s| > 0 && (s[0] == '+' || s[0] == '-') then s[1..] else s;
    var k := ExponentAt(body);
    IsMantissa(body[..k]) && (k == |body| || ParseInt(body[k + 1..]).Some?)
  }

  /** Every text `int` accepts is also a numeral `float` and `Decimal` accept. */
  lemma IntegerIsNumeral(s: string)
    requires ParseInt(s).Some?
    ensures IsDecimalNumeral(s)
  {
    var body := if |s| > 0 && (s[0] == '+' || s[0] == '-') then s[1..] else s;
    assert AllDigits(body) && |body| >= 1;
    PlainDigits(body);
    assert body[..|body|] == body;
  }

  lemma {:induction false} PlainDigits(b: string)
    requires AllDigits(b)
    ensures ExponentAt(b) == |b| && Count(b, '.') == 0 && DigitsAndDots(b)
    decreases |b|
  {
    if |b| > 0 {
      assert AllDigits(b[1..]) by {
        forall i | 0 <= i < |b[1..]| ensures IsDigit(b[1..][i]) {
          assert b[1..][i] == b[i + 1];
        }
      }
      PlainDigits(b[1..]);
    }
  }

  /** Length of the longest prefix of `s` made of digits. */
  function LeadingDigits(s: string): (k: nat)
    ensures k <= |s| && AllDigits(s[..k])
    ensures k < |s| ==> !IsDigit(s[k])
  {
    if |s| == 0 || !IsDigit(s[0]) then 0
    else
      var k := 1 + LeadingDigits(s[1..]);
      assert s[..k] == [s[0]] + s[1..][..k - 1];
      k
  }

  /** The number the leading digits of `s` stand for; `None` when `s` does not start with a digit. */
  function LeadingNumber(s: string): Option<nat>
  {
    var k := LeadingDigits(s);
    if k == 0 then None else Some(DigitsValue(s[..k]))
  }

  /**
   * JavaScript's `parseInt(text)`: an optional sign, then the longest run of
   * digits; no digit at all gives `NaN`, modelled as `None`.
   */
  function JsParseInt(s: string): Option<int>
  {
    if |s| >= 1 && s[0] == '-' then
      match LeadingNumber(s[1..])
      case None => None
      case Some(v) => Some(-(v as int))
    else if |s| >= 1 && s[0] == '+' then
      match LeadingNumber(s[1..])
      case None => None
      case Some(v) => Some(v as int)
    else
      match LeadingNumber(s)
      case None => None
      case Some(v) => Some(v as int)
  }

  lemma {:induction false} DigitsValueOfNatToString(n: nat)
    ensures DigitsValue(NatToString(n)) == n
  {
    var s := NatToString(n);
    if n < 10 {
    } else {
      DigitsValueOfNatToString(n / 10);
      assert s[..|s| - 1] == NatToString(n / 10);
    }
  }

  lemma LeadingDigitsAll(s: string)
    requires AllDigits(s)
    ensures LeadingDigits(s) == |s|
  {
  }

  /** Reading back what `str` wrote gives the number: `int(str(n)) == n`. */
  lemma ParseIntToString(n: int)
    ensures ParseInt(IntToString(n)) == Some(n)
  {
    var s := IntToString(n);
    if n < 0 {
      DigitsValueOfNatToString(-n);
      assert s[1..] == NatToString(-n);
    } else {
      DigitsValueOfNatToString(n);
    }
  }

  /** The leading number of a run of digits is the number they all stand for. */
  lemma LeadingNumberAll(t: string)
    requires |t| >= 1 && AllDigits(t)
    ensures LeadingNumber(t) == Some(DigitsValue(t))
  {
    LeadingDigitsAll(t);
    assert t[..|t|] == t;
  }

  /** `parseInt(n.toString()) == n`. */
  lemma JsParseIntToString(n: int)
    ensures JsParseInt(IntToString(n)) == Some(n)
  {
    var s := IntToString(n);
    if n < 0 {
      var t := NatToString(-n);
      assert s[0] == '-' && s[1..] == t;
      DigitsValueOfNatToString(-n);
      LeadingNumberAll(t);
    } else {
      assert s == NatToString(n);
      DigitsValueOfNatToString(n);
      LeadingNumberAll(s);
    }
  }

  lemma NatToStringFree(n: nat, c: char)
    requires !IsDigit(c)
    ensures c !in NatToString(n)
  {
  }

  /** The text of an integer holds only digits and a leading minus sign. */
  lemma IntToStringFree(n: int, c: char)
    requires !IsDigit(c) && c != '-'
    ensures c !in IntToString(n)
  {
    var s := IntToString(n);
    assert forall i :: 0 <= i < |s| ==> s[i] != c;
  }
}
