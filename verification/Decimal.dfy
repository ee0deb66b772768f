/** Decimal text of 64-bit integers, as the standard library reads and writes it. */
module Decimal {
  import opened Wrappers
  import opened Int64

  predicate IsDigit(c: char) { '0' <= c <= '9' }

  function Digits(n: nat): (s: string)
    ensures s != [] && forall i :: 0 <= i < |s| ==> IsDigit(s[i])
  {
    (if n < 10 then [] else Digits(n / 10)) + [('0' as int + n % 10) as char]
  }

  function Show(n: int): (s: string)
    ensures s != [] && forall i :: 0 <= i < |s| ==> IsDigit(s[i]) || s[i] == '-'
  {
    if n < 0 then "-" + Digits(-n) else Digits(n)
  }

  function DigitsValue(s: string): (r: Option<nat>) {
    if s == [] then Some(0)
    else if !IsDigit(s[|s| - 1]) then None
    else
      match DigitsValue(s[..|s| - 1])
      case None => None
      case Some(v) => Some(10 * v + (s[|s| - 1] as int - '0' as int))
  }

  /** An optional sign and at least one digit, within range. */
  function ParseI64(s: string): (r: Option<I64>) {
    var negative := s != [] && s[0] == '-';
    var body := if s != [] && (s[0] == '-' || s[0] == '+') then s[1..] else s;
    if body == [] then None
    else
      match DigitsValue(body)
      case None => None
      case Some(v) =>
        var n: int := if negative then -(v as int) else v;
        if -TWO63 <= n < TWO63 then Some(n) else None
  }

  /** An unsigned number: an optional plus sign and at least one digit. */
  function ParseUnsigned(s: string): (r: Option<nat>) {
    var body := if s != [] && s[0] == '+' then s[1..] else s;
    if body == [] then None else DigitsValue(body)
  }

  lemma ParseInvertsDigits(n: nat)
    ensures ParseUnsigned(Digits(n)) == Some(n)
  {
    DigitsRoundTrip(n);
    assert IsDigit(Digits(n)[0]);
  }

  lemma {:induction false} DigitsRoundTrip(n: nat)
    ensures DigitsValue(Digits(n)) == Some(n)
    decreases n
  {
    var s := Digits(n);
    if n >= 10 {
      DigitsRoundTrip(n / 10);
      assert s[..|s| - 1] == Digits(n / 10);
    } else {
      assert s[..|s| - 1] == [];
    }
  }

  lemma ParseInvertsShow(n: I64)
    ensures ParseI64(Show(n)) == Some(n)
  {
    var v := Abs(n);
    var body := Digits(v);
    DigitsRoundTrip(v);
    assert IsDigit(body[0]);
    if n < 0 {
      assert Show(n) == "-" + body && ("-" + body)[1..] == body;
    } else {
      assert Show(n) == body;
    }
  }

  /** A plus sign is allowed and a number beyond 64 bits is refused ... */
  lemma ParseAccepts(n: nat)
    ensures ParseI64("+" + Digits(n)) == ParseI64(Digits(n)) == if n < TWO63 then Some(n) else None
  {
    var body := Digits(n);
    DigitsRoundTrip(n);
    assert IsDigit(body[0]);
    assert ("+" + body)[1..] == body;
  }

  /** ... likewise with a minus sign. */
  lemma ParseAcceptsNegative(n: nat)
    ensures ParseI64("-" + Digits(n)) == if n <= TWO63 then Some(-(n as int)) else None
  {
    DigitsRoundTrip(n);
    NegativeBody(Digits(n), n);
  }

  lemma NegativeBody(body: string, n: nat)
    requires body != [] && DigitsValue(body) == Some(n)
    ensures ParseI64("-" + body) == if n <= TWO63 then Some(-(n as int)) else None
  {
    var s := "-" + body;
    assert s[0] == '-' && s[1..] == body;
  }
}
