/** Signed decimal numbers as `fmt` prints them and `strconv.ParseInt(s, 10, 64)` reads them. */
module Decimal {
  import opened Basics
  import opened Times

  predicate IsDigit(c: char) {
    '0' <= c <= '9'
  }

  ghost predicate Digits(s: string) {
    forall i :: 0 <= i < |s| ==> IsDigit(s[i])
  }

  function PrintNat(n: nat): (s: string)
    ensures |s| >= 1 && Digits(s)
  {
    var last := [(n % 10 + 48) as char];
    if n < 10 then last else PrintNat(n / 10) + last
  }

  function PrintInt(n: int): string {
    if n < 0 then "-" + PrintNat(-n) else PrintNat(n)
  }

  /** The value of a non-empty string of digits. */
  function ParseNat(s: string): Option<nat> {
    if s == "" || !IsDigit(s[|s| - 1]) then None
    else
      var digit := s[|s| - 1] as int - 48;
      if |s| == 1 then Some(digit)
      else
        match ParseNat(s[..|s| - 1])
        case None => None
        case Some(high) => Some(10 * high + digit)
  }

  /** An optional sign, digits, and a value of 64 bits; anything else is an error. */
  function ParseInt64(s: string): Option<int> {
    var negative := s != "" && s[0] == '-';
    var signed := negative || (s != "" && s[0] == '+');
    match ParseNat(if signed then s[1..] else s)
    case None => None
    case Some(n) =>
      var value: int := if negative then -(n as int) else n;
      if FitsInt64(value) then Some(value) else None
  }

  lemma {:induction false} ParsePrintNat(n: nat)
    ensures ParseNat(PrintNat(n)) == Some(n)
  {
    if n >= 10 {
      ParsePrintNat(n / 10);
      var s := PrintNat(n);
      assert s[..|s| - 1] == PrintNat(n / 10);
    }
  }

  lemma ParsePrintInt(n: int)
    ensures ParseInt64(PrintInt(n)) == if FitsInt64(n) then Some(n) else None
  {
    if n < 0 {
      ParsePrintNat(-n);
      assert PrintInt(n)[1..] == PrintNat(-n);
    } else {
      ParsePrintNat(n);
      assert IsDigit(PrintNat(n)[0]);
    }
  }

  lemma PrintIntInjective(m: int, n: int)
    requires PrintInt(m) == PrintInt(n)
    ensures m == n
  {
    ParsePrintNat(Abs(m));
    ParsePrintNat(Abs(n));
    assert IsDigit(PrintNat(Abs(m))[0]) && IsDigit(PrintNat(Abs(n))[0]);
    if m < 0 && n < 0 {
      assert PrintInt(m)[1..] == PrintNat(-m) && PrintInt(n)[1..] == PrintNat(-n);
    }
  }

  function Power(k: nat): (p: nat)
    ensures p >= 1
  {
    if k == 0 then 1 else 10 * Power(k - 1)
  }

  /** A number without its last `k` digits. */
  function Shifted(n: nat, k: nat): nat {
    if k == 0 then n else Shifted(n / 10, k - 1)
  }

  lemma {:induction false} ShiftedDivides(n: nat, k: nat)
    ensures Shifted(n, k) * Power(k) <= n < (Shifted(n, k) + 1) * Power(k)
  {
    if k > 0 {
      var q, p := Shifted(n / 10, k - 1), Power(k - 1);
      assert Shifted(n, k) == q && Power(k) == 10 * p;
      hide Shifted, Power;
      ShiftedDivides(n / 10, k - 1);
      Tenfold(q, p);
      Tenfold(q + 1, p);
      TenfoldBounds(q * p, n, (q + 1) * p);
    }
  }

  lemma Tenfold(q: nat, p: nat)
    ensures q * (10 * p) == 10 * (q * p)
  {
  }

  lemma TenfoldBounds(low: nat, n: nat, high: nat)
    requires low <= n / 10 < high
    ensures 10 * low <= n < 10 * high
  {
  }

  /** The digit for the `k`-th power of ten stands `k` places from the end. */
  lemma {:induction false} DigitAt(n: nat, k: nat)
    requires k < |PrintNat(n)|
    ensures var s := PrintNat(n); s[|s| - 1 - k] as int == '0' as int + Shifted(n, k) % 10
  {
    if k > 0 {
      DigitAt(n / 10, k - 1);
    }
  }

  /** No zeros lead, and a negative number has a minus sign before its digits. */
  lemma {:induction false} NoLeadingZero(n: nat)
    requires n > 0
    ensures PrintNat(n)[0] != '0'
    ensures PrintInt(0 - n) == "-" + PrintInt(n)
  {
    if n >= 10 {
      NoLeadingZero(n / 10);
    }
  }
}
