/** Decimal integers as text: "{}".format(n) for the AT+CMGS length and
    int() for the integer-valued serial settings. */
module Decimal {
  import opened Wrappers

  /** An ASCII decimal digit. */
  predicate IsDigit(c: char)
  {
    '0' <= c <= '9'
  }

  /** Value of a non-empty run of decimal digits, most significant first. */
  function DigitsValue(s: string): nat
    requires forall i :: 0 <= i < |s| ==> IsDigit(s[i])
    decreases |s|
  {
    if |s| == 0 then 0
    else
      assert IsDigit(s[|s| - 1]);
      10 * DigitsValue(s[..|s| - 1]) + (s[|s| - 1] as int - '0' as int)
  }

  /** "{}".format(n) for a natural number: shortest decimal rendering. */
  function FromNat(n: nat): (s: string)
    ensures |s| >= 1 && forall i :: 0 <= i < |s| ==> IsDigit(s[i])
    ensures DigitsValue(s) == n
    ensures |s| > 1 ==> s[0] != '0'
    ensures ParseInt(s) == Some(n)
    decreases n
  {
    var last := [('0' as int + n % 10) as char];
    if n < 10 then last
    else
      var s := FromNat(n / 10) + last;
      assert s[..|s| - 1] == FromNat(n / 10);
      s
  }

  /** int(s) for an optionally signed run of ASCII decimal digits: the
      magnitude is the value of the digits, negative only after '-'. */
  function ParseInt(s: string): (r: Option<int>)
    ensures r.Some? <==> (|s| > 0 && var body := if s[0] == '+' || s[0] == '-' then s[1..] else s;
      |body| > 0 && forall i :: 0 <= i < |body| ==> IsDigit(body[i]))
    ensures r.Some? ==> var body := if s[0] == '+' || s[0] == '-' then s[1..] else s;
      && (r.value < 0 ==> s[0] == '-')
      && (if r.value < 0 then -r.value else r.value) == DigitsValue(body)
  {
    if |s| == 0 then None
    else
      var negative := s[0] == '-';
      var body := if s[0] == '+' || s[0] == '-' then s[1..] else s;
      if |body| == 0 || exists i :: 0 <= i < |body| && !IsDigit(body[i]) then None
      else
        var v: int := DigitsValue(body);
        Some(if negative then -v else v)
  }

  /** A leading zero does not change the value of a run of digits. */
  lemma {:induction false} LeadingZero(d: string)
    requires forall i :: 0 <= i < |d| ==> IsDigit(d[i])
    ensures DigitsValue("0" + d) == DigitsValue(d)
    decreases |d|
  {
    if |d| == 0 {
      assert ("0" + d)[..0] == "";
    } else {
      var front := d[..|d| - 1];
      assert ("0" + d)[..|d|] == "0" + front;
      assert ("0" + d)[|d|] == d[|d| - 1];
      LeadingZero(front);
    }
  }

  /** int() ignores leading zeros and a '+' sign, and '-' negates. */
  lemma SignsAndZeros(d: string)
    requires |d| > 0 && forall i :: 0 <= i < |d| ==> IsDigit(d[i])
    ensures ParseInt("0" + d) == ParseInt(d) == Some(DigitsValue(d))
    ensures ParseInt("+" + d) == ParseInt(d)
    ensures ParseInt("-" + d) == Some(-(DigitsValue(d) as int))
  {
    var z := "0" + d;
    forall i | 0 <= i < |z| ensures IsDigit(z[i]) {
      if i > 0 {
        assert z[i] == d[i - 1];
      }
    }
    LeadingZero(d);
    Unsigned(z);
    Unsigned(d);
    Signed('+', d);
    Signed('-', d);
  }

  /** A run of digits reads as its value. */
  lemma Unsigned(d: string)
    requires |d| > 0 && forall i :: 0 <= i < |d| ==> IsDigit(d[i])
    ensures ParseInt(d) == Some(DigitsValue(d))
  {
    assert IsDigit(d[0]);
  }

  /** A sign followed by a run of digits. */
  lemma Signed(sign: char, d: string)
    requires sign == '+' || sign == '-'
    requires |d| > 0 && forall i :: 0 <= i < |d| ==> IsDigit(d[i])
    ensures ParseInt([sign] + d) == Some(if sign == '-' then -(DigitsValue(d) as int) else DigitsValue(d))
  {
    assert ([sign] + d)[1..] == d;
  }

  /** Every integer written in decimal, with '-' when negative, reads back. */
  lemma SignedRoundTrip(n: int)
    ensures ParseInt(if n < 0 then "-" + FromNat(-n) else FromNat(n)) == Some(n)
  {
    if n < 0 {
      SignsAndZeros(FromNat(-n));
    }
  }
}
