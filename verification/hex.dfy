/** Hexadecimal rendering as Python's format specifications "{:X}", "{:02X}"
    and "{:02x}" produce it, plus the reading back that the round trips use. */
module Hex {
  import opened Wrappers

  /** Value of a hex digit of either case, as int(c, 16) reads one character. */
  function DigitValue(c: char): (r: Option<nat>)
    ensures r.Some? ==> r.value < 16
  {
    if '0' <= c <= '9' then Some(c as int - '0' as int)
    else if 'A' <= c <= 'F' then Some(c as int - 'A' as int + 10)
    else if 'a' <= c <= 'f' then Some(c as int - 'a' as int + 10)
    else None
  }

  /** Every character is a hex digit of one case or the other. */
  predicate HexText(s: string)
  {
    forall i :: 0 <= i < |s| ==> DigitValue(s[i]).Some?
  }

  /** A concatenation is hex text exactly when both parts are. */
  lemma HexTextAppend(a: string, b: string)
    ensures HexText(a + b) <==> HexText(a) && HexText(b)
  {
    if HexText(a + b) {
      forall i | 0 <= i < |a| ensures DigitValue(a[i]).Some? {
        assert a[i] == (a + b)[i];
      }
      forall i | 0 <= i < |b| ensures DigitValue(b[i]).Some? {
        assert b[i] == (a + b)[|a| + i];
      }
    }
  }

  /** A hex digit of one case: a decimal digit, or a letter A-F when upper
      and a-f when not. */
  predicate CaseDigit(c: char, upper: bool)
  {
    '0' <= c <= '9' || (upper && 'A' <= c <= 'F') || (!upper && 'a' <= c <= 'f')
  }

  /** Every character is a hex digit of the given case: "{:X}" and "{:02X}"
      write upper-case text, "{:02x}" lower-case. */
  predicate InCase(s: string, upper: bool)
  {
    forall i :: 0 <= i < |s| ==> CaseDigit(s[i], upper)
  }

  /** Text in one case is hex text. */
  lemma InCaseHexText(s: string, upper: bool)
    requires InCase(s, upper)
    ensures HexText(s)
  {
    forall i | 0 <= i < |s| ensures DigitValue(s[i]).Some? {
      assert CaseDigit(s[i], upper);
    }
  }

  /** A concatenation is in one case exactly when both parts are. */
  lemma InCaseAppend(a: string, b: string, upper: bool)
    ensures InCase(a + b, upper) <==> InCase(a, upper) && InCase(b, upper)
  {
    if InCase(a + b, upper) {
      forall i | 0 <= i < |a| ensures CaseDigit(a[i], upper) {
        assert a[i] == (a + b)[i];
      }
      forall i | 0 <= i < |b| ensures CaseDigit(b[i], upper) {
        assert b[i] == (a + b)[|a| + i];
      }
    }
  }

  /** The number hex text stands for, most significant digit first, as
      int(s, 16) reads it. */
  function HexValue(s: string): nat
    requires HexText(s)
    decreases |s|
  {
    if |s| == 0 then 0
    else
      var front := s[..|s| - 1];
      assert HexText(front) by {
        forall i | 0 <= i < |front| ensures DigitValue(front[i]).Some? {
          assert front[i] == s[i];
        }
      }
      16 * HexValue(front) + DigitValue(s[|s| - 1]).value
  }

  /** One hex digit for a nibble, upper- or lower-case. */
  function Digit(n: nat, upper: bool): (c: char)
    requires n < 16
    ensures DigitValue(c) == Some(n)
    ensures n < 10 <==> '0' <= c <= '9'
    ensures CaseDigit(c, upper)
  {
    if n < 10 then ('0' as int + n) as char
    else if upper then ('A' as int + n - 10) as char
    else ('a' as int + n - 10) as char
  }

  /** Minimal hex rendering of n, most significant digit first ("{:X}"). */
  function Digits(n: nat, upper: bool): (s: string)
    ensures |s| >= 1
    ensures n >= 16 ==> |s| >= 2
    ensures HexText(s) && HexValue(s) == n
    ensures |s| > 1 ==> s[0] != '0'
    ensures InCase(s, upper)
    decreases n
  {
    if n < 16 then
      assert [Digit(n, upper)][..0] == [];
      [Digit(n, upper)]
    else
      var front, last := Digits(n / 16, upper), [Digit(n % 16, upper)];
      HexTextAppend(front, last);
      InCaseAppend(front, last, upper);
      assert (front + last)[..|front|] == front;
      assert |front| == 1 ==> DigitValue(front[0]) == Some(n / 16);
      front + last
  }

  /** Reads exactly two hex digits of either case. */
  function ParseByte(s: string): (r: Option<nat>)
    ensures r.Some? ==> r.value < 256
  {
    if |s| != 2 then None
    else
      var hi, lo := DigitValue(s[0]), DigitValue(s[1]);
      if hi.Some? && lo.Some? then Some(16 * hi.value + lo.value) else None
  }

  /** "{:02X}" (upper) or "{:02x}" (lower): the minimal rendering
      left-padded with '0' to at least two digits. */
  function Pad2(n: nat, upper: bool): (s: string)
    ensures n < 256 ==> |s| == 2 && ParseByte(s) == Some(n)
    ensures n >= 256 ==> |s| >= 3
    ensures HexText(s) && HexValue(s) == n
    ensures InCase(s, upper)
  {
    var d := Digits(n, upper);
    assert 16 <= n < 256 ==> Digits(n / 16, upper) == [Digit(n / 16, upper)];
    HexTextAppend(['0'], d);
    InCaseAppend(['0'], d, upper);
    if |d| < 2 then
      assert (['0'] + d)[..1] == ['0'] && ['0'][..0] == [];
      ['0'] + d
    else d
  }

  /** Values that fit in one octet. */
  predicate Octets(os: seq<nat>)
  {
    forall i :: 0 <= i < |os| ==> os[i] < 256
  }

  /** OctetArray.hex: every octet as two upper-case hex digits. */
  function OctetsHex(os: seq<nat>): (s: string)
    ensures Octets(os) ==> |s| == 2 * |os|
    ensures HexText(s) && InCase(s, true)
  {
    if |os| == 0 then ""
    else
      var head, tail := Pad2(os[0], true), OctetsHex(os[1..]);
      HexTextAppend(head, tail);
      InCaseAppend(head, tail, true);
      assert Octets(os) ==> os[0] < 256 && Octets(os[1..]);
      head + tail
  }

  /** Reads a string of hex digit pairs back into octets. */
  function ParseOctets(s: string): (r: Option<seq<nat>>)
    ensures r.Some? ==> |s| == 2 * |r.value| && Octets(r.value)
  {
    if |s| == 0 then Some([])
    else if |s| < 2 then None
    else
      var b, rest := ParseByte(s[..2]), ParseOctets(s[2..]);
      if b.Some? && rest.Some? then Some([b.value] + rest.value) else None
  }

  /** Reading the rendering of octets gives them back. */
  lemma {:induction false} OctetsRoundTrip(os: seq<nat>)
    requires Octets(os)
    ensures ParseOctets(OctetsHex(os)) == Some(os)
  {
    if |os| > 0 {
      var head, tail := Pad2(os[0], true), OctetsHex(os[1..]);
      assert Octets(os[1..]);
      OctetsRoundTrip(os[1..]);
      assert OctetsHex(os) == head + tail;
      assert (head + tail)[..2] == head && (head + tail)[2..] == tail;
      assert [os[0]] + os[1..] == os;
    }
  }
}
