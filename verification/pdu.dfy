/** The SMS-SUBMIT codec: destination number and GSM 7-bit body to the hex
    string handed to the modem (3GPP TS 23.040 section 9.2.2.2), preceded by
    the empty-SMSC sentinel octet. Every encoder has a decoder partner and
    a round-trip property. */
module Pdu {
  import opened Wrappers
  import Hex
  import Septets
  import Decimal

  /** int() of a character of the number that is neither '+' nor a digit. */
  datatype CodecError = NotADigit(c: char)

  /** Digit values each below ten. */
  predicate DecimalDigits(ds: seq<nat>)
  {
    forall i :: 0 <= i < |ds| ==> ds[i] < 10
  }

  /** The number text with every '+' removed, wherever it stands. */
  function WithoutPlus(number: string): (r: string)
    ensures |r| <= |number|
  {
    if |number| == 0 then ""
    else (if number[0] == '+' then "" else [number[0]]) + WithoutPlus(number[1..])
  }

  /** Digit values written back as decimal characters. */
  function DigitText(ds: seq<nat>): (r: string)
    requires DecimalDigits(ds)
    ensures |r| == |ds|
  {
    if |ds| == 0 then "" else [('0' as int + ds[0]) as char] + DigitText(ds[1..])
  }

  /** A character PhoneNumber.__init__ accepts: '+' or a decimal digit. */
  predicate NumberChar(c: char)
  {
    c == '+' || Decimal.IsDigit(c)
  }

  /** c is the first character of the number that is not accepted. */
  predicate FirstBad(number: string, c: char)
  {
    exists i :: 0 <= i < |number| && number[i] == c && !NumberChar(c)
      && forall j :: 0 <= j < i ==> NumberChar(number[j])
  }

  /** An accepted first character does not change which one is first bad. */
  lemma FirstBadLater(number: string, c: char)
    requires |number| > 0 && NumberChar(number[0]) && FirstBad(number[1..], c)
    ensures FirstBad(number, c)
  {
    var rest := number[1..];
    var i :| 0 <= i < |rest| && rest[i] == c && !NumberChar(c) && forall j :: 0 <= j < i ==> NumberChar(rest[j]);
    forall j | 0 <= j < i + 1 ensures NumberChar(number[j]) {
      if j > 0 {
        assert number[j] == rest[j - 1];
      }
    }
    assert number[i + 1] == c;
  }

  /** The nibbles PhoneNumber.__init__ computes: int() of every character
      except '+', in order; the first other non-digit is an error. */
  function DigitsOf(number: string): (r: Result<seq<nat>, CodecError>)
    ensures r.Success? <==> forall i :: 0 <= i < |number| ==> NumberChar(number[i])
    ensures r.Success? ==> DecimalDigits(r.value) && DigitText(r.value) == WithoutPlus(number)
    ensures r.Failure? ==> FirstBad(number, r.error.c)
  {
    if |number| == 0 then Success([])
    else
      var c := number[0];
      var rest := DigitsOf(number[1..]);
      assert number == [c] + number[1..];
      if !NumberChar(c) then Failure(NotADigit(c))
      else
        assert rest.Failure? ==> FirstBad(number, rest.error.c) by {
          if rest.Failure? {
            FirstBadLater(number, rest.error.c);
          }
        }
        if c == '+' then rest
        else match rest
          case Success(ds) => Success([c as int - '0' as int] + ds)
          case Failure(e) => Failure(e)
  }

  /** A destination number together with its digit nibbles. */
  datatype PhoneNumber = PhoneNumber(number: string, digits: seq<nat>)
  {
    /** The nibbles are exactly what the constructor derives from the text. */
    predicate Valid()
    {
      DigitsOf(number) == Success(digits)
    }

    /** The type-of-address selector: the text starts with '+'. */
    predicate International()
    {
      |number| > 0 && number[0] == '+'
    }
  }

  /** PhoneNumber.__init__. */
  function NewPhoneNumber(number: string): (r: Result<PhoneNumber, CodecError>)
    ensures r.Success? ==> r.value.Valid() && r.value.number == number
    ensures r.Success? <==> DigitsOf(number).Success?
  {
    match DigitsOf(number)
    case Success(ds) => Success(PhoneNumber(number, ds))
    case Failure(e) => Failure(e)
  }

  /** Type-of-number octet: 0x91 international, 0x81 otherwise. */
  function TypeOfNumber(p: PhoneNumber): (t: nat)
    ensures t == 0x91 || t == 0x81
    ensures t == 0x91 <==> p.International()
  {
    if p.International() then 0x91 else 0x81
  }

  /** Position of nibble i in the semi-octet string: pairs are swapped. */
  function Slot(i: nat): nat
  {
    if i % 2 == 0 then i + 1 else i - 1
  }

  /** Nibbles that fit in one hex digit. */
  predicate Nibbles(ds: seq<nat>)
  {
    forall i :: 0 <= i < |ds| ==> ds[i] < 16
  }

  /** NibbleArray.hex (3GPP TS 23.040 section 9.1.2.3): each pair is written
      second nibble first, and an odd last nibble is preceded by filler F.
      The count has to be known to read the digits back. */
  function SemiOctets(ds: seq<nat>): (h: string)
    requires Nibbles(ds)
    ensures |h| == 2 * ((|ds| + 1) / 2)
    decreases |ds|
  {
    if |ds| == 0 then ""
    else if |ds| == 1 then ['F', Hex.Digit(ds[0], true)]
    else if |ds| == 2 then [Hex.Digit(ds[1], true), Hex.Digit(ds[0], true)]
    else SemiOctets(ds[..2]) + SemiOctets(ds[2..])
  }

  /** Reading the semi-octets back with the digit count restores the
      nibbles. */
  lemma {:induction false} SemiOctetsRoundTrip(ds: seq<nat>)
    requires Nibbles(ds)
    ensures ParseSemiOctets(SemiOctets(ds), |ds|) == Some(ds)
    decreases |ds|
  {
    var h := SemiOctets(ds);
    if |ds| == 1 {
      assert ds == [Hex.DigitValue(h[1]).value];
    } else if |ds| == 2 {
      assert ParseSemiOctets(h[2..], 0) == Some([]);
      assert ds == [ds[0], ds[1]] + [];
    } else if |ds| > 2 {
      var front, back := SemiOctets(ds[..2]), SemiOctets(ds[2..]);
      SemiOctetsRoundTrip(ds[2..]);
      assert h == front + back;
      assert front == [Hex.Digit(ds[1], true), Hex.Digit(ds[0], true)];
      assert h[2..] == back;
      assert ds == [ds[0], ds[1]] + ds[2..];
    }
  }

  /** Nibble i of the input sits at position Slot(i) of the output. */
  lemma {:induction false} SemiOctetsAt(ds: seq<nat>, i: nat)
    requires Nibbles(ds) && i < |ds|
    ensures Slot(i) < |SemiOctets(ds)| && SemiOctets(ds)[Slot(i)] == Hex.Digit(ds[i], true)
    decreases i
  {
    if |ds| > 2 && i >= 2 {
      var front, back := SemiOctets(ds[..2]), SemiOctets(ds[2..]);
      assert SemiOctets(ds) == front + back;
      SemiOctetsAt(ds[2..], i - 2);
      assert ds[i] == ds[2..][i - 2];
      assert Slot(i) == 2 + Slot(i - 2);
    } else if |ds| > 2 {
      assert SemiOctets(ds) == SemiOctets(ds[..2]) + SemiOctets(ds[2..]);
    }
  }

  /** Every nibble sits at its swapped position, and an odd count leaves the
      filler F just before the last nibble. */
  lemma SemiOctetsLayout(ds: seq<nat>)
    requires Nibbles(ds)
    ensures forall i :: 0 <= i < |ds| ==> Slot(i) < |SemiOctets(ds)| && SemiOctets(ds)[Slot(i)] == Hex.Digit(ds[i], true)
    ensures |ds| % 2 == 1 ==> SemiOctets(ds)[|ds| - 1] == 'F'
  {
    forall i | 0 <= i < |ds|
      ensures Slot(i) < |SemiOctets(ds)| && SemiOctets(ds)[Slot(i)] == Hex.Digit(ds[i], true)
    {
      SemiOctetsAt(ds, i);
    }
    if |ds| % 2 == 1 {
      SemiOctetsFiller(ds);
    }
  }

  /** An odd count ends the semi-octets with F and the last nibble. */
  lemma {:induction false} SemiOctetsFiller(ds: seq<nat>)
    requires Nibbles(ds) && |ds| % 2 == 1
    ensures SemiOctets(ds)[|ds| - 1] == 'F'
    decreases |ds|
  {
    if |ds| > 2 {
      var front, back := SemiOctets(ds[..2]), SemiOctets(ds[2..]);
      assert SemiOctets(ds) == front + back;
      SemiOctetsFiller(ds[2..]);
    }
  }

  /** Reads n nibbles back from a semi-octet string of exactly the right
      length; the digit count has to be known from elsewhere. */
  function ParseSemiOctets(h: string, n: nat): (r: Option<seq<nat>>)
    ensures r.Some? ==> |r.value| == n && Nibbles(r.value)
    decreases n
  {
    if n == 0 then (if |h| == 0 then Some([]) else None)
    else if |h| < 2 then None
    else if n == 1 then
      if |h| == 2 && (h[0] == 'F' || h[0] == 'f') && Hex.DigitValue(h[1]).Some?
      then Some([Hex.DigitValue(h[1]).value]) else None
    else
      var a, b, rest := Hex.DigitValue(h[1]), Hex.DigitValue(h[0]), ParseSemiOctets(h[2..], n - 2);
      if a.None? || b.None? || rest.None? then None else Some([a.value, b.value] + rest.value)
  }

  /** Slot is its own inverse: Slot(Slot(k)) == k. */
  lemma SlotInvolution(k: nat)
    ensures Slot(Slot(k)) == k
  {
  }

  /** With an even count of decimal digits no filler appears. */
  lemma NoFillerWhenEven(ds: seq<nat>, k: nat)
    requires DecimalDigits(ds) && |ds| % 2 == 0
    requires k < |SemiOctets(ds)|
    ensures SemiOctets(ds)[k] != 'F'
  {
    EvenCeiling(|ds|);
    SlotInvolution(k);
    SemiOctetsAt(ds, Slot(k));
  }

  /** Rounding an even count up to even changes nothing. */
  lemma EvenCeiling(n: nat)
    requires n % 2 == 0
    ensures 2 * ((n + 1) / 2) == n
  {
  }

  /** An odd digit count puts F in the high nibble of the last octet; an even
      count of decimal digits puts no F anywhere. */
  lemma FillerOnlyWhenOdd(ds: seq<nat>)
    requires DecimalDigits(ds)
    ensures 'F' in SemiOctets(ds) <==> |ds| % 2 == 1
  {
    if |ds| % 2 == 1 {
      SemiOctetsFiller(ds);
    } else {
      forall k | 0 <= k < |SemiOctets(ds)|
        ensures SemiOctets(ds)[k] != 'F'
      {
        NoFillerWhenEven(ds, k);
      }
    }
  }

  /** A decoded address field: the type selector and the digits. */
  datatype Address = Address(international: bool, digits: seq<nat>)

  /** The destination number as the modem sees it. */
  predicate EncodableNumber(p: PhoneNumber)
  {
    p.Valid() && |p.digits| < 256
  }

  /** PhoneNumber.dest_hexrepr (3GPP TS 23.040 section 9.1.2.5): the digit
      count (not the octet count), the type of number, then the semi-octets. */
  function AddressField(p: PhoneNumber): (h: string)
    requires p.Valid()
    ensures EncodableNumber(p) ==> |h| == AddressLength(|p.digits|)
  {
    Hex.Pad2(|p.digits|, true) + Hex.Pad2(TypeOfNumber(p), true) + SemiOctets(p.digits)
  }

  /** The address field of an encodable number reads back as its type and
      digits with nothing left over. */
  lemma AddressFieldRoundTrip(p: PhoneNumber)
    requires EncodableNumber(p)
    ensures ParseAddress(AddressField(p)) == Some((Address(p.International(), p.digits), ""))
  {
    AddressRoundTrip(p.digits, TypeOfNumber(p), "");
    assert AddressField(p) + "" == AddressField(p);
  }

  /** Reads an address field off the front of a hex string, returning the
      rest. */
  function ParseAddress(h: string): (r: Option<(Address, string)>)
    ensures r.Some? ==> |r.value.1| < |h|
  {
    if |h| < 4 then None
    else
      var n, ton := Hex.ParseByte(h[..2]), Hex.ParseByte(h[2..4]);
      if n.None? || ton.None? || (ton.value != 0x91 && ton.value != 0x81) then None
      else
        var k := AddressLength(n.value);
        if |h| < k then None
        else
          var ds := ParseSemiOctets(h[4..k], n.value);
          if ds.None? then None else Some((Address(ton.value == 0x91, ds.value), h[k..]))
  }

  /** Hex characters of an address field holding n digits. */
  function AddressLength(n: nat): (k: nat)
    ensures k >= 4
  {
    4 + 2 * ((n + 1) / 2)
  }

  /** Cutting a concatenation of two two-character fields, a body and a
      remainder back into its pieces. */
  lemma SplitFields(a: string, b: string, c: string, rest: string)
    requires |a| == 2 && |b| == 2
    ensures var s := a + b + c + rest;
      && s[..2] == a && s[2..4] == b && s[4..4 + |c|] == c && s[4 + |c|..] == rest
  {
  }

  /** What ParseAddress needs to see to succeed. */
  lemma ParseAddressOf(s: string, n: nat, ton: nat, ds: seq<nat>, rest: string)
    requires |s| >= AddressLength(n)
    requires Hex.ParseByte(s[..2]) == Some(n) && Hex.ParseByte(s[2..4]) == Some(ton)
    requires ton == 0x91 || ton == 0x81
    requires ParseSemiOctets(s[4..AddressLength(n)], n) == Some(ds)
    requires s[AddressLength(n)..] == rest
    ensures ParseAddress(s) == Some((Address(ton == 0x91, ds), rest))
  {
  }

  /** Reading an address field written from nibbles, with anything after it. */
  lemma AddressRoundTrip(ds: seq<nat>, ton: nat, rest: string)
    requires Nibbles(ds) && |ds| < 256
    requires ton == 0x91 || ton == 0x81
    ensures ParseAddress(Hex.Pad2(|ds|, true) + Hex.Pad2(ton, true) + SemiOctets(ds) + rest)
      == Some((Address(ton == 0x91, ds), rest))
  {
    var len, t, semi := Hex.Pad2(|ds|, true), Hex.Pad2(ton, true), SemiOctets(ds);
    assert |len| == 2 && Hex.ParseByte(len) == Some(|ds|);
    assert |t| == 2 && Hex.ParseByte(t) == Some(ton);
    assert |semi| + 4 == AddressLength(|ds|);
    SemiOctetsRoundTrip(ds);
    SplitFields(len, t, semi, rest);
    ParseAddressOf(len + t + semi + rest, |ds|, ton, ds, rest);
  }

  /** GSM0338Body: one already split, already GSM 7-bit encoded segment. */
  datatype Body = Body(septets: seq<nat>)

  /** GSM0338Body.codingscheme: GSM 7-bit default alphabet, no class. */
  const CodingScheme: nat := 0x00

  /** GSM0338Body.hex: the packed septets, two upper-case hex digits per
      octet; the empty body gives the empty string. */
  function BodyHex(b: Body): (h: string)
    ensures Septets.ValidSeptets(b.septets) ==> |h| == 2 * ((7 * |b.septets| + 7) / 8)
  {
    var os := Septets.Pack(b.septets);
    assert Hex.Octets(os);
    Hex.OctetsHex(os)
  }

  /** The body hex reads back as the septets it was packed from. */
  lemma BodyRoundTrip(b: Body)
    requires Septets.ValidSeptets(b.septets)
    ensures ParseBody(BodyHex(b), |b.septets|) == Some(b.septets)
  {
    var os := Septets.Pack(b.septets);
    assert Hex.Octets(os);
    Hex.OctetsRoundTrip(os);
    Septets.PackRoundTrip(b.septets);
  }

  /** Reads n septets back from the user-data hex, which must hold exactly
      ceil(7n/8) octets. */
  function ParseBody(h: string, n: nat): (r: Option<seq<nat>>)
    ensures r.Some? ==> |r.value| == n && Septets.ValidSeptets(r.value)
  {
    var os := Hex.ParseOctets(h);
    if os.None? || |os.value| != (7 * n + 7) / 8 then None else Septets.Unpack(os.value, n)
  }

  /** SMSC_and_TPDU with the default empty SMSC. */
  datatype Submission = Submission(destination: PhoneNumber, body: Body)

  /** A submission whose one-octet length fields can hold their counts. */
  predicate Encodable(s: Submission)
  {
    && EncodableNumber(s.destination)
    && Septets.ValidSeptets(s.body.septets)
    && |s.body.septets| < 256
  }

  /** What a receiver reads back out of a TPDU. */
  datatype Decoded = Decoded(address: Address, septets: seq<nat>)

  /** Octets of the TPDU before the address digits and after them, before
      the user data: first octet, message reference, address length, type of
      number, protocol identifier, coding scheme, user-data length. */
  const FixedOctets: nat := 7

  /** The part of the TPDU after the address: protocol identifier 00, the
      coding scheme and the septet count in lower-case hex, the packed body. */
  function UserDataHex(b: Body): (h: string)
    ensures Septets.ValidSeptets(b.septets) && |b.septets| < 256 ==>
      |h| == 6 + 2 * ((7 * |b.septets| + 7) / 8)
  {
    var dcs, udl, body := Hex.Pad2(CodingScheme, false), Hex.Pad2(|b.septets|, false), BodyHex(b);
    var h := "00" + dcs + udl + body;
    assert |h| == 2 + |dcs| + |udl| + |body|;
    h
  }

  /** SMSC_and_TPDU.tpdu_hex: first octet 01 (SMS-SUBMIT), message reference
      00, the address field, then the user-data part. */
  function TpduHex(s: Submission): (h: string)
    requires s.destination.Valid()
    ensures Encodable(s) ==>
      |h| == 2 * (FixedOctets + (|s.destination.digits| + 1) / 2 + (7 * |s.body.septets| + 7) / 8)
  {
    "0100" + (AddressField(s.destination) + UserDataHex(s.body))
  }

  /** The TPDU of an encodable submission reads back as its destination and
      septets. */
  lemma TpduRoundTrip(s: Submission)
    requires Encodable(s)
    ensures ParseTpdu(TpduHex(s))
      == Some(Decoded(Address(s.destination.International(), s.destination.digits), s.body.septets))
  {
    var p := s.destination;
    var addr, userData := AddressField(p), UserDataHex(s.body);
    AddressRoundTrip(p.digits, TypeOfNumber(p), userData);
    UserDataRoundTrip(s.body);
    assert addr + userData == Hex.Pad2(|p.digits|, true) + Hex.Pad2(TypeOfNumber(p), true) + SemiOctets(p.digits) + userData;
    var h := TpduHex(s);
    assert h[..4] == "0100" && h[4..] == addr + userData;
    ParseTpduOf(h, Address(p.International(), p.digits), userData, s.body.septets);
  }

  /** What ParseTpdu needs to see to succeed. */
  lemma ParseTpduOf(h: string, addr: Address, rest: string, septets: seq<nat>)
    requires |h| >= 4 && h[..4] == "0100"
    requires ParseAddress(h[4..]) == Some((addr, rest))
    requires ParseUserData(rest) == Some(septets)
    ensures ParseTpdu(h) == Some(Decoded(addr, septets))
  {
  }

  /** Reads a TPDU: the fixed first two octets, the address, the user data. */
  function ParseTpdu(h: string): Option<Decoded>
  {
    if |h| < 4 || h[..4] != "0100" then None
    else
      var a := ParseAddress(h[4..]);
      if a.None? then None
      else
        var u := ParseUserData(a.value.1);
        if u.None? then None else Some(Decoded(a.value.0, u.value))
  }

  /** Reads protocol identifier 00, coding scheme 00, the septet count and
      the packed body. */
  function ParseUserData(h: string): Option<seq<nat>>
  {
    if |h| < 6 || h[..2] != "00" || Hex.ParseByte(h[2..4]) != Some(CodingScheme) then None
    else
      var n := Hex.ParseByte(h[4..6]);
      if n.None? then None else ParseBody(h[6..], n.value)
  }

  /** The user-data part reads back as the septets of the body. */
  lemma UserDataRoundTrip(b: Body)
    requires Septets.ValidSeptets(b.septets) && |b.septets| < 256
    ensures ParseUserData(UserDataHex(b)) == Some(b.septets)
  {
    var dcs, udl, body := Hex.Pad2(CodingScheme, false), Hex.Pad2(|b.septets|, false), BodyHex(b);
    BodyRoundTrip(b);
    SplitFields("00", dcs, udl, body);
    var h := UserDataHex(b);
    assert h == "00" + dcs + udl + body;
    assert h[4..6] == udl && h[6..] == body;
  }

  /** SMSC_and_TPDU.tpdu_octet_length: half the TPDU hex length, the count
      AT+CMGS expects (section 4.3 of 3GPP TS 27.005), which leaves out the
      SMSC octets. For an encodable submission the halving is exact. */
  function TpduOctetLength(s: Submission): (n: nat)
    requires s.destination.Valid()
    ensures Encodable(s) ==> 2 * n == |TpduHex(s)|
    ensures Encodable(s) ==>
      n == FixedOctets + (|s.destination.digits| + 1) / 2 + (7 * |s.body.septets| + 7) / 8
  {
    |TpduHex(s)| / 2
  }

  /** NullPhoneNumber.smsc_hexrepr: a zero-length SMSC address, so the modem
      uses its stored service centre. */
  const SmscHex: string := "00"

  /** SMSC_and_TPDU.hex: the SMSC sentinel followed by the TPDU; the TPDU
      octet count reported to the modem excludes the sentinel. */
  function SubmissionHex(s: Submission): (h: string)
    requires s.destination.Valid()
    ensures Encodable(s) ==> |h| == |SmscHex| + 2 * TpduOctetLength(s)
  {
    SmscHex + TpduHex(s)
  }

  /** The submission reads back as its destination and septets. */
  lemma SubmissionRoundTrip(s: Submission)
    requires Encodable(s)
    ensures ParseSubmission(SubmissionHex(s))
      == Some(Decoded(Address(s.destination.International(), s.destination.digits), s.body.septets))
  {
    TpduRoundTrip(s);
    var h := SubmissionHex(s);
    assert h[..2] == SmscHex && h[2..] == TpduHex(s);
  }

  /** The semi-octets are upper-case hex digits, as NibbleArray.hex writes
      them with "{:X}" and the literal filler F. */
  lemma {:induction false} SemiOctetsUpper(ds: seq<nat>)
    requires Nibbles(ds)
    ensures Hex.InCase(SemiOctets(ds), true)
    decreases |ds|
  {
    if |ds| > 2 {
      SemiOctetsUpper(ds[..2]);
      SemiOctetsUpper(ds[2..]);
      Hex.InCaseAppend(SemiOctets(ds[..2]), SemiOctets(ds[2..]), true);
    }
  }

  /** The address field is upper-case hex digits. */
  lemma AddressFieldUpper(p: PhoneNumber)
    requires p.Valid()
    ensures Hex.InCase(AddressField(p), true) && Hex.HexText(AddressField(p))
  {
    SemiOctetsUpper(p.digits);
    var a, b, c := Hex.Pad2(|p.digits|, true), Hex.Pad2(TypeOfNumber(p), true), SemiOctets(p.digits);
    assert AddressField(p) == a + b + c;
    Hex.InCaseAppend(a, b, true);
    Hex.InCaseAppend(a + b, c, true);
    Hex.InCaseHexText(AddressField(p), true);
  }

  /** The user-data part is hex digits: the protocol identifier, coding
      scheme and septet count in lower case ("{:02x}"), the body in upper
      case. */
  lemma UserDataCase(b: Body)
    ensures Hex.HexText(UserDataHex(b))
    ensures |b.septets| < 256 ==>
              (&& |UserDataHex(b)| >= 6
               && Hex.InCase(UserDataHex(b)[..6], false) && Hex.InCase(UserDataHex(b)[6..], true))
  {
    var u1, u2, u3, u4 := "00", Hex.Pad2(CodingScheme, false), Hex.Pad2(|b.septets|, false), BodyHex(b);
    var h := UserDataHex(b);
    assert h == u1 + u2 + u3 + u4;
    assert Hex.InCase(u1, false);
    Hex.InCaseAppend(u1, u2, false);
    Hex.InCaseAppend(u1 + u2, u3, false);
    Hex.InCaseHexText(u1 + u2 + u3, false);
    Hex.InCaseHexText(u4, true);
    Hex.HexTextAppend(u1 + u2 + u3, u4);
    if |b.septets| < 256 {
      assert h[..6] == u1 + u2 + u3 && h[6..] == u4;
    }
  }

  /** The TPDU is hex text. */
  lemma TpduHexText(s: Submission)
    requires s.destination.Valid()
    ensures Hex.HexText(TpduHex(s))
  {
    AddressFieldUpper(s.destination);
    UserDataCase(s.body);
    HexTextAfterHeader(AddressField(s.destination), UserDataHex(s.body));
  }

  /** The fixed first two octets followed by two pieces of hex text. */
  lemma HexTextAfterHeader(a: string, u: string)
    requires Hex.HexText(a) && Hex.HexText(u)
    ensures Hex.HexText("0100" + (a + u))
  {
    Hex.HexTextAppend(a, u);
    assert Hex.InCase("0100", true);
    Hex.InCaseHexText("0100", true);
    Hex.HexTextAppend("0100", a + u);
  }

  /** The whole submission is hex text, so its ASCII encoding cannot fail. */
  lemma SubmissionHexText(s: Submission)
    requires s.destination.Valid()
    ensures Hex.HexText(SubmissionHex(s))
  {
    TpduHexText(s);
    HexTextAfterSmsc(TpduHex(s));
  }

  /** The SMSC sentinel followed by hex text. */
  lemma HexTextAfterSmsc(t: string)
    requires Hex.HexText(t)
    ensures Hex.HexText(SmscHex + t)
  {
    assert Hex.InCase(SmscHex, true);
    Hex.InCaseHexText(SmscHex, true);
    Hex.HexTextAppend(SmscHex, t);
  }

  /** Reads the SMSC sentinel and then the TPDU. */
  function ParseSubmission(h: string): Option<Decoded>
  {
    if |h| < 2 || h[..2] != SmscHex then None else ParseTpdu(h[2..])
  }
}
