/** GSM 7-bit packing (3GPP TS 23.038 section 6.1.2.1) as the codec performs
    it: every septet becomes seven bits, least significant first, the bits form
    one stream, and the stream is cut into octets eight bits at a time with bit
    i of a group becoming bit i of its octet. */
module Septets {
  import opened Wrappers

  /** 2 to the power k. */
  function Pow2(k: nat): (r: nat)
    ensures r >= 1
  {
    if k == 0 then 1 else 2 * Pow2(k - 1)
  }

  /** A run of false bits, the zero padding of a short final octet. */
  function Zeros(n: nat): (z: seq<bool>)
    ensures |z| == n
    ensures forall i :: 0 <= i < n ==> !z[i]
  {
    if n == 0 then [] else [false] + Zeros(n - 1)
  }

  /** The low w bits of v, least significant first. */
  function LsbBits(v: nat, w: nat): (bits: seq<bool>)
    ensures |bits| == w
    decreases w
  {
    if w == 0 then [] else [v % 2 == 1] + LsbBits(v / 2, w - 1)
  }

  /** The number a least-significant-first bit string denotes; the same as
      int() of the reversed string of binary digits. */
  function LsbValue(bits: seq<bool>): (v: nat)
    ensures v < Pow2(|bits|)
  {
    if |bits| == 0 then 0 else (if bits[0] then 1 else 0) + 2 * LsbValue(bits[1..])
  }

  /** Number of binary digits of v (0 has none). */
  function BitLength(v: nat): nat
  {
    if v == 0 then 0 else 1 + BitLength(v / 2)
  }

  /** How many bits "{:07b}" renders for a septet: seven, or all of its
      binary digits when the value does not fit in seven. */
  function FieldWidth(v: nat): nat
  {
    if v < 128 then 7 else BitLength(v)
  }

  /** FieldWidth is the width of a zero-padded seven-digit rendering. */
  lemma FieldWidthIsPadded(v: nat)
    ensures FieldWidth(v) == if BitLength(v) < 7 then 7 else BitLength(v)
  {
    if v < 128 {
      assert Pow2(7) == 128;
      BitLengthBound(v, 7);
    } else {
      BitLengthAtLeast(v, 7);
    }
  }

  /** A septet as "{:07b}" renders it, read back to front. */
  function SeptetField(v: nat): (bits: seq<bool>)
    ensures |bits| == FieldWidth(v)
  {
    LsbBits(v, FieldWidth(v))
  }

  /** Septets whose every value fits in seven bits. */
  predicate ValidSeptets(s: seq<nat>)
  {
    forall i :: 0 <= i < |s| ==> s[i] < 128
  }

  /** SeptetArray.little_endian_bits: the concatenated septet fields. */
  function SeptetStream(s: seq<nat>): (bits: seq<bool>)
    ensures ValidSeptets(s) ==> |bits| == 7 * |s|
  {
    if |s| == 0 then [] else SeptetField(s[0]) + SeptetStream(s[1..])
  }

  /** BitArray.little_endian_octets: groups of eight bits, least significant
      first; a short final group gives an octet with zero high bits. */
  function OctetGroups(bits: seq<bool>): (os: seq<nat>)
    ensures |os| == (|bits| + 7) / 8
    ensures forall i :: 0 <= i < |os| ==> os[i] < 256
    decreases |bits|
  {
    if |bits| == 0 then []
    else if |bits| <= 8 then [LsbValue(bits)]
    else [LsbValue(bits[..8])] + OctetGroups(bits[8..])
  }

  /** GSM0338Body packing: septets to octets through one bit stream. Seven
      bit septets give ceil(7n/8) octets from which the septets come back. */
  function Pack(s: seq<nat>): (os: seq<nat>)
    ensures ValidSeptets(s) ==> |os| == (7 * |s| + 7) / 8
    ensures forall i :: 0 <= i < |os| ==> os[i] < 256
  {
    OctetGroups(SeptetStream(s))
  }

  /** Octets back to a bit stream, eight bits each, least significant first. */
  function OctetStream(os: seq<nat>): (bits: seq<bool>)
    ensures |bits| == 8 * |os|
  {
    if |os| == 0 then [] else LsbBits(os[0], 8) + OctetStream(os[1..])
  }

  /** Groups of seven bits back to septet values; a short tail is dropped. */
  function SeptetGroups(bits: seq<bool>): (s: seq<nat>)
    ensures |s| == |bits| / 7
    ensures ValidSeptets(s)
    decreases |bits|
  {
    if |bits| < 7 then [] else [LsbValue(bits[..7])] + SeptetGroups(bits[7..])
  }

  /** Recovers n septets from packed user data, as a receiver reading the
      user-data-length field would. */
  function Unpack(os: seq<nat>, n: nat): (r: Option<seq<nat>>)
    ensures r.Some? ==> |r.value| == n && ValidSeptets(r.value)
  {
    if 8 * |os| < 7 * n then None else Some(SeptetGroups(OctetStream(os)[..7 * n]))
  }

  /** A value below 2^k needs at most k bits. */
  lemma {:induction false} BitLengthBound(v: nat, k: nat)
    requires v < Pow2(k)
    ensures BitLength(v) <= k
    decreases k
  {
    if v != 0 {
      BitLengthBound(v / 2, k - 1);
    }
  }

  /** A value of at least 2^k needs more than k bits. */
  lemma {:induction false} BitLengthAtLeast(v: nat, k: nat)
    requires v >= Pow2(k)
    ensures BitLength(v) > k
    decreases k
  {
    if k > 0 {
      BitLengthAtLeast(v / 2, k - 1);
    }
  }

  /** Writing the low w bits and reading them back is the identity on values
      that fit. */
  lemma {:induction false} LsbValueOfBits(v: nat, w: nat)
    requires v < Pow2(w)
    ensures LsbValue(LsbBits(v, w)) == v
    decreases w
  {
    if w > 0 {
      LsbValueOfBits(v / 2, w - 1);
      assert LsbBits(v, w)[1..] == LsbBits(v / 2, w - 1);
    }
  }

  /** Reading a group and writing it back w bits wide restores the group
      followed by zero high bits. */
  lemma {:induction false} LsbBitsOfValue(g: seq<bool>, w: nat)
    requires |g| <= w
    ensures LsbBits(LsbValue(g), w) == g + Zeros(w - |g|)
    decreases w
  {
    if |g| == 0 {
      if w > 0 {
        LsbBitsOfValue(g, w - 1);
      }
    } else {
      var v := LsbValue(g);
      assert v % 2 == 1 <==> g[0];
      assert v / 2 == LsbValue(g[1..]);
      LsbBitsOfValue(g[1..], w - 1);
      assert g == [g[0]] + g[1..];
    }
  }

  /** The stream of valid septets starts with the first septet's seven bits. */
  lemma StreamHead(s: seq<nat>)
    requires ValidSeptets(s) && |s| > 0
    ensures ValidSeptets(s[1..])
    ensures SeptetStream(s) == LsbBits(s[0], 7) + SeptetStream(s[1..])
  {
    assert s[0] < 128;
  }

  /** Bit j of septet k sits at position 7k + j of the stream. */
  lemma {:induction false} SeptetBit(s: seq<nat>, k: nat, j: nat)
    requires ValidSeptets(s)
    requires k < |s| && j < 7
    ensures 7 * k + j < |SeptetStream(s)|
    ensures SeptetStream(s)[7 * k + j] == LsbBits(s[k], 7)[j]
    decreases k
  {
    if k == 0 {
      FirstSeptetBit(s, j);
    } else {
      assert ValidSeptets(s[1..]);
      SeptetBit(s[1..], k - 1, j);
      assert s[1..][k - 1] == s[k];
      LaterSeptetBit(s, k, j);
    }
  }

  /** The first septet's bits open the stream. */
  lemma FirstSeptetBit(s: seq<nat>, j: nat)
    requires ValidSeptets(s) && |s| > 0 && j < 7
    ensures j < |SeptetStream(s)|
    ensures SeptetStream(s)[j] == LsbBits(s[0], 7)[j]
  {
    StreamHead(s);
  }

  /** A later septet's bits sit seven places further on than in the stream
      of the septets after the first. */
  lemma LaterSeptetBit(s: seq<nat>, k: nat, j: nat)
    requires ValidSeptets(s) && 0 < k < |s| && j < 7
    requires 7 * (k - 1) + j < |SeptetStream(s[1..])|
    requires SeptetStream(s[1..])[7 * (k - 1) + j] == LsbBits(s[k], 7)[j]
    ensures 7 * k + j < |SeptetStream(s)|
    ensures SeptetStream(s)[7 * k + j] == LsbBits(s[k], 7)[j]
  {
    StreamHead(s);
    var i := 7 * (k - 1) + j;
    assert 7 * k + j == 7 + i;
  }

  /** Each septet contributes exactly seven bits, least significant first. */
  lemma SeptetStreamLayout(s: seq<nat>)
    requires ValidSeptets(s)
    ensures |SeptetStream(s)| == 7 * |s|
    ensures forall k, j {:trigger LsbBits(s[k], 7)[j]} :: 0 <= k < |s| && 0 <= j < 7 ==>
      SeptetStream(s)[7 * k + j] == LsbBits(s[k], 7)[j]
  {
    forall k, j | 0 <= k < |s| && 0 <= j < 7
      ensures SeptetStream(s)[7 * k + j] == LsbBits(s[k], 7)[j]
    {
      SeptetBit(s, k, j);
    }
  }

  /** The bits of the packed octets are the septet stream followed by zero
      padding up to the next octet boundary. */
  lemma {:induction false} OctetStreamOfGroups(bits: seq<bool>)
    ensures OctetStream(OctetGroups(bits)) == bits + Zeros(8 * ((|bits| + 7) / 8) - |bits|)
    decreases |bits|
  {
    if |bits| == 0 {
    } else if |bits| <= 8 {
      LsbBitsOfValue(bits, 8);
      assert OctetGroups(bits)[1..] == [];
    } else {
      var head, tail := bits[..8], bits[8..];
      LsbBitsOfValue(head, 8);
      OctetStreamOfGroups(tail);
      assert OctetGroups(bits)[1..] == OctetGroups(tail);
      assert 8 * ((|bits| + 7) / 8) - |bits| == 8 * ((|tail| + 7) / 8) - |tail|;
      assert bits == head + tail;
    }
  }

  /** Regrouping a septet stream by seven recovers the septets. */
  lemma {:induction false} SeptetGroupsOfStream(s: seq<nat>)
    requires ValidSeptets(s)
    ensures SeptetGroups(SeptetStream(s)) == s
  {
    if |s| > 0 {
      var bits := SeptetStream(s);
      var rest := SeptetStream(s[1..]);
      assert bits == LsbBits(s[0], 7) + rest;
      assert bits[..7] == LsbBits(s[0], 7);
      assert bits[7..] == rest;
      LsbValueOfBits(s[0], 7);
      SeptetGroupsOfStream(s[1..]);
      assert s == [s[0]] + s[1..];
    }
  }

  /** Unpacking the packed stream with the septet count restores the input. */
  lemma PackRoundTrip(s: seq<nat>)
    requires ValidSeptets(s)
    ensures Unpack(Pack(s), |s|) == Some(s)
  {
    var bits := SeptetStream(s);
    OctetStreamOfGroups(bits);
    var padded := OctetStream(OctetGroups(bits));
    assert padded[..7 * |s|] == bits;
    SeptetGroupsOfStream(s);
  }
}
