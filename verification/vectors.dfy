module Vectors {
  import opened Wrappers
  import opened Pdu
  import opened Septets

  /** The six low bits of 0x24, shared by "H" and "I" above their lowest
      bit, computed one bit at a time. */
  lemma Low6Of24()
    ensures LsbBits(0x24, 6) == [false, false, true, false, false, true]
  {
    assert LsbBits(1, 1) == [true];
    assert LsbBits(2, 2) == [false, true];
    assert LsbBits(4, 3) == [false, false, true];
    assert LsbBits(9, 4) == [true, false, false, true];
    assert LsbBits(0x12, 5) == [false, true, false, false, true];
  }

  /** "H" (0x48) as a septet field, least significant bit first. */
  lemma FieldH()
    ensures SeptetField(0x48) == [false, false, false, true, false, false, true]
  {
    Low6Of24();
    assert LsbBits(0x48, 7) == [false] + LsbBits(0x24, 6);
  }

  /** "I" (0x49) as a septet field, least significant bit first. */
  lemma FieldI()
    ensures SeptetField(0x49) == [true, false, false, true, false, false, true]
  {
    Low6Of24();
    assert LsbBits(0x49, 7) == [true] + LsbBits(0x24, 6);
  }

  /** The bit stream of "HI": fourteen bits, seven per septet. */
  lemma StreamSpecimen()
    ensures SeptetStream([0x48, 0x49]) == [false, false, false, true, false, false, true, true]
      + [false, false, true, false, false, true]
  {
    FieldH();
    FieldI();
    assert [0x48, 0x49][1..] == [0x49];
    assert SeptetStream([0x49]) == SeptetField(0x49);
  }

  /** The two octets that stream is cut into. */
  lemma OctetSpecimen()
    ensures LsbValue([false, false, false, true, false, false, true, true]) == 0xC8
    ensures LsbValue([false, false, true, false, false, true]) == 0x24
  {
    var lo := [false, false, false, true, false, false, true, true];
    var hi := [false, false, true, false, false, true];
    assert LsbValue(lo[6..]) == 3;
    assert LsbValue(lo[4..]) == 12;
    assert LsbValue(hi[3..]) == 4;
  }
  /** "HI" packs to C8 24, the user data of the classic example. */
  lemma PackSpecimen()
    ensures Pack([0x48, 0x49]) == [0xC8, 0x24]
  {
    var lo := [false, false, false, true, false, false, true, true];
    var hi := [false, false, true, false, false, true];
    StreamSpecimen();
    OctetSpecimen();
    assert (lo + hi)[..8] == lo && (lo + hi)[8..] == hi;
    assert OctetGroups(hi) == [0x24];
  }
}
