/** The table-driven CRC-32 against the bit-at-a-time CRC of RFC 1952, section 8. */
module Crc32 {

  // ----- the reference: one bit at a time ----------------------------------

  const POLYNOMIAL: bv32 := 0xEDB88320

  /** The register behind one message bit. */
  function BitStep(crc: bv32, bit: bv32): bv32 {
    if (crc ^ bit) & 1 != 0 then (crc >> 1) ^ POLYNOMIAL else crc >> 1
  }

  /** One byte, its bits from the least significant one on. */
  function ByteStep(crc: bv32, byte: bv32): bv32 {
    var c1 := BitStep(crc, byte & 1);
    var c2 := BitStep(c1, (byte >> 1) & 1);
    var c3 := BitStep(c2, (byte >> 2) & 1);
    var c4 := BitStep(c3, (byte >> 3) & 1);
    var c5 := BitStep(c4, (byte >> 4) & 1);
    var c6 := BitStep(c5, (byte >> 5) & 1);
    var c7 := BitStep(c6, (byte >> 6) & 1);
    BitStep(c7, (byte >> 7) & 1)
  }

  function Register(bytes: seq<bv32>): bv32 {
    if bytes == [] then 0xFFFFFFFF
    else ByteStep(Register(bytes[..|bytes| - 1]), bytes[|bytes| - 1])
  }

  /** The CRC of a message: the register, complemented. */
  function Crc(bytes: seq<bv32>): bv32 {
    Complement(Register(bytes))
  }

  // ----- the table ---------------------------------------------------------

  const ROW_0: seq<bv32> := [
    0x00000000, 0x77073096, 0xEE0E612C, 0x990951BA, 0x076DC419, 0x706AF48F, 0xE963A535, 0x9E6495A3,
    0x0EDB8832, 0x79DCB8A4, 0xE0D5E91E, 0x97D2D988, 0x09B64C2B, 0x7EB17CBD, 0xE7B82D07, 0x90BF1D91]
  const ROW_1: seq<bv32> := [
    0x1DB71064, 0x6AB020F2, 0xF3B97148, 0x84BE41DE, 0x1ADAD47D, 0x6DDDE4EB, 0xF4D4B551, 0x83D385C7,
    0x136C9856, 0x646BA8C0, 0xFD62F97A, 0x8A65C9EC, 0x14015C4F, 0x63066CD9, 0xFA0F3D63, 0x8D080DF5]
  const ROW_2: seq<bv32> := [
    0x3B6E20C8, 0x4C69105E, 0xD56041E4, 0xA2677172, 0x3C03E4D1, 0x4B04D447, 0xD20D85FD, 0xA50AB56B,
    0x35B5A8FA, 0x42B2986C, 0xDBBBC9D6, 0xACBCF940, 0x32D86CE3, 0x45DF5C75, 0xDCD60DCF, 0xABD13D59]
  const ROW_3: seq<bv32> := [
    0x26D930AC, 0x51DE003A, 0xC8D75180, 0xBFD06116, 0x21B4F4B5, 0x56B3C423, 0xCFBA9599, 0xB8BDA50F,
    0x2802B89E, 0x5F058808, 0xC60CD9B2, 0xB10BE924, 0x2F6F7C87, 0x58684C11, 0xC1611DAB, 0xB6662D3D]
  const ROW_4: seq<bv32> := [
    0x76DC4190, 0x01DB7106, 0x98D220BC, 0xEFD5102A, 0x71B18589, 0x06B6B51F, 0x9FBFE4A5, 0xE8B8D433,
    0x7807C9A2, 0x0F00F934, 0x9609A88E, 0xE10E9818, 0x7F6A0DBB, 0x086D3D2D, 0x91646C97, 0xE6635C01]
  const ROW_5: seq<bv32> := [
    0x6B6B51F4, 0x1C6C6162, 0x856530D8, 0xF262004E, 0x6C0695ED, 0x1B01A57B, 0x8208F4C1, 0xF50FC457,
    0x65B0D9C6, 0x12B7E950, 0x8BBEB8EA, 0xFCB9887C, 0x62DD1DDF, 0x15DA2D49, 0x8CD37CF3, 0xFBD44C65]
  const ROW_6: seq<bv32> := [
    0x4DB26158, 0x3AB551CE, 0xA3BC0074, 0xD4BB30E2, 0x4ADFA541, 0x3DD895D7, 0xA4D1C46D, 0xD3D6F4FB,
    0x4369E96A, 0x346ED9FC, 0xAD678846, 0xDA60B8D0, 0x44042D73, 0x33031DE5, 0xAA0A4C5F, 0xDD0D7CC9]
  const ROW_7: seq<bv32> := [
    0x5005713C, 0x270241AA, 0xBE0B1010, 0xC90C2086, 0x5768B525, 0x206F85B3, 0xB966D409, 0xCE61E49F,
    0x5EDEF90E, 0x29D9C998, 0xB0D09822, 0xC7D7A8B4, 0x59B33D17, 0x2EB40D81, 0xB7BD5C3B, 0xC0BA6CAD]
  const ROW_8: seq<bv32> := [
    0xEDB88320, 0x9ABFB3B6, 0x03B6E20C, 0x74B1D29A, 0xEAD54739, 0x9DD277AF, 0x04DB2615, 0x73DC1683,
    0xE3630B12, 0x94643B84, 0x0D6D6A3E, 0x7A6A5AA8, 0xE40ECF0B, 0x9309FF9D, 0x0A00AE27, 0x7D079EB1]
  const ROW_9: seq<bv32> := [
    0xF00F9344, 0x8708A3D2, 0x1E01F268, 0x6906C2FE, 0xF762575D, 0x806567CB, 0x196C3671, 0x6E6B06E7,
    0xFED41B76, 0x89D32BE0, 0x10DA7A5A, 0x67DD4ACC, 0xF9B9DF6F, 0x8EBEEFF9, 0x17B7BE43, 0x60B08ED5]
  const ROW_A: seq<bv32> := [
    0xD6D6A3E8, 0xA1D1937E, 0x38D8C2C4, 0x4FDFF252, 0xD1BB67F1, 0xA6BC5767, 0x3FB506DD, 0x48B2364B,
    0xD80D2BDA, 0xAF0A1B4C, 0x36034AF6, 0x41047A60, 0xDF60EFC3, 0xA867DF55, 0x316E8EEF, 0x4669BE79]
  const ROW_B: seq<bv32> := [
    0xCB61B38C, 0xBC66831A, 0x256FD2A0, 0x5268E236, 0xCC0C7795, 0xBB0B4703, 0x220216B9, 0x5505262F,
    0xC5BA3BBE, 0xB2BD0B28, 0x2BB45A92, 0x5CB36A04, 0xC2D7FFA7, 0xB5D0CF31, 0x2CD99E8B, 0x5BDEAE1D]
  const ROW_C: seq<bv32> := [
    0x9B64C2B0, 0xEC63F226, 0x756AA39C, 0x026D930A, 0x9C0906A9, 0xEB0E363F, 0x72076785, 0x05005713,
    0x95BF4A82, 0xE2B87A14, 0x7BB12BAE, 0x0CB61B38, 0x92D28E9B, 0xE5D5BE0D, 0x7CDCEFB7, 0x0BDBDF21]
  const ROW_D: seq<bv32> := [
    0x86D3D2D4, 0xF1D4E242, 0x68DDB3F8, 0x1FDA836E, 0x81BE16CD, 0xF6B9265B, 0x6FB077E1, 0x18B74777,
    0x88085AE6, 0xFF0F6A70, 0x66063BCA, 0x11010B5C, 0x8F659EFF, 0xF862AE69, 0x616BFFD3, 0x166CCF45]
  const ROW_E: seq<bv32> := [
    0xA00AE278, 0xD70DD2EE, 0x4E048354, 0x3903B3C2, 0xA7672661, 0xD06016F7, 0x4969474D, 0x3E6E77DB,
    0xAED16A4A, 0xD9D65ADC, 0x40DF0B66, 0x37D83BF0, 0xA9BCAE53, 0xDEBB9EC5, 0x47B2CF7F, 0x30B5FFE9]
  const ROW_F: seq<bv32> := [
    0xBDBDF21C, 0xCABAC28A, 0x53B39330, 0x24B4A3A6, 0xBAD03605, 0xCDD70693, 0x54DE5729, 0x23D967BF,
    0xB3667A2E, 0xC4614AB8, 0x5D681B02, 0x2A6F2B94, 0xB40BBE37, 0xC30C8EA1, 0x5A05DF1B, 0x2D02EF8D]

  /** crc32.table, in rows of sixteen entries. */
  const TABLE: seq<seq<bv32>> := [
    ROW_0, ROW_1, ROW_2, ROW_3, ROW_4, ROW_5, ROW_6, ROW_7,
    ROW_8, ROW_9, ROW_A, ROW_B, ROW_C, ROW_D, ROW_E, ROW_F]

  lemma TableShape(x: bv32)
    requires x < 256
    ensures (x >> 4) as int < |TABLE| && (x & 15) as int < |TABLE[(x >> 4) as int]|
  {
  }

  /** Entry x of the table. */
  function Entry(x: bv32): bv32
    requires x < 256
  {
    TableShape(x);
    TABLE[(x >> 4) as int][(x & 15) as int]
  }

  /** One step of the polynomial without message. */
  function Step(c: bv32): bv32 {
    if c & 1 != 0 then (c >> 1) ^ POLYNOMIAL else c >> 1
  }

  function Eight(c: bv32): bv32 {
    Step(Step(Step(Step(Step(Step(Step(Step(c))))))))
  }

  lemma Row0(x: bv32)
    requires x >> 4 == 0
    ensures x < 256 && Entry(x) == Eight(x)
  {
  }

  lemma Row1(x: bv32)
    requires x >> 4 == 1
    ensures x < 256 && Entry(x) == Eight(x)
  {
  }

  lemma Row2(x: bv32)
    requires x >> 4 == 2
    ensures x < 256 && Entry(x) == Eight(x)
  {
  }

  lemma Row3(x: bv32)
    requires x >> 4 == 3
    ensures x < 256 && Entry(x) == Eight(x)
  {
  }

  lemma Row4(x: bv32)
    requires x >> 4 == 4
    ensures x < 256 && Entry(x) == Eight(x)
  {
  }

  lemma Row5(x: bv32)
    requires x >> 4 == 5
    ensures x < 256 && Entry(x) == Eight(x)
  {
  }

  lemma Row6(x: bv32)
    requires x >> 4 == 6
    ensures x < 256 && Entry(x) == Eight(x)
  {
  }

  lemma Row7(x: bv32)
    requires x >> 4 == 7
    ensures x < 256 && Entry(x) == Eight(x)
  {
  }

  lemma Row8(x: bv32)
    requires x >> 4 == 8
    ensures x < 256 && Entry(x) == Eight(x)
  {
  }

  lemma Row9(x: bv32)
    requires x >> 4 == 9
    ensures x < 256 && Entry(x) == Eight(x)
  {
  }

  lemma RowA(x: bv32)
    requires x >> 4 == 10
    ensures x < 256 && Entry(x) == Eight(x)
  {
  }

  lemma RowB(x: bv32)
    requires x >> 4 == 11
    ensures x < 256 && Entry(x) == Eight(x)
  {
  }

  lemma RowC(x: bv32)
    requires x >> 4 == 12
    ensures x < 256 && Entry(x) == Eight(x)
  {
  }

  lemma RowD(x: bv32)
    requires x >> 4 == 13
    ensures x < 256 && Entry(x) == Eight(x)
  {
  }

  lemma RowE(x: bv32)
    requires x >> 4 == 14
    ensures x < 256 && Entry(x) == Eight(x)
  {
  }

  lemma RowF(x: bv32)
    requires x >> 4 == 15
    ensures x < 256 && Entry(x) == Eight(x)
  {
  }

  // ----- one table step is eight polynomial steps --------------------------

  /** Addition of polynomials over two elements. */
  function Plus(a: bv32, b: bv32): bv32 { a ^ b }

  function Half(a: bv32): bv32 { a >> 1 }

  function LowBit(a: bv32): bv32 { a & 1 }

  lemma LowBits(x: bv32, y: bv32)
    ensures (x ^ y) & 1 == (x & 1) ^ (y & 1)
    ensures x & 1 == 0 || x & 1 == 1
    ensures y & 1 == 0 || y & 1 == 1
  {
  }

  lemma StepIsLinear(x: bv32, y: bv32)
    ensures Step(Plus(x, y)) == Plus(Step(x), Step(y))
  {
    LowBits(x, y);
    if x & 1 == 0 {
      if y & 1 == 0 {
        EvenEven(x, y);
      } else {
        EvenOdd(x, y);
      }
    } else if y & 1 == 0 {
      EvenOdd(y, x);
      PlusCommutes(x, y);
      PlusCommutes(Step(x), Step(y));
    } else {
      OddOdd(x, y);
    }
  }

  lemma PlusIs(x: bv32, y: bv32)
    ensures Plus(x, y) == x ^ y
  {
  }

  lemma PlusCommutes(x: bv32, y: bv32)
    ensures Plus(x, y) == Plus(y, x)
  {
  }

  lemma EvenEven(x: bv32, y: bv32)
    requires x & 1 == 0 && y & 1 == 0
    ensures Step(Plus(x, y)) == Plus(Step(x), Step(y))
  {
    LowBits(x, y);
  }

  lemma EvenOdd(x: bv32, y: bv32)
    requires x & 1 == 0 && y & 1 == 1
    ensures Step(Plus(x, y)) == Plus(Step(x), Step(y))
  {
    LowBits(x, y);
  }

  lemma OddOdd(x: bv32, y: bv32)
    requires x & 1 == 1 && y & 1 == 1
    ensures Step(Plus(x, y)) == Plus(Step(x), Step(y))
  {
    LowBits(x, y);
  }

  lemma EightIsLinear(x: bv32, y: bv32)
    ensures Eight(Plus(x, y)) == Plus(Eight(x), Eight(y))
  {
    hide Step, Plus;
    var x1, y1 := Step(x), Step(y);
    var x2, y2 := Step(x1), Step(y1);
    var x3, y3 := Step(x2), Step(y2);
    var x4, y4 := Step(x3), Step(y3);
    var x5, y5 := Step(x4), Step(y4);
    var x6, y6 := Step(x5), Step(y5);
    var x7, y7 := Step(x6), Step(y6);
    StepIsLinear(x, y);
    StepIsLinear(x1, y1);
    StepIsLinear(x2, y2);
    StepIsLinear(x3, y3);
    StepIsLinear(x4, y4);
    StepIsLinear(x5, y5);
    StepIsLinear(x6, y6);
    StepIsLinear(x7, y7);
  }

  lemma EightShifts(x: bv32)
    requires x & 0xFF == 0
    ensures Eight(x) == x >> 8
  {
  }

  lemma RawBitAhead(c: bv32, t: bv32)
    ensures Step(c ^ t) == BitStep(c, t & 1) ^ (t >> 1)
  {
    LowBits(c, t);
    LowBits(c, t & 1);
    if c & 1 == 0 {
      if t & 1 == 0 {
      } else {
      }
    } else if t & 1 == 0 {
    } else {
    }
  }

  /** Taking in the next message bit, with the rest of the message still ahead. */
  lemma BitAhead(c: bv32, t: bv32)
    ensures Step(Plus(c, t)) == Plus(BitStep(c, LowBit(t)), Half(t))
  {
    hide Step, BitStep, Plus;
    calc {
      Step(Plus(c, t));
      { assert Plus(c, t) == c ^ t by { PlusIs(c, t); } }
      Step(c ^ t);
      { RawBitAhead(c, t); }
      BitStep(c, t & 1) ^ (t >> 1);
      { PlusIs(BitStep(c, t & 1), t >> 1); }
      Plus(BitStep(c, t & 1), t >> 1);
    }
  }

  function TwoBitSteps(c: bv32, t: bv32): bv32 {
    BitStep(BitStep(c, LowBit(t)), LowBit(Half(t)))
  }

  function FourBitSteps(c: bv32, t: bv32): bv32 {
    TwoBitSteps(TwoBitSteps(c, t), Half(Half(t)))
  }

  lemma TwoBitsAhead(c: bv32, t: bv32)
    ensures Step(Step(Plus(c, t))) == Plus(TwoBitSteps(c, t), Half(Half(t)))
  {
    hide Step, BitStep, Plus, Half, LowBit;
    BitAhead(c, t);
    BitAhead(BitStep(c, LowBit(t)), Half(t));
  }

  lemma FourBitsAhead(c: bv32, t: bv32)
    ensures Step(Step(Step(Step(Plus(c, t))))) == Plus(FourBitSteps(c, t), Half(Half(Half(Half(t)))))
  {
    hide Step, TwoBitSteps, Plus, Half, LowBit;
    TwoBitsAhead(c, t);
    TwoBitsAhead(TwoBitSteps(c, t), Half(Half(t)));
  }

  lemma ByteHalves(t: bv32)
    requires t < 256
    ensures Half(Half(Half(Half(Half(Half(Half(Half(t)))))))) == 0
    ensures LowBit(Half(t)) == (t >> 1) & 1 && LowBit(Half(Half(t))) == (t >> 2) & 1
    ensures LowBit(Half(Half(Half(t)))) == (t >> 3) & 1 && LowBit(Half(Half(Half(Half(t))))) == (t >> 4) & 1
    ensures LowBit(Half(Half(Half(Half(Half(t)))))) == (t >> 5) & 1
    ensures LowBit(Half(Half(Half(Half(Half(Half(t))))))) == (t >> 6) & 1
    ensures LowBit(Half(Half(Half(Half(Half(Half(Half(t)))))))) == (t >> 7) & 1
  {
  }

  lemma ByteStepInFours(crc: bv32, byte: bv32)
    requires byte < 256
    ensures ByteStep(crc, byte) == FourBitSteps(FourBitSteps(crc, byte), Half(Half(Half(Half(byte)))))
  {
    ByteHalves(byte);
    hide BitStep, Half;
  }

  lemma PlusZero(x: bv32)
    ensures Plus(x, 0) == x
  {
  }

  /** Eight message bits, one at a time, are eight steps on the register with the byte added. */
  lemma ByteStepIsEight(crc: bv32, byte: bv32)
    requires byte < 256
    ensures ByteStep(crc, byte) == Eight(Plus(crc, byte))
  {
    hide Step, FourBitSteps, Plus, Half, ByteStep;
    FourBitsAhead(crc, byte);
    FourBitsAhead(FourBitSteps(crc, byte), Half(Half(Half(Half(byte)))));
    ByteHalves(byte);
    PlusZero(FourBitSteps(FourBitSteps(crc, byte), Half(Half(Half(Half(byte))))));
    ByteStepInFours(crc, byte);
  }

  /** Each of the 256 literal entries is the eight-step image of its index. */
  lemma EntryIsEight(x: bv32)
    requires x < 256
    ensures Entry(x) == Eight(x)
  {
    hide Entry, Eight;
    var r := x >> 4;
    if r < 8 {
      if r == 0 { Row0(x); } else if r == 1 { Row1(x); } else if r == 2 { Row2(x); } else if r == 3 { Row3(x); }
      else if r == 4 { Row4(x); } else if r == 5 { Row5(x); } else if r == 6 { Row6(x); } else { Row7(x); }
    } else {
      if r == 8 { Row8(x); } else if r == 9 { Row9(x); } else if r == 10 { RowA(x); } else if r == 11 { RowB(x); }
      else if r == 12 { RowC(x); } else if r == 13 { RowD(x); } else if r == 14 { RowE(x); } else { RowF(x); }
    }
  }

  function LowByte(unit: bv16): (r: bv32)
    ensures r < 256
  {
    (unit as bv32) & 0xFF
  }

  /** One turn of the loop: shift the register and add the table entry its low byte selects. */
  function TableStep(crc: bv32, unit: bv16): bv32 {
    (crc >> 8) ^ Entry((crc ^ (unit as bv32)) & 0xFF)
  }

  lemma SplitLowByte(crc: bv32, unit: bv16)
    ensures var low, high := (crc ^ (unit as bv32)) & 0xFF, crc & 0xFFFFFF00;
      && low < 256 && high & 0xFF == 0 && high >> 8 == crc >> 8
      && Plus(high, low) == Plus(crc, LowByte(unit))
      && TableStep(crc, unit) == Plus(high >> 8, Entry(low))
  {
    hide Entry;
  }

  /** One table step takes in one byte, the low byte of the character. */
  lemma TableStepIsByteStep(crc: bv32, unit: bv16)
    ensures TableStep(crc, unit) == ByteStep(crc, LowByte(unit))
  {
    hide Entry, Eight, ByteStep, Plus, TableStep, LowByte;
    SplitLowByte(crc, unit);
    var low, high := (crc ^ (unit as bv32)) & 0xFF, crc & 0xFFFFFF00;
    EntryIsEight(low);
    EightShifts(high);
    EightIsLinear(high, low);
    ByteStepIsEight(crc, LowByte(unit));
  }

  // ----- the function ------------------------------------------------------

  /** The bytes a string of UTF-16 code units stands for: the low byte of each. */
  function LowBytes(str: seq<bv16>): (r: seq<bv32>)
    ensures |r| == |str| && forall i :: 0 <= i < |r| ==> r[i] == LowByte(str[i])
  {
    if str == [] then [] else LowBytes(str[..|str| - 1]) + [LowByte(str[|str| - 1])]
  }

  lemma RegisterStep(bytes: seq<bv32>, i: nat)
    requires i < |bytes|
    ensures Register(bytes[..i + 1]) == ByteStep(Register(bytes[..i]), bytes[i])
  {
    hide ByteStep;
    assert bytes[..i + 1][..i] == bytes[..i];
  }

  /** The loop over the characters. */
  method TableRegister(str: seq<bv16>) returns (crc: bv32)
    ensures crc == Register(LowBytes(str))
  {
    hide Entry, ByteStep, LowBytes, TableStep, LowByte;
    crc := 0xFFFFFFFF;
    for i := 0 to |str|
      invariant crc == Register(LowBytes(str)[..i])
    {
      TableStepIsByteStep(crc, str[i]);
      RegisterStep(LowBytes(str), i);
      crc := TableStep(crc, str[i]);
    }
    assert LowBytes(str)[..|str|] == LowBytes(str);
  }

  function Complement(crc: bv32): bv32 { crc ^ 0xFFFFFFFF }

  function AsNumber(crc: bv32): int { crc as int }

  /** The table-driven CRC is the bit-at-a-time CRC, as an unsigned number or in two's complement. */
  method CrcOf(str: seq<bv16>, signed: bool) returns (r: int)
    ensures var crc := AsNumber(Crc(LowBytes(str)));
      r == if signed && crc >= 0x8000_0000 then crc - 0x1_0000_0000 else crc
  {
    hide Register, LowBytes, Complement, AsNumber;
    var crc := TableRegister(str);
    var unsigned := AsNumber(Complement(crc));
    if signed && unsigned >= 0x8000_0000 {
      r := unsigned - 0x1_0000_0000;
    } else {
      r := unsigned;
    }
  }
}
