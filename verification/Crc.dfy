/** The frame check sequence: src/hamstuff/ax25_crc.c against the bit-serial register it speeds up.

    RFC 1662 (Appendix C) defines the FCS as a 16-bit reflected shift register with the polynomial
    0x8408, fed with the bits of the frame in line order, and says what the register holds after an
    error-free frame: 0xf0b8.  The C code replaces eight shifts by one look-up in a table of 256. */
module Crc {
  import opened Bits

  /** Element number `i % 8` of one source line of the table. */
  function Pick(i: bv8, a: bv16, b: bv16, c: bv16, d: bv16, e: bv16, f: bv16, g: bv16, h: bv16): bv16 {
    match i & 7
    case 0 => a
    case 1 => b
    case 2 => c
    case 3 => d
    case 4 => e
    case 5 => f
    case 6 => g
    case _ => h
  }

  /** HS_AX25_CRC_TABLE, eight entries to a line as in the source. */
  function Table(i: bv8): bv16 {
    match i >> 3
    case 0x00 => Pick(i, 0x0000, 0x1189, 0x2312, 0x329b, 0x4624, 0x57ad, 0x6536, 0x74bf)
    case 0x01 => Pick(i, 0x8c48, 0x9dc1, 0xaf5a, 0xbed3, 0xca6c, 0xdbe5, 0xe97e, 0xf8f7)
    case 0x02 => Pick(i, 0x1081, 0x0108, 0x3393, 0x221a, 0x56a5, 0x472c, 0x75b7, 0x643e)
    case 0x03 => Pick(i, 0x9cc9, 0x8d40, 0xbfdb, 0xae52, 0xdaed, 0xcb64, 0xf9ff, 0xe876)
    case 0x04 => Pick(i, 0x2102, 0x308b, 0x0210, 0x1399, 0x6726, 0x76af, 0x4434, 0x55bd)
    case 0x05 => Pick(i, 0xad4a, 0xbcc3, 0x8e58, 0x9fd1, 0xeb6e, 0xfae7, 0xc87c, 0xd9f5)
    case 0x06 => Pick(i, 0x3183, 0x200a, 0x1291, 0x0318, 0x77a7, 0x662e, 0x54b5, 0x453c)
    case 0x07 => Pick(i, 0xbdcb, 0xac42, 0x9ed9, 0x8f50, 0xfbef, 0xea66, 0xd8fd, 0xc974)
    case 0x08 => Pick(i, 0x4204, 0x538d, 0x6116, 0x709f, 0x0420, 0x15a9, 0x2732, 0x36bb)
    case 0x09 => Pick(i, 0xce4c, 0xdfc5, 0xed5e, 0xfcd7, 0x8868, 0x99e1, 0xab7a, 0xbaf3)
    case 0x0a => Pick(i, 0x5285, 0x430c, 0x7197, 0x601e, 0x14a1, 0x0528, 0x37b3, 0x263a)
    case 0x0b => Pick(i, 0xdecd, 0xcf44, 0xfddf, 0xec56, 0x98e9, 0x8960, 0xbbfb, 0xaa72)
    case 0x0c => Pick(i, 0x6306, 0x728f, 0x4014, 0x519d, 0x2522, 0x34ab, 0x0630, 0x17b9)
    case 0x0d => Pick(i, 0xef4e, 0xfec7, 0xcc5c, 0xddd5, 0xa96a, 0xb8e3, 0x8a78, 0x9bf1)
    case 0x0e => Pick(i, 0x7387, 0x620e, 0x5095, 0x411c, 0x35a3, 0x242a, 0x16b1, 0x0738)
    case 0x0f => Pick(i, 0xffcf, 0xee46, 0xdcdd, 0xcd54, 0xb9eb, 0xa862, 0x9af9, 0x8b70)
    case 0x10 => Pick(i, 0x8408, 0x9581, 0xa71a, 0xb693, 0xc22c, 0xd3a5, 0xe13e, 0xf0b7)
    case 0x11 => Pick(i, 0x0840, 0x19c9, 0x2b52, 0x3adb, 0x4e64, 0x5fed, 0x6d76, 0x7cff)
    case 0x12 => Pick(i, 0x9489, 0x8500, 0xb79b, 0xa612, 0xd2ad, 0xc324, 0xf1bf, 0xe036)
    case 0x13 => Pick(i, 0x18c1, 0x0948, 0x3bd3, 0x2a5a, 0x5ee5, 0x4f6c, 0x7df7, 0x6c7e)
    case 0x14 => Pick(i, 0xa50a, 0xb483, 0x8618, 0x9791, 0xe32e, 0xf2a7, 0xc03c, 0xd1b5)
    case 0x15 => Pick(i, 0x2942, 0x38cb, 0x0a50, 0x1bd9, 0x6f66, 0x7eef, 0x4c74, 0x5dfd)
    case 0x16 => Pick(i, 0xb58b, 0xa402, 0x9699, 0x8710, 0xf3af, 0xe226, 0xd0bd, 0xc134)
    case 0x17 => Pick(i, 0x39c3, 0x284a, 0x1ad1, 0x0b58, 0x7fe7, 0x6e6e, 0x5cf5, 0x4d7c)
    case 0x18 => Pick(i, 0xc60c, 0xd785, 0xe51e, 0xf497, 0x8028, 0x91a1, 0xa33a, 0xb2b3)
    case 0x19 => Pick(i, 0x4a44, 0x5bcd, 0x6956, 0x78df, 0x0c60, 0x1de9, 0x2f72, 0x3efb)
    case 0x1a => Pick(i, 0xd68d, 0xc704, 0xf59f, 0xe416, 0x90a9, 0x8120, 0xb3bb, 0xa232)
    case 0x1b => Pick(i, 0x5ac5, 0x4b4c, 0x79d7, 0x685e, 0x1ce1, 0x0d68, 0x3ff3, 0x2e7a)
    case 0x1c => Pick(i, 0xe70e, 0xf687, 0xc41c, 0xd595, 0xa12a, 0xb0a3, 0x8238, 0x93b1)
    case 0x1d => Pick(i, 0x6b46, 0x7acf, 0x4854, 0x59dd, 0x2d62, 0x3ceb, 0x0e70, 0x1ff9)
    case 0x1e => Pick(i, 0xf78f, 0xe606, 0xd49d, 0xc514, 0xb1ab, 0xa022, 0x92b9, 0x8330)
    case _ => Pick(i, 0x7bc7, 0x6a4e, 0x58d5, 0x495c, 0x3de3, 0x2c6a, 0x1ef1, 0x0f78)
  }

  const INIT: bv16 := 0xffff
  const RESIDUE: bv16 := 0xf0b8

  function Mix(b: byte, crc: bv16): bv16 {
    crc ^ (b as bv16)
  }

  function Update(b: byte, crc: bv16): bv16 {
    (crc >> 8) ^ Table(Lo(Mix(b, crc)))
  }

  function Finalize(crc: bv16): bv16 {
    crc ^ 0xffff
  }

  /** The register after a run of updates from `crc`. */
  function Run(bs: seq<byte>, crc: bv16): bv16 {
    if bs == [] then crc else Update(Last(bs), Run(Front(bs), crc))
  }

  function Fcs(bs: seq<byte>): bv16 {
    Finalize(Run(bs, INIT))
  }

  function Lo(w: bv16): byte {
    (w & 0xff) as byte
  }

  function Hi(w: bv16): byte {
    (w >> 8) as byte
  }

  function Word(lo: byte, hi: byte): bv16 {
    (lo as bv16) | ((hi as bv16) << 8)
  }

  /** The receiver's test: recompute the FCS of all but the last two bytes and compare with those two. */
  predicate Accepted(frame: seq<byte>)
    requires |frame| >= 2
  {
    var n := |frame| - 2;
    Fcs(frame[..n]) == Word(frame[n], frame[n + 1])
  }

  // ----- the reference: a shift register -----

  function Feedback(on: bool): bv16 {
    if on then 0x8408 else 0
  }

  /** One bit of the frame goes into the register. */
  function Step(c: bv16, b: bit): bv16 {
    (c >> 1) ^ Feedback((c & 1 == 1) != b)
  }

  function BitSerial(bits: seq<bit>, crc: bv16): bv16 {
    if bits == [] then crc else Step(BitSerial(Front(bits), crc), Last(bits))
  }

  // ----- shifts with no input -----

  function Shift(c: bv16): bv16 {
    (c >> 1) ^ Feedback(c & 1 == 1)
  }

  function ShiftN(c: bv16, n: nat): bv16 {
    if n == 0 then c else Shift(ShiftN(c, n - 1))
  }

  lemma ShiftEight(c: bv16)
    ensures ShiftN(c, 8) == Shift(Shift(Shift(Shift(Shift(Shift(Shift(Shift(c))))))))
  {
    assert ShiftN(c, 1) == Shift(c);
    assert ShiftN(c, 2) == Shift(ShiftN(c, 1));
    assert ShiftN(c, 3) == Shift(ShiftN(c, 2));
    assert ShiftN(c, 4) == Shift(ShiftN(c, 3));
    assert ShiftN(c, 5) == Shift(ShiftN(c, 4));
    assert ShiftN(c, 6) == Shift(ShiftN(c, 5));
    assert ShiftN(c, 7) == Shift(ShiftN(c, 6));
  }

  lemma {:induction false} ShiftNPlus(c: bv16, m: nat, n: nat)
    ensures ShiftN(c, m + n) == ShiftN(ShiftN(c, m), n)
  {
    if n == 0 {
    } else {
      ShiftNPlus(c, m, n - 1);
    }
  }

  function Unshift(c: bv16): bv16 {
    if c & 0x8000 == 0 then c << 1 else ((c ^ 0x8408) << 1) | 1
  }

  lemma UnshiftShift(c: bv16)
    ensures Unshift(Shift(c)) == c
  {
  }

  lemma {:induction false} ShiftNInjective(c: bv16, d: bv16, n: nat)
    requires ShiftN(c, n) == ShiftN(d, n)
    ensures c == d
  {
    if n == 0 {
    } else {
      UnshiftShift(ShiftN(c, n - 1));
      UnshiftShift(ShiftN(d, n - 1));
      ShiftNInjective(c, d, n - 1);
    }
  }

  function Plus(a: bv16, b: bv16): bv16 {
    a ^ b
  }

  function Up(a: bv16): bv16 {
    a << 1
  }

  /** `h` placed `j` bits above the bottom of the register. */
  function Raised(h: byte, j: nat): bv16 {
    if j == 0 then h as bv16 else Up(Raised(h, j - 1))
  }

  lemma RaisedIsShift(h: byte)
    ensures Raised(h, 0) == h as bv16
    ensures Raised(h, 1) == (h as bv16) << 1 && Raised(h, 2) == (h as bv16) << 2
    ensures Raised(h, 3) == (h as bv16) << 3 && Raised(h, 4) == (h as bv16) << 4
    ensures Raised(h, 5) == (h as bv16) << 5 && Raised(h, 6) == (h as bv16) << 6
    ensures Raised(h, 7) == (h as bv16) << 7 && Raised(h, 8) == (h as bv16) << 8
  {
  }

  lemma RaisedFits(h: byte, j: nat)
    requires j < 8
    ensures Raised(h, j) & 0x8000 == 0
  {
    RaisedIsShift(h);
  }

  lemma ShiftOfSum(y: bv16, r: bv16, x: bv16)
    requires r & 0x8000 == 0 && x == y ^ (r << 1)
    ensures Shift(x) == Shift(y) ^ r
  {
  }

  lemma PlusUp(y: bv16, r: bv16)
    ensures Plus(y, Up(r)) == y ^ (r << 1)
  {
  }

  lemma ShiftLowers(y: bv16, r: bv16)
    requires r & 0x8000 == 0
    ensures Shift(Plus(y, Up(r))) == Plus(Shift(y), r)
  {
    PlusUp(y, r);
    ShiftOfSum(y, r, Plus(y, Up(r)));
  }

  /** Bits that have not reached the bottom of the register only move down. */
  lemma {:induction false} ShiftNLowers(y: bv16, h: byte, n: nat)
    requires n <= 8
    ensures ShiftN(Plus(y, Raised(h, 8)), n) == Plus(ShiftN(y, n), Raised(h, 8 - n))
  {
    if n == 0 {
    } else {
      ShiftNLowers(y, h, n - 1);
      RaisedFits(h, 8 - n);
      ShiftLowers(ShiftN(y, n - 1), Raised(h, 8 - n));
    }
  }

  lemma WordSplits(lo: byte, hi: byte)
    ensures Word(lo, hi) == Plus(Word(lo, 0), Raised(hi, 8))
    ensures Word(hi, 0) == Raised(hi, 0)
    ensures Lo(Word(lo, hi)) == lo && Hi(Word(lo, hi)) == hi
  {
    RaisedIsShift(hi);
  }

  lemma WordOfHalves(x: bv16)
    ensures x == Word(Lo(x), Hi(x))
    ensures x >> 8 == Word(Hi(x), 0)
  {
  }

  // ----- the table -----

  lemma FirstQuarter(i: bv8)
    requires i < 0x40
    ensures Table(i) == ShiftN(Word(i, 0), 8)
  {
    ShiftEight(Word(i, 0));
  }

  lemma SecondQuarter(i: bv8)
    requires 0x40 <= i < 0x80
    ensures Table(i) == ShiftN(Word(i, 0), 8)
  {
    ShiftEight(Word(i, 0));
  }

  lemma ThirdQuarter(i: bv8)
    requires 0x80 <= i < 0xc0
    ensures Table(i) == ShiftN(Word(i, 0), 8)
  {
    ShiftEight(Word(i, 0));
  }

  lemma LastQuarter(i: bv8)
    requires i >= 0xc0
    ensures Table(i) == ShiftN(Word(i, 0), 8)
  {
    ShiftEight(Word(i, 0));
  }

  /** Every entry of the table is eight shifts of its index. */
  lemma TableIsEightShifts(i: bv8)
    ensures Table(i) == ShiftN(Word(i, 0), 8)
  {
    if i < 0x40 {
      FirstQuarter(i);
    } else if i < 0x80 {
      SecondQuarter(i);
    } else if i < 0xc0 {
      ThirdQuarter(i);
    } else {
      LastQuarter(i);
    }
  }

  /** The high byte only moves down while the low byte is consumed. */
  lemma HighByteMovesDown(x: bv16)
    ensures ShiftN(x, 8) == Plus(x >> 8, ShiftN(Word(Lo(x), 0), 8))
  {
    WordOfHalves(x);
    WordSplits(Lo(x), Hi(x));
    ShiftNLowers(Word(Lo(x), 0), Hi(x), 8);
  }

  lemma MixKeepsHighByte(b: byte, crc: bv16)
    ensures Mix(b, crc) >> 8 == crc >> 8
  {
  }

  lemma UpdateIsEightShifts(b: byte, crc: bv16)
    ensures Update(b, crc) == ShiftN(Mix(b, crc), 8)
  {
    TableIsEightShifts(Lo(Mix(b, crc)));
    HighByteMovesDown(Mix(b, crc));
    MixKeepsHighByte(b, crc);
  }

  lemma StepPeelsOneBit(s: bv16, b: byte)
    ensures Step(Mix(b, s), Odd(b)) == Mix(Half(b), Shift(s))
  {
  }

  lemma MixTwice(b: byte, c: bv16)
    ensures Mix(b, Mix(b, c)) == c
  {
  }

  /** After `k` bits of `b` the register is `k` shifts of the mixed register, with the rest of `b` on top. */
  lemma {:induction false} FeedByte(b: byte, c: bv16, k: nat)
    requires k <= 8
    ensures BitSerial(ByteBits(b)[..k], c) == Mix(Drop(b, k), ShiftN(Mix(b, c), k))
  {
    if k == 0 {
      MixTwice(b, c);
    } else {
      FeedByte(b, c, k - 1);
      assert Front(ByteBits(b)[..k]) == ByteBits(b)[..k - 1];
      StepPeelsOneBit(ShiftN(Mix(b, c), k - 1), Drop(b, k - 1));
    }
  }

  /** One table look-up is eight steps of the register. */
  lemma UpdateIsBitSerial(b: byte, crc: bv16)
    ensures Update(b, crc) == BitSerial(ByteBits(b), crc)
  {
    UpdateIsEightShifts(b, crc);
    FeedByte(b, crc, 8);
    DropIsShift(b);
    assert ByteBits(b)[..8] == ByteBits(b);
  }

  lemma {:induction false} BitSerialConcat(a: seq<bit>, b: seq<bit>, c: bv16)
    ensures BitSerial(a + b, c) == BitSerial(b, BitSerial(a, c))
  {
    if b == [] {
      assert a + b == a;
    } else {
      BitSerialConcat(a, Front(b), c);
      assert Front(a + b) == a + Front(b);
    }
  }

  /** Over every byte string the table-driven code computes what the shift register computes. */
  lemma {:induction false} RunIsBitSerial(bs: seq<byte>, crc: bv16)
    ensures Run(bs, crc) == BitSerial(BytesBits(bs), crc)
  {
    if bs == [] {
    } else {
      RunIsBitSerial(Front(bs), crc);
      UpdateIsBitSerial(Last(bs), Run(Front(bs), crc));
      BitSerialConcat(BytesBits(Front(bs)), ByteBits(Last(bs)), crc);
    }
  }

  // ----- the residue -----

  lemma TwoBytesMix(c: bv16, lo: byte, hi: byte)
    ensures Plus(Mix(lo, c), Raised(hi, 8)) == Plus(c, Word(lo, hi))
  {
    RaisedIsShift(hi);
  }

  lemma MixIsPlus(h: byte, c: bv16)
    ensures Mix(h, c) == Plus(c, Raised(h, 0))
  {
  }

  /** Two updates are sixteen shifts of the register with the little-endian pair added to it. */
  lemma TwoUpdates(c: bv16, lo: byte, hi: byte)
    ensures Update(hi, Update(lo, c)) == ShiftN(Plus(c, Word(lo, hi)), 16)
  {
    UpdateIsEightShifts(lo, c);
    UpdateIsEightShifts(hi, Update(lo, c));
    MixIsPlus(hi, Update(lo, c));
    ShiftNLowers(Mix(lo, c), hi, 8);
    TwoBytesMix(c, lo, hi);
    ShiftNPlus(Plus(c, Word(lo, hi)), 8, 8);
  }

  lemma PlusCancels(c: bv16, a: bv16, b: bv16)
    requires Plus(c, a) == Plus(c, b)
    ensures a == b
  {
  }

  lemma ComplementSum(c: bv16)
    ensures Plus(c, Finalize(c)) == 0xffff
  {
  }

  lemma ResidueValue()
    ensures ShiftN(0xffff, 16) == RESIDUE
  {
    assert ShiftN(0xffff, 1) == 0xfbf7;
    assert ShiftN(0xffff, 2) == 0xf9f3;
    assert ShiftN(0xffff, 3) == 0xf8f1;
    assert ShiftN(0xffff, 4) == 0xf870;
    assert ShiftN(0xffff, 5) == 0x7c38;
    assert ShiftN(0xffff, 6) == 0x3e1c;
    assert ShiftN(0xffff, 7) == 0x1f0e;
    assert ShiftN(0xffff, 8) == 0x0f87;
    assert ShiftN(0xffff, 9) == 0x83cb;
    assert ShiftN(0xffff, 10) == 0xc5ed;
    assert ShiftN(0xffff, 11) == 0xe6fe;
    assert ShiftN(0xffff, 12) == 0x737f;
    assert ShiftN(0xffff, 13) == 0xbdb7;
    assert ShiftN(0xffff, 14) == 0xdad3;
    assert ShiftN(0xffff, 15) == 0xe961;
    assert ShiftN(0xffff, 16) == 0xf0b8;
  }

  /** The receiver's test is the residue test of RFC 1662, for every frame. */
  lemma AcceptedIffResidue(frame: seq<byte>)
    requires |frame| >= 2
    ensures Accepted(frame) <==> Run(frame, 0xffff) == 0xf0b8
  {
    var n := |frame| - 2;
    var c, w := Run(frame[..n], INIT), Word(frame[n], frame[n + 1]);
    assert Front(frame) == frame[..n + 1] && Front(frame[..n + 1]) == frame[..n];
    TwoUpdates(c, frame[n], frame[n + 1]);
    ComplementSum(c);
    ResidueValue();
    if Run(frame, INIT) == RESIDUE {
      ShiftNInjective(Plus(c, w), 0xffff, 16);
      PlusCancels(c, w, Finalize(c));
    }
  }

  /** The FCS is the complement of the register after all bits of the frame in line order. */
  lemma FcsIsBitSerial(bs: seq<byte>)
    ensures Fcs(bs) == BitSerial(BytesBits(bs), 0xffff) ^ 0xffff
  {
    RunIsBitSerial(bs, INIT);
  }

  // ----- what the check detects -----

  lemma StepInjective(c: bv16, d: bv16, b: bit)
    requires Step(c, b) == Step(d, b)
    ensures c == d
  {
  }

  lemma {:induction false} BitSerialInjective(bits: seq<bit>, c: bv16, d: bv16)
    requires BitSerial(bits, c) == BitSerial(bits, d)
    ensures c == d
  {
    if bits == [] {
    } else {
      StepInjective(BitSerial(Front(bits), c), BitSerial(Front(bits), d), Last(bits));
      BitSerialInjective(Front(bits), c, d);
    }
  }

  lemma TwoBytesSerial(lo: byte, hi: byte, c: bv16)
    ensures BitSerial(ByteBits(lo) + ByteBits(hi), c) == ShiftN(Plus(c, Word(lo, hi)), 16)
  {
    BitSerialConcat(ByteBits(lo), ByteBits(hi), c);
    UpdateIsBitSerial(lo, c);
    UpdateIsBitSerial(hi, Update(lo, c));
    TwoUpdates(c, lo, hi);
  }

  lemma SixteenBits(w: seq<bit>, c: bv16)
    requires |w| == 16
    ensures BitSerial(w, c) == ShiftN(Plus(c, Word(ByteOf(w[..8]), ByteOf(w[8..]))), 16)
  {
    ByteBitsOfByteOf(w[..8]);
    ByteBitsOfByteOf(w[8..]);
    assert w[..8] + w[8..] == w;
    TwoBytesSerial(ByteOf(w[..8]), ByteOf(w[8..]), c);
  }

  /** From one register, sixteen bits determine the next register and are determined by it. */
  lemma SixteenBitsInjective(w: seq<bit>, v: seq<bit>, c: bv16)
    requires |w| == |v| == 16
    requires BitSerial(w, c) == BitSerial(v, c)
    ensures w == v
  {
    SixteenBits(w, c);
    SixteenBits(v, c);
    var a, b := Word(ByteOf(w[..8]), ByteOf(w[8..])), Word(ByteOf(v[..8]), ByteOf(v[8..]));
    ShiftNInjective(Plus(c, a), Plus(c, b), 16);
    PlusCancels(c, a, b);
    WordSplits(ByteOf(w[..8]), ByteOf(w[8..]));
    WordSplits(ByteOf(v[..8]), ByteOf(v[8..]));
    ByteBitsOfByteOf(w[..8]);
    ByteBitsOfByteOf(w[8..]);
    ByteBitsOfByteOf(v[..8]);
    ByteBitsOfByteOf(v[8..]);
    assert w == w[..8] + w[8..] && v == v[..8] + v[8..];
  }

  lemma BurstChangesRegister(p: seq<bit>, w: seq<bit>, v: seq<bit>, s: seq<bit>, c: bv16)
    requires |w| == |v| == 16
    requires BitSerial(p + w + s, c) == BitSerial(p + v + s, c)
    ensures w == v
  {
    var r := BitSerial(p, c);
    BitSerialConcat(p + w, s, c);
    BitSerialConcat(p + v, s, c);
    BitSerialConcat(p, w, c);
    BitSerialConcat(p, v, c);
    BitSerialInjective(s, BitSerial(w, r), BitSerial(v, r));
    SixteenBitsInjective(w, v, r);
  }

  lemma BurstChangesRun(f: seq<byte>, g: seq<byte>, k: nat)
    requires |f| == |g| && k + 16 <= 8 * |f|
    requires BytesBits(f)[..k] == BytesBits(g)[..k] && BytesBits(f)[k + 16..] == BytesBits(g)[k + 16..]
    requires Run(f, INIT) == Run(g, INIT)
    ensures f == g
  {
    var x, y := BytesBits(f), BytesBits(g);
    var w, v := x[k..k + 16], y[k..k + 16];
    assert x == x[..k] + w + x[k + 16..] && y == x[..k] + v + x[k + 16..];
    RunIsBitSerial(f, INIT);
    RunIsBitSerial(g, INIT);
    BurstChangesRegister(x[..k], w, v, x[k + 16..], INIT);
    BytesOfBytesBits(f);
    BytesOfBytesBits(g);
  }

  /** Every burst error is caught that starts at line bit `k` and is over sixteen bits later, wherever the
      bytes begin and however long the frame is. */
  lemma BurstDetected(f: seq<byte>, g: seq<byte>, k: nat)
    requires |f| == |g| >= 2 && f != g
    requires k + 16 <= 8 * |f|
    requires BytesBits(f)[..k] == BytesBits(g)[..k] && BytesBits(f)[k + 16..] == BytesBits(g)[k + 16..]
    requires Accepted(f)
    ensures !Accepted(g)
  {
    AcceptedIffResidue(f);
    AcceptedIffResidue(g);
    if Accepted(g) {
      BurstChangesRun(f, g, k);
    }
  }

  /** In bytes: damage to one byte, or to two neighbours, is always caught, the FCS bytes included. */
  lemma AdjacentBytesDetected(p: seq<byte>, w: seq<byte>, v: seq<byte>, s: seq<byte>)
    requires |w| == |v| == 2 && w != v
    requires Accepted(p + w + s)
    ensures !Accepted(p + v + s)
  {
    var f, g := p + w + s, p + v + s;
    BytesBitsConcat(p + w, s);
    BytesBitsConcat(p, w);
    BytesBitsConcat(p + v, s);
    BytesBitsConcat(p, v);
    var k := 8 * |p|;
    Cut(BytesBits(p) + BytesBits(w), BytesBits(s));
    Cut(BytesBits(p) + BytesBits(v), BytesBits(s));
    assert BytesBits(f)[..k] == BytesBits(p) == BytesBits(g)[..k];
    assert f[|p|..|p| + 2] == w && g[|p|..|p| + 2] == v;
    BurstDetected(f, g, k);
  }
}
