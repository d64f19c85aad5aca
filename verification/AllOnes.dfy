/** Frames of nothing but 1s, which is what an idle line looks like to the receiver.

    Their check sequence is wrong: the register of the FCS, fed with up to 255 bytes of 1s, never comes near
    the complement of two such bytes again after the second.  Every step of it is written out and checked. */
module AllOnes {
  import opened Bits
  import opened Crc

  /** The register after `i` bytes 0xff. */
  function Ones(i: bv8): bv16 {
    match i >> 3
    case 0x00 => Pick(i, 0xffff, 0x00ff, 0x0000, 0x0f78, 0xf0b8, 0x364b, 0xf399, 0x06c3)
    case 0x01 => Pick(i, 0xfbe9, 0x754c, 0x8765, 0x3b54, 0x1be2, 0xcb7f, 0x84c3, 0xfb6b)
    case 0x02 => Pick(i, 0xd256, 0x3819, 0x8200, 0x0ffa, 0x57a2, 0x8937, 0x4acd, 0x12db)
    case 0x03 => Pick(i, 0x6734, 0x78b8, 0x36c3, 0xfbd9, 0x44cf, 0x31c7, 0xbdfa, 0x5710)
    case 0x04 => Pick(i, 0x1fae, 0x4313, 0x2d21, 0x3fde, 0x30b4, 0xfce7, 0x9c35, 0x69ca)
    case 0x05 => Pick(i, 0x6647, 0x39a5, 0xfde6, 0x8dbd, 0x619b, 0x2543, 0x7fc2, 0xea19)
    case 0x06 => Pick(i, 0x82d2, 0xfa65, 0x3b29, 0xb380, 0x8bc3, 0xfb64, 0x2aa1, 0xbbd1)
    case 0x07 => Pick(i, 0xc8c7, 0xbd03, 0x3d5e, 0xb4be, 0x5339, 0xa369, 0xf11c, 0xd564)
    case 0x08 => Pick(i, 0x2a8f, 0x73ad, 0x71e4, 0xae23, 0x1c4f, 0xb597, 0xeffb, 0x46cb)
    case 0x09 => Pick(i, 0x77e1, 0xf988, 0x07c1, 0xd8fa, 0x5775, 0x2b05, 0x58fe, 0x11d1)
    case 0x0a => Pick(i, 0xc86d, 0xb753, 0x6fd1, 0xc813, 0x2daa, 0x0505, 0x58d0, 0xd9ad)
    case 0x0b => Pick(i, 0x714e, 0xa473, 0x4ec0, 0xc93a, 0x9168, 0xe0a7, 0xde2d, 0xf541)
    case 0x0c => Pick(i, 0x5c00, 0x0f24, 0x6851, 0x4c1c, 0xd5d9, 0x44e1, 0xf9bb, 0x04d9)
    case 0x0d => Pick(i, 0x4430, 0x3ebf, 0x423a, 0x91e3, 0xda7c, 0xb649, 0xd00b, 0xb17b)
    case 0x0e => Pick(i, 0xc29d, 0x40d6, 0xbc83, 0xb957, 0x29fb, 0x460d, 0xd4db, 0x67f2)
    case 0x0f => Pick(i, 0xdb82, 0xa8b9, 0x279a, 0x348c, 0x4128, 0xa273, 0x4ec6, 0xac0c)
    case 0x10 => Pick(i, 0xc5b8, 0x367e, 0x95b7, 0xced9, 0x44fa, 0x57e9, 0x75e0, 0xe803)
    case 0x11 => Pick(i, 0x3d0b, 0xb196, 0xfe76, 0x1937, 0x4a5d, 0x8652, 0x7e69, 0xf1c1)
    case 0x12 => Pick(i, 0xd80c, 0xc5cc, 0x03dd, 0x0213, 0x2d60, 0x6c53, 0x6f0a, 0xa04d)
    case 0x13 => Pick(i, 0x9639, 0xa3ac, 0x60bd, 0x6176, 0x19a8, 0x2623, 0x1cc7, 0xbdd7)
    case 0x14 => Pick(i, 0xadf7, 0x8ce5, 0xbf57, 0x29fd, 0x233b, 0x800b, 0xb12b, 0x9018)
    case 0x15 => Pick(i, 0x9321, 0x3f60, 0x6c41, 0x5c99, 0x066c, 0xa614, 0x597b, 0xc275)
    case 0x16 => Pick(i, 0x2b90, 0x9bda, 0x7634, 0x78a9, 0x37cb, 0x7790, 0x9b86, 0xeedd)
    case 0x17 => Pick(i, 0x02fe, 0x118b, 0x35b2, 0x99d4, 0x9f48, 0xc1ab, 0x1460, 0x6c6a)
    case 0x18 => Pick(i, 0xc348, 0xc1f7, 0x8c89, 0x163d, 0xe508, 0x83d5, 0x8edb, 0x67a8)
    case 0x19 => Pick(i, 0x265d, 0x863e, 0xd703, 0x3d34, 0x78e2, 0xcb1c, 0xd55e, 0xb456)
    case 0x1a => Pick(i, 0x387f, 0x8430, 0x3e7f, 0x8436, 0x5b49, 0xd0e6, 0x8d90, 0x9b7c)
    case 0x1b => Pick(i, 0xb608, 0x8386, 0xeec5, 0x9e37, 0x4ada, 0x76e5, 0xbfad, 0x7128)
    case 0x1c => Pick(i, 0xa243, 0x7f45, 0x1aae, 0x4316, 0x7a8c, 0x4166, 0x0909, 0x92b0)
    case 0x1d => Pick(i, 0xba61, 0x7d4d, 0x96e4, 0xaec4, 0x8ffe, 0x1106, 0x6a5f, 0xa560)
    case 0x1e => Pick(i, 0x6cdb, 0x674a, 0xe241, 0x5c17, 0x6b1a, 0xb0c8, 0x458c, 0x4159)
    case _ => Pick(i, 0xc07d, 0xa7da, 0x7608, 0x8346, 0x28c9, 0x549d, 0x4040, 0x4d3c)
  }

  /** The register after a byte 0xfe and `i` - 1 bytes 0xff. */
  function ZeroOnes(i: bv8): bv16 {
    match i >> 3
    case 0x00 => Pick(i, 0xfffe, 0x1176, 0x19d8, 0x55a4, 0xec03, 0x3d0f, 0xf7b2, 0x9916)
    case 0x01 => Pick(i, 0x7a56, 0x38b1, 0xab42, 0x6ec5, 0x9eb7, 0xced2, 0xfa29, 0xb341)
    case 0x02 => Pick(i, 0x5c46, 0x2816, 0x7ae7, 0x9cb3, 0x88f4, 0xbe5b, 0xe390, 0x9b12)
    case 0x03 => Pick(i, 0x3c70, 0x7cc3, 0xfb93, 0xa991, 0x8ad1, 0xc8f6, 0x9d09, 0x9224)
    case 0x04 => Pick(i, 0x68cc, 0x0370, 0x7cfc, 0x32e7, 0x9cfb, 0x46b8, 0x36fd, 0x2324)
    case 0x05 => Pick(i, 0x687d, 0xa772, 0x5f4a, 0xe279, 0xe1dc, 0x1378, 0xf0a4, 0xeca6)
    case 0x06 => Pick(i, 0xcfa8, 0x26f5, 0xaf7c, 0xb63c, 0xf421, 0x3f07, 0x7bf8, 0x74c4)
    case 0x07 => Pick(i, 0x8f24, 0x68d1, 0xc814, 0x5915, 0x480d, 0xd4d5, 0x8e8c, 0x4192)
    case 0x08 => Pick(i, 0xb8a2, 0x89d8, 0x5534, 0x788a, 0x2452, 0x7ecb, 0x77d9, 0x4443)
    case 0x09 => Pick(i, 0x7fa3, 0x9896, 0xfe5f, 0xa5f4, 0xbe76, 0x1977, 0x0859, 0xc034)
    case 0x0a => Pick(i, 0x781f, 0xe776, 0x192e, 0xc71d, 0xc4db, 0x67e2, 0xcb03, 0x3d28)
    case 0x0b => Pick(i, 0xa20f, 0xf72d, 0xf568, 0xe0c3, 0xfb0f, 0xf774, 0x3a2c, 0xe42c)
    case 0x0c => Pick(i, 0xe4f2, 0xdb01, 0x1e2a, 0x813e, 0xd704, 0x498b, 0x35ea, 0x4719)
    case 0x0d => Pick(i, 0x827f, 0x848a, 0x24ae, 0x4328, 0xa271, 0x6dd4, 0x9fbc, 0x7000)
    case 0x0e => Pick(i, 0x0f08, 0x833f, 0xc68f, 0x7341, 0x5c86, 0xee1a, 0xb04d, 0x9629)
    case 0x0f => Pick(i, 0xb32d, 0xf52c, 0xe4e3, 0xda09, 0x9263, 0x5e77, 0x081e, 0xf68f)
    case 0x10 => Pick(i, 0x7371, 0x6d05, 0x58b8, 0x36e3, 0xdadb, 0x67fc, 0x32fc, 0x32a9)
    case 0x11 => Pick(i, 0x3781, 0x9ace, 0x2090, 0x9bd1, 0xc8e7, 0x9c01, 0x1e6d, 0xb785)
    case 0x12 => Pick(i, 0xdc6a, 0xc3f8, 0x747c, 0xb6e7, 0x9c7f, 0x8494, 0xdd51, 0x4ca9)
    case 0x13 => Pick(i, 0x37ff, 0x0037, 0x4a44, 0x0b12, 0x3ce0, 0xe84a, 0xe2ce, 0x20e8)
    case 0x14 => Pick(i, 0x641e, 0xf6e3, 0xda1b, 0xa1f0, 0xf856, 0x3833, 0x0c58, 0xd1b9)
    case 0x15 => Pick(i, 0x27e3, 0xdaca, 0x66f4, 0xbeb5, 0xede0, 0xe89b, 0x25ca, 0x660b)
    case 0x16 => Pick(i, 0xb1cd, 0x1220, 0x2e68, 0xe018, 0x9351, 0x4ce7, 0x9c85, 0xdc41)
    case 0x17 => Pick(i, 0x5c29, 0xb3e7, 0x9c7a, 0xd339, 0xa3e9, 0x7514, 0x59a8, 0x2663)
    case 0x18 => Pick(i, 0x5ec3, 0xfbb1, 0xab81, 0x9a52, 0x7e75, 0x2b2c, 0xe43d, 0xe5fa)
    case 0x19 => Pick(i, 0x5748, 0xc163, 0x5e24, 0x6800, 0x0f10, 0x1ff6, 0x9dde, 0x3016)
    case 0x1a => Pick(i, 0x7aff, 0x007a, 0xd3a5, 0xfd0c, 0xc5e9, 0x7572, 0x5f98, 0x17e6)
    case 0x1b => Pick(i, 0x8d57, 0x29cf, 0x31aa, 0x0519, 0x823d, 0xe59c, 0x5178, 0xf0e6)
    case 0x1c => Pick(i, 0x8db0, 0xba7e, 0x953b, 0x80bd, 0x6196, 0xfea6, 0xcfba, 0x1566)
    case 0x1d => Pick(i, 0x095d, 0x8611, 0x0ef6, 0x9dcf, 0x311e, 0xf6b6, 0xdf33, 0x0cbf)
    case 0x1e => Pick(i, 0x4208, 0x8372, 0x5f6e, 0x855f, 0xa58f, 0x7322, 0x0d1b, 0xa127)
    case _ => Pick(i, 0x5a64, 0x2a00, 0x0f52, 0x7ee0, 0xe808, 0x83d8, 0x553e, 0xd7d0)
  }

  // Each step from one entry to the next, two lines of the table at a time.

  lemma Ones00(i: bv8)
    requires i >> 3 == 0x0
    ensures Ones(i + 1) == ShiftN(Mix(0xff, Ones(i)), 8)
  {
    ShiftEight(Mix(0xff, Ones(i)));
  }

  lemma Ones01(i: bv8)
    requires i >> 3 == 0x1
    ensures Ones(i + 1) == ShiftN(Mix(0xff, Ones(i)), 8)
  {
    ShiftEight(Mix(0xff, Ones(i)));
  }

  lemma Ones1(i: bv8)
    requires i >> 4 == 0x1
    ensures Ones(i + 1) == ShiftN(Mix(0xff, Ones(i)), 8)
  {
    ShiftEight(Mix(0xff, Ones(i)));
  }

  lemma Ones2(i: bv8)
    requires i >> 4 == 0x2
    ensures Ones(i + 1) == ShiftN(Mix(0xff, Ones(i)), 8)
  {
    ShiftEight(Mix(0xff, Ones(i)));
  }

  lemma Ones3(i: bv8)
    requires i >> 4 == 0x3
    ensures Ones(i + 1) == ShiftN(Mix(0xff, Ones(i)), 8)
  {
    ShiftEight(Mix(0xff, Ones(i)));
  }

  lemma Ones4(i: bv8)
    requires i >> 4 == 0x4
    ensures Ones(i + 1) == ShiftN(Mix(0xff, Ones(i)), 8)
  {
    ShiftEight(Mix(0xff, Ones(i)));
  }

  lemma Ones5(i: bv8)
    requires i >> 4 == 0x5
    ensures Ones(i + 1) == ShiftN(Mix(0xff, Ones(i)), 8)
  {
    ShiftEight(Mix(0xff, Ones(i)));
  }

  lemma Ones6(i: bv8)
    requires i >> 4 == 0x6
    ensures Ones(i + 1) == ShiftN(Mix(0xff, Ones(i)), 8)
  {
    ShiftEight(Mix(0xff, Ones(i)));
  }

  lemma Ones7(i: bv8)
    requires i >> 4 == 0x7
    ensures Ones(i + 1) == ShiftN(Mix(0xff, Ones(i)), 8)
  {
    ShiftEight(Mix(0xff, Ones(i)));
  }

  lemma Ones8(i: bv8)
    requires i >> 4 == 0x8
    ensures Ones(i + 1) == ShiftN(Mix(0xff, Ones(i)), 8)
  {
    ShiftEight(Mix(0xff, Ones(i)));
  }

  lemma Ones9(i: bv8)
    requires i >> 4 == 0x9
    ensures Ones(i + 1) == ShiftN(Mix(0xff, Ones(i)), 8)
  {
    ShiftEight(Mix(0xff, Ones(i)));
  }

  lemma Onesa(i: bv8)
    requires i >> 4 == 0xa
    ensures Ones(i + 1) == ShiftN(Mix(0xff, Ones(i)), 8)
  {
    ShiftEight(Mix(0xff, Ones(i)));
  }

  lemma Onesb(i: bv8)
    requires i >> 4 == 0xb
    ensures Ones(i + 1) == ShiftN(Mix(0xff, Ones(i)), 8)
  {
    ShiftEight(Mix(0xff, Ones(i)));
  }

  lemma Onesc(i: bv8)
    requires i >> 4 == 0xc
    ensures Ones(i + 1) == ShiftN(Mix(0xff, Ones(i)), 8)
  {
    ShiftEight(Mix(0xff, Ones(i)));
  }

  lemma Onesd(i: bv8)
    requires i >> 4 == 0xd
    ensures Ones(i + 1) == ShiftN(Mix(0xff, Ones(i)), 8)
  {
    ShiftEight(Mix(0xff, Ones(i)));
  }

  lemma Onese(i: bv8)
    requires i >> 4 == 0xe
    ensures Ones(i + 1) == ShiftN(Mix(0xff, Ones(i)), 8)
  {
    ShiftEight(Mix(0xff, Ones(i)));
  }

  lemma Onesf(i: bv8)
    requires i >> 4 == 0xf && i != 0xff
    ensures Ones(i + 1) == ShiftN(Mix(0xff, Ones(i)), 8)
  {
    ShiftEight(Mix(0xff, Ones(i)));
  }

  lemma OnesLow(i: bv8)
    requires i < 0x80
    ensures Ones(i + 1) == ShiftN(Mix(0xff, Ones(i)), 8)
  {
    match i >> 4 {
      case 0x0 =>
        if i < 0x08 {
          Ones00(i);
        } else {
          Ones01(i);
        }
      case 0x1 => Ones1(i);
      case 0x2 => Ones2(i);
      case 0x3 => Ones3(i);
      case 0x4 => Ones4(i);
      case 0x5 => Ones5(i);
      case 0x6 => Ones6(i);
      case _ => Ones7(i);
    }
  }

  lemma OnesHigh(i: bv8)
    requires 0x80 <= i < 0xff
    ensures Ones(i + 1) == ShiftN(Mix(0xff, Ones(i)), 8)
  {
    match i >> 4 {
      case 0x8 => Ones8(i);
      case 0x9 => Ones9(i);
      case 0xa => Onesa(i);
      case 0xb => Onesb(i);
      case 0xc => Onesc(i);
      case 0xd => Onesd(i);
      case 0xe => Onese(i);
      case _ => Onesf(i);
    }
  }

  lemma OnesStep(i: bv8)
    requires i < 0xff
    ensures Ones(i + 1) == Update(0xff, Ones(i))
  {
    UpdateIsEightShifts(0xff, Ones(i));
    if i < 0x80 {
      OnesLow(i);
    } else {
      OnesHigh(i);
    }
  }

  lemma ZeroOnes00(i: bv8)
    requires i >> 3 == 0x0
    ensures ZeroOnes(i + 1) == ShiftN(Mix(0xff, ZeroOnes(i)), 8)
  {
    ShiftEight(Mix(0xff, ZeroOnes(i)));
  }

  lemma ZeroOnes01(i: bv8)
    requires i >> 3 == 0x1
    ensures ZeroOnes(i + 1) == ShiftN(Mix(0xff, ZeroOnes(i)), 8)
  {
    ShiftEight(Mix(0xff, ZeroOnes(i)));
  }

  lemma ZeroOnes1(i: bv8)
    requires i >> 4 == 0x1
    ensures ZeroOnes(i + 1) == ShiftN(Mix(0xff, ZeroOnes(i)), 8)
  {
    ShiftEight(Mix(0xff, ZeroOnes(i)));
  }

  lemma ZeroOnes2(i: bv8)
    requires i >> 4 == 0x2
    ensures ZeroOnes(i + 1) == ShiftN(Mix(0xff, ZeroOnes(i)), 8)
  {
    ShiftEight(Mix(0xff, ZeroOnes(i)));
  }

  lemma ZeroOnes3(i: bv8)
    requires i >> 4 == 0x3
    ensures ZeroOnes(i + 1) == ShiftN(Mix(0xff, ZeroOnes(i)), 8)
  {
    ShiftEight(Mix(0xff, ZeroOnes(i)));
  }

  lemma ZeroOnes4(i: bv8)
    requires i >> 4 == 0x4
    ensures ZeroOnes(i + 1) == ShiftN(Mix(0xff, ZeroOnes(i)), 8)
  {
    ShiftEight(Mix(0xff, ZeroOnes(i)));
  }

  lemma ZeroOnes5(i: bv8)
    requires i >> 4 == 0x5
    ensures ZeroOnes(i + 1) == ShiftN(Mix(0xff, ZeroOnes(i)), 8)
  {
    ShiftEight(Mix(0xff, ZeroOnes(i)));
  }

  lemma ZeroOnes6(i: bv8)
    requires i >> 4 == 0x6
    ensures ZeroOnes(i + 1) == ShiftN(Mix(0xff, ZeroOnes(i)), 8)
  {
    ShiftEight(Mix(0xff, ZeroOnes(i)));
  }

  lemma ZeroOnes7(i: bv8)
    requires i >> 4 == 0x7
    ensures ZeroOnes(i + 1) == ShiftN(Mix(0xff, ZeroOnes(i)), 8)
  {
    ShiftEight(Mix(0xff, ZeroOnes(i)));
  }

  lemma ZeroOnes8(i: bv8)
    requires i >> 4 == 0x8
    ensures ZeroOnes(i + 1) == ShiftN(Mix(0xff, ZeroOnes(i)), 8)
  {
    ShiftEight(Mix(0xff, ZeroOnes(i)));
  }

  lemma ZeroOnes9(i: bv8)
    requires i >> 4 == 0x9
    ensures ZeroOnes(i + 1) == ShiftN(Mix(0xff, ZeroOnes(i)), 8)
  {
    ShiftEight(Mix(0xff, ZeroOnes(i)));
  }

  lemma ZeroOnesa(i: bv8)
    requires i >> 4 == 0xa
    ensures ZeroOnes(i + 1) == ShiftN(Mix(0xff, ZeroOnes(i)), 8)
  {
    ShiftEight(Mix(0xff, ZeroOnes(i)));
  }

  lemma ZeroOnesb(i: bv8)
    requires i >> 4 == 0xb
    ensures ZeroOnes(i + 1) == ShiftN(Mix(0xff, ZeroOnes(i)), 8)
  {
    ShiftEight(Mix(0xff, ZeroOnes(i)));
  }

  lemma ZeroOnesc(i: bv8)
    requires i >> 4 == 0xc
    ensures ZeroOnes(i + 1) == ShiftN(Mix(0xff, ZeroOnes(i)), 8)
  {
    ShiftEight(Mix(0xff, ZeroOnes(i)));
  }

  lemma ZeroOnesd(i: bv8)
    requires i >> 4 == 0xd
    ensures ZeroOnes(i + 1) == ShiftN(Mix(0xff, ZeroOnes(i)), 8)
  {
    ShiftEight(Mix(0xff, ZeroOnes(i)));
  }

  lemma ZeroOnese(i: bv8)
    requires i >> 4 == 0xe
    ensures ZeroOnes(i + 1) == ShiftN(Mix(0xff, ZeroOnes(i)), 8)
  {
    ShiftEight(Mix(0xff, ZeroOnes(i)));
  }

  lemma ZeroOnesf(i: bv8)
    requires i >> 4 == 0xf && i != 0xff
    ensures ZeroOnes(i + 1) == ShiftN(Mix(0xff, ZeroOnes(i)), 8)
  {
    ShiftEight(Mix(0xff, ZeroOnes(i)));
  }

  lemma ZeroOnesLow(i: bv8)
    requires i < 0x80
    ensures ZeroOnes(i + 1) == ShiftN(Mix(0xff, ZeroOnes(i)), 8)
  {
    match i >> 4 {
      case 0x0 =>
        if i < 0x08 {
          ZeroOnes00(i);
        } else {
          ZeroOnes01(i);
        }
      case 0x1 => ZeroOnes1(i);
      case 0x2 => ZeroOnes2(i);
      case 0x3 => ZeroOnes3(i);
      case 0x4 => ZeroOnes4(i);
      case 0x5 => ZeroOnes5(i);
      case 0x6 => ZeroOnes6(i);
      case _ => ZeroOnes7(i);
    }
  }

  lemma ZeroOnesHigh(i: bv8)
    requires 0x80 <= i < 0xff
    ensures ZeroOnes(i + 1) == ShiftN(Mix(0xff, ZeroOnes(i)), 8)
  {
    match i >> 4 {
      case 0x8 => ZeroOnes8(i);
      case 0x9 => ZeroOnes9(i);
      case 0xa => ZeroOnesa(i);
      case 0xb => ZeroOnesb(i);
      case 0xc => ZeroOnesc(i);
      case 0xd => ZeroOnesd(i);
      case 0xe => ZeroOnese(i);
      case _ => ZeroOnesf(i);
    }
  }

  lemma ZeroOnesStep(i: bv8)
    requires i < 0xff
    ensures ZeroOnes(i + 1) == Update(0xff, ZeroOnes(i))
  {
    UpdateIsEightShifts(0xff, ZeroOnes(i));
    if i < 0x80 {
      ZeroOnesLow(i);
    } else {
      ZeroOnesHigh(i);
    }
  }

  /** No bits, one bit, or two neighbouring bits. */
  predicate Sparse(c: bv16) {
    var low := c & -c;
    c == low || c == low | (low << 1)
  }

  lemma OnesNotSparseA(i: bv8)
    requires 3 <= i < 0x40
    ensures !Sparse(Ones(i))
  {
  }

  lemma OnesNotSparseB(i: bv8)
    requires 0x40 <= i < 0x80
    ensures !Sparse(Ones(i))
  {
  }

  lemma OnesNotSparseC(i: bv8)
    requires 0x80 <= i < 0xc0
    ensures !Sparse(Ones(i))
  {
  }

  lemma OnesNotSparseD(i: bv8)
    requires i >= 0xc0
    ensures !Sparse(Ones(i))
  {
  }

  lemma OnesNotSparse(i: bv8)
    requires i >= 3
    ensures !Sparse(Ones(i))
  {
    if i < 0x40 {
      OnesNotSparseA(i);
    } else if i < 0x80 {
      OnesNotSparseB(i);
    } else if i < 0xc0 {
      OnesNotSparseC(i);
    } else {
      OnesNotSparseD(i);
    }
  }

  lemma ZeroOnesNotSparseA(i: bv8)
    requires 3 <= i < 0x40
    ensures !Sparse(ZeroOnes(i))
  {
  }

  lemma ZeroOnesNotSparseB(i: bv8)
    requires 0x40 <= i < 0x80
    ensures !Sparse(ZeroOnes(i))
  {
  }

  lemma ZeroOnesNotSparseC(i: bv8)
    requires 0x80 <= i < 0xc0
    ensures !Sparse(ZeroOnes(i))
  {
  }

  lemma ZeroOnesNotSparseD(i: bv8)
    requires i >= 0xc0
    ensures !Sparse(ZeroOnes(i))
  {
  }

  lemma ZeroOnesNotSparse(i: bv8)
    requires i >= 3
    ensures !Sparse(ZeroOnes(i))
  {
    if i < 0x40 {
      ZeroOnesNotSparseA(i);
    } else if i < 0x80 {
      ZeroOnesNotSparseB(i);
    } else if i < 0xc0 {
      ZeroOnesNotSparseC(i);
    } else {
      ZeroOnesNotSparseD(i);
    }
  }

  /** The register after `n` bytes 0xff. */
  function Feed(c: bv16, n: nat): bv16 {
    if n == 0 then c else Update(0xff, Feed(c, n - 1))
  }

  lemma FeedIsNextOnes(n: nat, i: bv8)
    requires i < 0xff && Feed(0xffff, n) == Ones(i)
    ensures Feed(0xffff, n + 1) == Ones(i + 1)
  {
    OnesStep(i);
  }

  lemma {:induction false} FeedIsOnes(n: nat, i: bv8)
    requires n == i as nat
    ensures Feed(0xffff, n) == Ones(i)
  {
    if n == 0 {
    } else {
      var j := i - 1;
      assert j as nat == n - 1 && j < 0xff;
      FeedIsOnes(n - 1, j);
      FeedIsNextOnes(n - 1, j);
    }
  }

  lemma FeedIsNextZeroOnes(n: nat, i: bv8)
    requires i < 0xff && Feed(0xfffe, n) == ZeroOnes(i)
    ensures Feed(0xfffe, n + 1) == ZeroOnes(i + 1)
  {
    ZeroOnesStep(i);
  }

  lemma {:induction false} FeedIsZeroOnes(n: nat, i: bv8)
    requires n == i as nat
    ensures Feed(0xfffe, n) == ZeroOnes(i)
  {
    if n == 0 {
    } else {
      var j := i - 1;
      assert j as nat == n - 1 && j < 0xff;
      FeedIsZeroOnes(n - 1, j);
      FeedIsNextZeroOnes(n - 1, j);
    }
  }

  lemma FeedOnesNotSparse(n: nat, i: bv8)
    requires n == i as nat && i >= 3
    ensures !Sparse(Feed(0xffff, n))
  {
    FeedIsOnes(n, i);
    OnesNotSparse(i);
  }

  lemma FeedZeroOnesNotSparse(n: nat, i: bv8)
    requires n == i as nat && i >= 3
    ensures !Sparse(Feed(0xfffe, n))
  {
    FeedIsZeroOnes(n, i);
    ZeroOnesNotSparse(i);
  }

  lemma NextIndex(i: bv8)
    requires i < 0xff
    ensures (i + 1) as nat == i as nat + 1
  {
  }

  lemma {:induction false} ByteIndex(n: nat) returns (i: bv8)
    requires n <= 255
    ensures n == i as nat
  {
    if n == 0 {
      i := 0;
    } else {
      var j := ByteIndex(n - 1);
      NextIndex(j);
      i := j + 1;
    }
  }

  lemma FeedNotSparse(n: nat)
    requires 3 <= n <= 255
    ensures !Sparse(Feed(0xffff, n)) && !Sparse(Feed(0xfffe, n))
  {
    var i := ByteIndex(n);
    assert i >= 3;
    FeedOnesNotSparse(n, i);
    FeedZeroOnesNotSparse(n, i);
  }

  /** All bytes are 0xff, but for the first bit of the first one. */
  predicate OnesButFirst(f: seq<byte>) {
    f != [] && (f[0] == 0xff || f[0] == 0xfe) && forall k | 1 <= k < |f| :: f[k] == 0xff
  }

  /** A first bit 0 is as good as a 0 in the register. */
  lemma FirstZero()
    ensures Update(0xfe, 0xffff) == Update(0xff, 0xfffe)
  {
    assert Mix(0xfe, 0xffff) & 0xff == Mix(0xff, 0xfffe) & 0xff;
  }

  lemma {:induction false} OnesRun(f: seq<byte>)
    requires OnesButFirst(f)
    ensures Run(f, INIT) == Feed(if f[0] == 0xff then 0xffff else 0xfffe, |f|)
  {
    if |f| == 1 {
      FirstZero();
      assert Front(f) == [];
      assert Feed(0xffff, 1) == Update(0xff, Feed(0xffff, 0)) && Feed(0xfffe, 1) == Update(0xff, Feed(0xfffe, 0));
    } else {
      OnesRun(Front(f));
    }
  }

  /** The eight bits are 1s, but for up to two neighbours. */
  predicate OnesButTwo(w: seq<bit>, a: int)
    requires |w| == 8
  {
    forall i | 0 <= i < 8 && i != a && i != a + 1 :: w[i]
  }

  lemma ComplementSparse(w: seq<bit>, a: int)
    requires |w| == 8 && OnesButTwo(w, a)
    ensures Sparse(Finalize(Word(0xff, ByteOf(w))))
  {
  }

  /** No frame of 18 to 255 bytes of 1s is accepted, whatever its first bit, and with up to two neighbouring
      0s in its last byte. */
  lemma NotAccepted(f: seq<byte>, w: seq<bit>, a: int)
    requires 18 <= |f| <= 255 && OnesButFirst(Front(f))
    requires |w| == 8 && OnesButTwo(w, a) && Last(f) == ByteOf(w)
    ensures !Accepted(f)
  {
    var c := Run(f[..|f| - 2], INIT);
    ButLastTwo(f);
    OnesRun(f[..|f| - 2]);
    FeedNotSparse(|f| - 2);
    SparseIsNot(c, w, a);
  }

  lemma ButLastTwo(f: seq<byte>)
    requires |f| >= 3 && OnesButFirst(Front(f))
    ensures OnesButFirst(f[..|f| - 2]) && f[|f| - 2] == 0xff
  {
    assert Front(f)[|f| - 2] == 0xff;
    assert forall k | 0 <= k < |f| - 2 :: f[..|f| - 2][k] == Front(f)[k];
  }

  lemma SparseIsNot(c: bv16, w: seq<bit>, a: int)
    requires !Sparse(c) && |w| == 8 && OnesButTwo(w, a)
    ensures Finalize(c) != Word(0xff, ByteOf(w))
  {
    ComplementSparse(w, a);
    FinalizeTwice(c);
  }

  lemma FinalizeTwice(c: bv16)
    ensures Finalize(Finalize(c)) == c
  {
  }
}
