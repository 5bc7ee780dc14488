/**
 * The CRC as a number: the same division on unsigned integers, and the check value every CRC-32 of IEEE 802.3
 * must give.
 */
module CrcNumbers {
  import opened Octets
  import opened Bytes
  import opened Crc32

  /** One message bit: shift down, and subtract the reflected divisor 0xEDB88320 when a 1 falls out. */
  function StepNumber(c: nat, bit: nat): nat {
    if c % 2 != bit then XorLow(c / 2, 0xEDB8_8320, 32) else c / 2
  }

  /** The k low bits of b, the least significant first. */
  function StepBits(c: nat, b: nat, k: nat): nat
    decreases k
  {
    if k == 0 then c else StepBits(StepNumber(c, b % 2), b / 2, k - 1)
  }

  function StepOctets(c: nat, data: bytes): nat
    decreases |data|
  {
    if data == [] then c else StepOctets(StepBits(c, data[0], 8), data[1..])
  }

  lemma {:induction false} XorNumbers(a: bits, b: bits)
    requires |a| == |b|
    ensures FromBits(XorBits(a, b)) == XorLow(FromBits(a), FromBits(b), |a|)
  {
    if a != [] {
      XorNumbers(a[1..], b[1..]);
      assert XorBits(a, b)[1..] == XorBits(a[1..], b[1..]);
      assert FromBits(a) / 2 == FromBits(a[1..]) && FromBits(b) / 2 == FromBits(b[1..]);
    }
  }

  lemma {:induction false} TrailingZero(s: bits)
    ensures FromBits(s + [false]) == FromBits(s)
  {
    if s == [] {
      assert [] + [false] == [false] && [false][1..] == [];
    } else {
      TrailingZero(s[1..]);
      assert (s + [false])[1..] == s[1..] + [false];
    }
  }

  lemma PolynomialNumber()
    ensures FromBits(POLYNOMIAL) == 0xEDB8_8320
  {
    assert Power2(8) == 0x100;
    assert Power2(16) == 0x1_0000;
    assert Power2(24) == 0x100_0000;
    assert Power2(32) == 0x1_0000_0000;
    hide ToBits;
    FromToBits(0xEDB8_8320, 32);
  }

  lemma DownNumber(c: word)
    ensures FromBits(Down(c)) == FromBits(c) / 2 && (FromBits(c) % 2 == 1 <==> c[0])
  {
    TrailingZero(c[1..]);
  }

  lemma ShiftNumber(c: word, bit: bool)
    ensures FromBits(Shift(c, bit)) == StepNumber(FromBits(c), if bit then 1 else 0)
  {
    hide ToBits, XorBits, XorLow, FromBits, Down;
    var p: word := POLYNOMIAL;
    PolynomialNumber();
    DownNumber(c);
    XorNumbers(p, Down(c));
    XorLowCommutes(0xEDB8_8320, FromBits(Down(c)), 32);
  }

  lemma {:induction false} BitsNumber(c: word, b: nat, k: nat)
    ensures FromBits(Divide(c, ToBits(b, k))) == StepBits(FromBits(c), b, k)
    decreases k
  {
    hide Shift, StepNumber;
    if k > 0 {
      ShiftNumber(c, b % 2 == 1);
      BitsNumber(Shift(c, b % 2 == 1), b / 2, k - 1);
      assert ToBits(b, k)[1..] == ToBits(b / 2, k - 1);
    }
  }

  /** The register after a message is the number this division gives. */
  lemma {:induction false} RegisterNumber(data: bytes, seed: word)
    ensures FromBits(Register(data, seed)) == StepOctets(FromBits(seed), data)
    decreases |data|
  {
    hide Divide, StepBits, ToBits;
    if data == [] {
      NothingLeft(seed);
    } else {
      DivideAppend(seed, ToBits(data[0], 8), BitsOf(data[1..]));
      BitsNumber(seed, data[0], 8);
      RegisterNumber(data[1..], Divide(seed, ToBits(data[0], 8)));
    }
  }

  lemma {:induction false} InvertedNumber(s: bits)
    ensures FromBits(seq(|s|, i requires 0 <= i < |s| => !s[i])) == Power2(|s|) - 1 - FromBits(s)
  {
    if s != [] {
      InvertedNumber(s[1..]);
      var t := seq(|s|, i requires 0 <= i < |s| => !s[i]);
      assert t[1..] == seq(|s[1..]|, i requires 0 <= i < |s[1..]| => !s[1..][i]);
    }
  }

  // ---- the divisor, bit by bit ----

  /** What flipping the bit of this weight adds. */
  function Flip(a: nat, weight: nat): int
    requires weight > 0
  {
    var w: int := weight;
    if a / w % 2 == 1 then -w else w
  }

  /** Flipping every bit of the divisor. */
  function Flipped(a: nat): int {
    a + Flip(a, 0x0000_0020) + Flip(a, 0x0000_0100) + Flip(a, 0x0000_0200) + Flip(a, 0x0000_8000)
    + Flip(a, 0x0008_0000) + Flip(a, 0x0010_0000) + Flip(a, 0x0020_0000) + Flip(a, 0x0080_0000)
    + Flip(a, 0x0100_0000) + Flip(a, 0x0400_0000) + Flip(a, 0x0800_0000) + Flip(a, 0x2000_0000)
    + Flip(a, 0x4000_0000) + Flip(a, 0x8000_0000)
  }

  /** Exclusive or with one more bit flips that bit. */
  lemma {:induction false} OneMoreBit(a: nat, b: nat, e: nat, k: nat)
    requires e < k && Power2(e) > 0 && b / Power2(e) % 2 == 0
    ensures XorLow(a, b + Power2(e), k) == XorLow(a, b, k) + Flip(a, Power2(e))
    decreases k
  {
    if e > 0 {
      HalfBit(a, e);
      HalfBit(b, e);
      OneMoreBit(a / 2, b / 2, e - 1, k - 1);
      assert (b + Power2(e)) / 2 == b / 2 + Power2(e - 1);
    } else {
      assert (b + 1) / 2 == b / 2;
    }
  }

  lemma {:induction false} Positive(e: nat)
    ensures Power2(e) > 0
  {
    if e > 0 {
      Positive(e - 1);
    }
  }

  lemma HalfBit(a: nat, e: nat)
    requires e > 0
    ensures Power2(e) > 0 && Power2(e - 1) > 0 && a / Power2(e) == a / 2 / Power2(e - 1)
  {
    Positive(e - 1);
    HalfQuotient(a, Power2(e - 1));
  }

  lemma HalfQuotient(a: nat, w: nat)
    requires w > 0
    ensures a / (2 * w) == a / 2 / w
  {
    var q := a / 2 / w;
    assert a / 2 == q * w + a / 2 % w;
    assert a == 2 * w * q + (2 * (a / 2 % w) + a % 2);
    Quotient(a, 2 * w, q, 2 * (a / 2 % w) + a % 2);
  }

  lemma Quotient(a: nat, w: nat, q: nat, r: nat)
    requires w > 0 && a == w * q + r && r < w
    ensures a / w == q
  {
    if a / w < q {
      Apart(w, a / w, q);
    } else if q < a / w {
      Apart(w, q, a / w);
    }
  }

  lemma {:induction false} Apart(w: nat, x: int, y: int)
    requires x < y
    ensures w * x + w <= w * y
    decreases y - x
  {
    assert w * (y - 1) + w == w * y;
    if x < y - 1 {
      Apart(w, x, y - 1);
    }
  }

  lemma FlippedIsXor(a: nat)
    requires a < 0x1_0000_0000
    ensures XorLow(a, 0xEDB8_8320, 32) == Flipped(a)
  {
    hide XorLow, Flip, Power2;
    Powers();
    OneMoreBit(a, 0x0000_0000, 5, 32);
    OneMoreBit(a, 0x0000_0020, 8, 32);
    OneMoreBit(a, 0x0000_0120, 9, 32);
    OneMoreBit(a, 0x0000_0320, 15, 32);
    OneMoreBit(a, 0x0000_8320, 19, 32);
    OneMoreBit(a, 0x0008_8320, 20, 32);
    OneMoreBit(a, 0x0018_8320, 21, 32);
    OneMoreBit(a, 0x0038_8320, 23, 32);
    OneMoreBit(a, 0x00B8_8320, 24, 32);
    OneMoreBit(a, 0x01B8_8320, 26, 32);
    OneMoreBit(a, 0x05B8_8320, 27, 32);
    OneMoreBit(a, 0x0DB8_8320, 29, 32);
    OneMoreBit(a, 0x2DB8_8320, 30, 32);
    OneMoreBit(a, 0x6DB8_8320, 31, 32);
    XorLowZero(a, 32);
  }

  lemma Powers()
    ensures Power2(5) == 0x0000_0020 && Power2(8) == 0x0000_0100 && Power2(9) == 0x0000_0200
            && Power2(15) == 0x0000_8000 && Power2(19) == 0x0008_0000 && Power2(20) == 0x0010_0000
            && Power2(21) == 0x0020_0000 && Power2(23) == 0x0080_0000 && Power2(24) == 0x0100_0000
            && Power2(26) == 0x0400_0000 && Power2(27) == 0x0800_0000 && Power2(29) == 0x2000_0000
            && Power2(30) == 0x4000_0000 && Power2(31) == 0x8000_0000 && Power2(32) == 0x1_0000_0000
  {
    assert Power2(5) == 0x20;
    assert Power2(8) == 0x100;
    assert Power2(15) == 0x8000;
    assert Power2(19) == 0x8_0000;
    assert Power2(23) == 0x80_0000;
    assert Power2(26) == 0x400_0000;
    assert Power2(29) == 0x2000_0000;
  }

  /** A step that subtracts the divisor. */
  lemma Falls(c: nat, next: nat)
    requires c < 0x1_0000_0000 && FlipsTo(c / 2, next)
    ensures XorLow(c / 2, 0xEDB8_8320, 32) == next
  {
    FlippedIsXor(c / 2);
  }

  predicate FlipsTo(a: nat, r: nat) {
    Flipped(a) == r
  }

  // ---- the check value ----

  /** An octet is four bits, then four. */
  lemma TwoNibbles(c: nat, b: nat)
    ensures StepBits(c, b, 8) == StepBits(StepBits(c, b, 4), b / 16, 4)
  {
    hide StepNumber;
    FirstBits(c, b, 4, 4);
    assert Halved(b, 4) == b / 16;
  }

  /** The next octet of a message. */
  lemma OneOctet(c: nat, data: bytes, k: nat)
    requires k < |data|
    ensures StepOctets(c, data[k..]) == StepOctets(StepBits(c, data[k], 8), data[k + 1..])
  {
    hide StepBits;
    assert data[k..][1..] == data[k + 1..];
  }

  lemma {:induction false} FirstBits(c: nat, b: nat, j: nat, k: nat)
    ensures StepBits(c, b, j + k) == StepBits(StepBits(c, b, j), Halved(b, j), k)
    decreases j
  {
    hide StepNumber;
    if j > 0 {
      FirstBits(StepNumber(c, b % 2), b / 2, j - 1, k);
    }
  }

  function Halved(b: nat, j: nat): nat
    decreases j
  {
    if j == 0 then b else Halved(b / 2, j - 1)
  }

  lemma Nibble1a()
    ensures StepBits(0xFFFF_FFFF, 0x31, 4) == 0xAFF5_1D87
  {
    hide XorLow;
    Falls(0x7FFF_FFFF, 0xD247_7CDF);
    Falls(0xD247_7CDF, 0x849B_3D4F);
    Falls(0x849B_3D4F, 0xAFF5_1D87);
  }

  lemma Nibble1b()
    ensures StepBits(0xAFF5_1D87, 0x3, 4) == 0x7C23_1048
  {
    hide XorLow;
    Falls(0x2BFD_4761, 0xF846_2090);
  }

  lemma Nibble2a()
    ensures StepBits(0x7C23_1048, 0x32, 4) == 0xD114_92EC
  {
    hide XorLow;
    Falls(0x3E11_8824, 0xF2B0_4732);
    Falls(0x7958_2399, 0xD114_92EC);
  }

  lemma Nibble2b()
    ensures StepBits(0xD114_92EC, 0x3, 4) == 0xB0AC_BB32
  {
    hide XorLow;
    Falls(0xD114_92EC, 0x8532_CA56);
    Falls(0x8532_CA56, 0xAF21_E60B);
    Falls(0xAF21_E60B, 0xBA28_7025);
    Falls(0xBA28_7025, 0xB0AC_BB32);
  }

  lemma Nibble3a()
    ensures StepBits(0xB0AC_BB32, 0x33, 4) == 0x16BD_DBD7
  {
    hide XorLow;
    Falls(0xB0AC_BB32, 0xB5EE_DEB9);
  }

  lemma Nibble3b()
    ensures StepBits(0x16BD_DBD7, 0x3, 4) == 0x77B7_9C2D
  {
    hide XorLow;
    Falls(0x05AF_76F5, 0xEF6F_385A);
  }

  lemma Nibble4a()
    ensures StepBits(0x77B7_9C2D, 0x34, 4) == 0xF774_EA86
  {
    hide XorLow;
    Falls(0x77B7_9C2D, 0xD663_4D36);
    Falls(0x3598_D34D, 0xF774_EA86);
  }

  lemma Nibble4b()
    ensures StepBits(0xF774_EA86, 0x3, 4) == 0x641C_1F5C
  {
    hide XorLow;
    Falls(0xF774_EA86, 0x9602_F663);
    Falls(0x4B01_7B31, 0xC838_3EB8);
  }

  lemma Nibble5a()
    ensures StepBits(0x641C_1F5C, 0x35, 4) == 0xF64E_52B1
  {
    hide XorLow;
    Falls(0x641C_1F5C, 0xDFB6_8C8E);
    Falls(0x37ED_A323, 0xF64E_52B1);
  }

  lemma Nibble5b()
    ensures StepBits(0xF64E_52B1, 0x3, 4) == 0x340A_C5E3
  {
    hide XorLow;
    Falls(0x7B27_2958, 0xD02B_178C);
  }

  lemma Nibble6a()
    ensures StepBits(0x340A_C5E3, 0x36, 4) == 0x682B_FDAA
  {
    hide XorLow;
    Falls(0x340A_C5E3, 0xF7BD_E1D1);
    Falls(0x7BDE_F0E8, 0xD057_FB54);
  }

  lemma Nibble6b()
    ensures StepBits(0x682B_FDAA, 0x3, 4) == 0xF68D_2C9E
  {
    hide XorLow;
    Falls(0x682B_FDAA, 0xD9AD_7DF5);
    Falls(0x366B_5F7D, 0xF68D_2C9E);
  }

  lemma Nibble7a()
    ensures StepBits(0xF68D_2C9E, 0x37, 4) == 0xFF67_418D
  {
    hide XorLow;
    Falls(0xF68D_2C9E, 0x96FE_156F);
    Falls(0x25BF_855B, 0xFF67_418D);
  }

  lemma Nibble7b()
    ensures StepBits(0xFF67_418D, 0x3, 4) == 0xAFFC_9660
  {
    hide XorLow;
    Falls(0x7FB3_A0C6, 0xD261_5343);
    Falls(0xD261_5343, 0x8488_2A81);
    Falls(0x8488_2A81, 0xAFFC_9660);
  }

  lemma Nibble8a()
    ensures StepBits(0xAFFC_9660, 0x38, 4) == 0xE747_4A46
  {
    hide XorLow;
    Falls(0x15FF_92CC, 0xE747_4A46);
  }

  lemma Nibble8b()
    ensures StepBits(0xE747_4A46, 0x3, 4) == 0x651F_2550
  {
    hide XorLow;
    Falls(0xE747_4A46, 0x9E1B_2603);
    Falls(0x4F0D_9301, 0xCA3E_4AA0);
  }

  lemma Nibble9a()
    ensures StepBits(0x651F_2550, 0x39, 4) == 0xF65E_6111
  {
    hide XorLow;
    Falls(0x651F_2550, 0xDF37_1188);
    Falls(0x37CD_C462, 0xF65E_6111);
  }

  lemma Nibble9b()
    ensures StepBits(0xF65E_6111, 0x3, 4) == 0x340B_C6D9
  {
    hide XorLow;
    Falls(0x7B2F_3088, 0xD02F_1B64);
  }

  lemma NoOctets(c: nat)
    ensures StepOctets(c, []) == c
  {
  }

  /** The seed with all bits set, as the algorithm begins and is inverted at the end. */
  function Ones(): word {
    seq(32, _ => true)
  }

  lemma OnesNumber()
    ensures FromBits(Ones()) == 0xFFFF_FFFF
  {
    var none: bits := Clear(32);
    ClearNumber(32);
    InvertedNumber(none);
    Powers();
    assert Ones() == seq(|none|, i requires 0 <= i < |none| => !none[i]);
  }

  lemma {:induction false} ClearNumber(n: nat)
    ensures FromBits(Clear(n)) == 0
  {
    if n > 0 {
      ClearNumber(n - 1);
      assert Clear(n)[1..] == Clear(n - 1);
    }
  }

  lemma InvertedIs(c: word)
    ensures FromBits(Inverted(c)) == 0xFFFF_FFFF - FromBits(c)
  {
    InvertedNumber(c);
    Powers();
    assert Inverted(c) == seq(|c|, i requires 0 <= i < |c| => !c[i]);
  }

  /**
   * The CRC of the nine octets "123456789" is 0xCBF43926, the check value of CRC-32.
   */
  lemma CheckValue()
    ensures FromBits(Inverted(Register([0x31, 0x32, 0x33, 0x34, 0x35, 0x36, 0x37, 0x38, 0x39], Ones()))) == 0xCBF4_3926
  {
    hide Register, StepBits, StepOctets, Inverted, Ones, FromBits;
    var data: bytes := [0x31, 0x32, 0x33, 0x34, 0x35, 0x36, 0x37, 0x38, 0x39];
    RegisterNumber(data, Ones());
    OnesNumber();
    InvertedIs(Register(data, Ones()));
    assert data[0..] == data && data[9..] == [];
    OneOctet(0xFFFF_FFFF, data, 0);
    TwoNibbles(0xFFFF_FFFF, 0x31);
    Nibble1a();
    Nibble1b();
    OneOctet(0x7C23_1048, data, 1);
    TwoNibbles(0x7C23_1048, 0x32);
    Nibble2a();
    Nibble2b();
    OneOctet(0xB0AC_BB32, data, 2);
    TwoNibbles(0xB0AC_BB32, 0x33);
    Nibble3a();
    Nibble3b();
    OneOctet(0x77B7_9C2D, data, 3);
    TwoNibbles(0x77B7_9C2D, 0x34);
    Nibble4a();
    Nibble4b();
    OneOctet(0x641C_1F5C, data, 4);
    TwoNibbles(0x641C_1F5C, 0x35);
    Nibble5a();
    Nibble5b();
    OneOctet(0x340A_C5E3, data, 5);
    TwoNibbles(0x340A_C5E3, 0x36);
    Nibble6a();
    Nibble6b();
    OneOctet(0xF68D_2C9E, data, 6);
    TwoNibbles(0xF68D_2C9E, 0x37);
    Nibble7a();
    Nibble7b();
    OneOctet(0xAFFC_9660, data, 7);
    TwoNibbles(0xAFFC_9660, 0x38);
    Nibble8a();
    Nibble8b();
    OneOctet(0x651F_2550, data, 8);
    TwoNibbles(0x651F_2550, 0x39);
    Nibble9a();
    Nibble9b();
    NoOctets(0x340B_C6D9);
  }
}
