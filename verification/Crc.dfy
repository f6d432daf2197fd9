/** Exclusive-or of unsigned integers, bit by bit. */
module Bits {
  import opened Core

  function Xor(a: nat, b: nat): nat
    decreases a + b
  {
    if a == 0 then b
    else if b == 0 then a
    else (if a % 2 == b % 2 then 0 else 1) + 2 * Xor(a / 2, b / 2)
  }

  lemma Halves(bit: nat, high: nat)
    requires bit < 2
    ensures (bit + 2 * high) % 2 == bit && (bit + 2 * high) / 2 == high
  {
  }

  lemma XorBits(a: nat, b: nat)
    ensures Xor(a, b) % 2 == (if a % 2 == b % 2 then 0 else 1) && Xor(a, b) / 2 == Xor(a / 2, b / 2)
  {
    if a != 0 && b != 0 { Halves(if a % 2 == b % 2 then 0 else 1, Xor(a / 2, b / 2)); }
  }

  lemma {:induction false} XorComm(a: nat, b: nat)
    ensures Xor(a, b) == Xor(b, a)
    decreases a + b
  {
    if a != 0 && b != 0 { XorComm(a / 2, b / 2); }
  }

  lemma {:induction false} XorAssoc(a: nat, b: nat, c: nat)
    ensures Xor(Xor(a, b), c) == Xor(a, Xor(b, c))
    decreases a + b + c
  {
    if a != 0 && b != 0 && c != 0 {
      var l, r := Xor(Xor(a, b), c), Xor(a, Xor(b, c));
      XorAssoc(a / 2, b / 2, c / 2);
      assert l / 2 == r / 2 && l % 2 == r % 2 by {
        XorBits(a, b);
        XorBits(b, c);
        XorBits(Xor(a, b), c);
        XorBits(a, Xor(b, c));
      }
    }
  }

  lemma {:induction false} XorSelf(a: nat)
    ensures Xor(a, a) == 0
  {
    if a != 0 { XorSelf(a / 2); }
  }


  function Shl(a: nat, k: nat): nat { if k == 0 then a else 2 * Shl(a, k - 1) }

  function Shr(a: nat, k: nat): nat
    decreases k
  {
    if k == 0 then a else Shr(a / 2, k - 1)
  }

  lemma {:induction false} XorBound(a: nat, b: nat, k: nat)
    requires a < Pow2(k) && b < Pow2(k)
    ensures Xor(a, b) < Pow2(k)
    decreases k
  {
    if a != 0 && b != 0 && k > 0 { XorBound(a / 2, b / 2, k - 1); }
  }

  lemma {:induction false} XorShr(a: nat, b: nat, k: nat)
    ensures Shr(Xor(a, b), k) == Xor(Shr(a, k), Shr(b, k))
    decreases k
  {
    if k > 0 {
      XorBits(a, b);
      XorShr(a / 2, b / 2, k - 1);
    }
  }

  /** Numbers without common bits: exclusive-or is addition. */
  lemma {:induction false} XorDisjoint(a: nat, h: nat, k: nat)
    requires a < Pow2(k)
    ensures Xor(a, Shl(h, k)) == a + Shl(h, k)
    decreases k
  {
    if k > 0 {
      XorBits(a, Shl(h, k));
      XorDisjoint(a / 2, h, k - 1);
    }
  }
}

/** CRC-32 (src/format/crc.c, section 8 of RFC 1952): the table-driven loop
    against the bit-at-a-time definition. */
module Crc {
  import opened Core
  import opened Bits

  const POLY := 0xEDB8_8320

  /** One shift of the register. */
  function BitStep(c: nat): nat {
    if c % 2 == 1 then Xor(POLY, c / 2) else c / 2
  }

  function Steps(c: nat, k: nat): nat {
    if k == 0 then c else BitStep(Steps(c, k - 1))
  }

  /** The register after a run of bytes, one bit at a time. */
  function BitRegister(data: Bytes): nat {
    if data == [] then 0xFFFF_FFFF
    else Steps(Xor(BitRegister(data[..|data| - 1]), data[|data| - 1]), 8)
  }

  /** The CRC as RFC 1952 defines it. */
  function Crc32(data: Bytes): u32 {
    RegisterBound(data);
    XorBound(BitRegister(data), 0xFFFF_FFFF, 32);
    Xor(BitRegister(data), 0xFFFF_FFFF)
  }

  lemma Pow32()
    ensures Pow2(8) == 0x100 && Pow2(31) == 0x8000_0000 && Pow2(32) == 0x1_0000_0000
  {
    assert Pow2(4) == 16;
    assert Pow2(8) == 16 * Pow2(4);
    assert Pow2(12) == 16 * Pow2(8);
    assert Pow2(16) == 16 * Pow2(12);
    assert Pow2(20) == 16 * Pow2(16);
    assert Pow2(24) == 16 * Pow2(20);
    assert Pow2(28) == 16 * Pow2(24);
    assert Pow2(31) == 8 * Pow2(28);
  }

  lemma {:induction false} StepsBound(c: nat, k: nat)
    requires c < Pow2(32)
    ensures Steps(c, k) < Pow2(32)
  {
    if k > 0 {
      Pow32();
      StepsBound(c, k - 1);
      XorBound(POLY, Steps(c, k - 1) / 2, 32);
    }
  }

  lemma {:induction false} RegisterBound(data: Bytes)
    ensures BitRegister(data) < Pow2(32) && Pow2(32) == 0x1_0000_0000
  {
    Pow32();
    if data != [] {
      RegisterBound(data[..|data| - 1]);
      XorBound(BitRegister(data[..|data| - 1]), data[|data| - 1], 32);
      StepsBound(Xor(BitRegister(data[..|data| - 1]), data[|data| - 1]), 8);
    }
  }

  lemma Cancel(p: nat, x: nat, y: nat)
    ensures Xor(Xor(p, x), Xor(p, y)) == Xor(x, y)
  {
    XorComm(p, x);
    XorAssoc(x, p, Xor(p, y));
    XorAssoc(p, p, y);
    XorSelf(p);
  }

  lemma Slide(p: nat, x: nat, y: nat)
    ensures Xor(x, Xor(p, y)) == Xor(p, Xor(x, y)) == Xor(Xor(p, x), y)
  {
    XorAssoc(x, p, y);
    XorComm(x, p);
    XorAssoc(p, x, y);
  }

  /** The shift is linear over exclusive-or. */
  lemma StepLinear(a: nat, b: nat)
    ensures BitStep(Xor(a, b)) == Xor(BitStep(a), BitStep(b))
  {
    XorBits(a, b);
    var x, y := a / 2, b / 2;
    Cancel(POLY, x, y);
    Slide(POLY, x, y);
  }

  lemma {:induction false} StepsLinear(a: nat, b: nat, k: nat)
    ensures Steps(Xor(a, b), k) == Xor(Steps(a, k), Steps(b, k))
  {
    if k > 0 {
      StepsLinear(a, b, k - 1);
      StepLinear(Steps(a, k - 1), Steps(b, k - 1));
    }
  }

  /** Bits above the low `k` just move down. */
  lemma {:induction false} HighBitsShift(h: nat, k: nat, n: nat)
    ensures Steps(Shl(h, k + n), k) == Shl(h, n)
    decreases k
  {
    if k > 0 { HighBitsShift(h, k - 1, n + 1); }
  }

  lemma ByteShifts(x: nat)
    ensures Shl(x, 8) == 0x100 * x && Shr(x, 8) == x / 0x100
  {
    assert Shl(x, 1) == 2 * x;
    assert Shl(x, 2) == 4 * x;
    assert Shl(x, 3) == 8 * x;
    assert Shl(x, 4) == 16 * x;
    assert Shl(x, 5) == 32 * x;
    assert Shl(x, 6) == 64 * x;
    assert Shl(x, 7) == 128 * x;
    assert Shr(x, 8) == x / 2 / 2 / 2 / 2 / 2 / 2 / 2 / 2;
  }

  /** Eight steps at once: a table entry for the low byte, the rest shifted down. */
  lemma TableStep(x: nat)
    ensures Steps(x, 8) == Xor(Steps(x % 0x100, 8), x / 0x100)
  {
    var h := x / 0x100;
    Pow32();
    ByteShifts(h);
    XorDisjoint(x % 0x100, h, 8);
    StepsLinear(x % 0x100, Shl(h, 8), 8);
    HighBitsShift(h, 8, 0);
  }

  lemma ByteStep(crc: nat, b: byte)
    ensures Steps(Xor(crc, b), 8) == Xor(Steps(Xor(crc, b) % 0x100, 8), crc / 0x100)
  {
    var x := Xor(crc, b);
    TableStep(x);
    XorShr(crc, b, 8);
    ByteShifts(x);
    ByteShifts(crc);
    ByteShifts(b);
    XorComm(crc / 0x100, 0);
  }

  /** The final exclusive-or complements the register. */
  lemma {:induction false} XorOnes(a: nat, k: nat)
    requires a < Pow2(k)
    ensures Xor(a, Pow2(k) - 1) == Pow2(k) - 1 - a
    decreases k
  {
    if k > 0 {
      XorBits(a, Pow2(k) - 1);
      XorOnes(a / 2, k - 1);
      XorComm(a, Pow2(k) - 1);
    }
  }

  /** Ones in the low byte cancel against a byte of ones, and the rest moves down. */
  lemma OnesByte(h: nat)
    ensures Steps(Xor(0xFF + 0x100 * h, 0xFF), 8) == h
  {
    hide Xor, Steps, Shl;
    var low: nat := 0xFF;
    Pow32();
    ByteShifts(h);
    XorDisjoint(low, h, 8);
    XorComm(low, Shl(h, 8));
    XorAssoc(Shl(h, 8), low, low);
    XorSelf(low);
    XorComm(Shl(h, 8), 0);
    XorZero(Shl(h, 8));
    HighBitsShift(h, 8, 0);
    assert Shl(h, 0) == h by { NoShift(h); }
  }

  lemma NoShift(a: nat)
    ensures Shl(a, 0) == a
  {
  }

  /** A set bit of a byte reaches the polynomial when it leaves at the bottom. */
  lemma TopBit()
    ensures Steps(0x80, 8) == POLY
  {
    HighBitsShift(1, 7, 0);
    assert Shl(1, 7) == 0x80 by { assert Shl(1, 3) == 8 && Shl(1, 7) == 16 * Shl(1, 3); }
    assert Steps(0x80, 7) == 1;
    XorComm(POLY, 0);
  }

  /** Known values: four bytes of ones empty the register, and one more bit shows the
      reflected polynomial of RFC 1952, complemented. */
  lemma KnownValues()
    ensures Crc32([0xFF, 0xFF, 0xFF, 0xFF]) == 0xFFFF_FFFF
    ensures Crc32([0xFF, 0xFF, 0xFF, 0xFF, 0x80]) == 0x1247_7CDF
  {
    hide Xor, Steps;
    var four: Bytes, five: Bytes := [0xFF, 0xFF, 0xFF, 0xFF], [0xFF, 0xFF, 0xFF, 0xFF, 0x80];
    assert four[..3] == [0xFF, 0xFF, 0xFF] && four[..3][..2] == [0xFF, 0xFF] && [0xFF, 0xFF][..1] == [0xFF] && [0xFF][..0] == [];
    OnesByte(0xFF_FFFF);
    OnesByte(0xFFFF);
    OnesByte(0xFF);
    OnesByte(0);
    assert BitRegister([0xFF]) == 0xFF_FFFF;
    assert BitRegister([0xFF, 0xFF]) == 0xFFFF;
    assert BitRegister([0xFF, 0xFF, 0xFF]) == 0xFF;
    assert BitRegister(four) == 0;
    assert five[..4] == four;
    XorZero(0x80);
    TopBit();
    assert BitRegister(five) == POLY;
    Pow32();
    XorOnes(0, 32);
    XorOnes(POLY, 32);
  }

  lemma XorZero(a: nat)
    ensures Xor(0, a) == a
  {
  }

  // ---- what the checksum detects ----

  lemma {:induction false} XorHigh(a: nat, b: nat, k: nat)
    requires b < Pow2(k) <= a
    ensures Xor(a, b) >= Pow2(k)
    decreases k
  {
    if k > 0 {
      XorBits(a, b);
      XorHigh(a / 2, b / 2, k - 1);
    } else {
      XorComm(a, 0);
      XorZero(a);
    }
  }

  lemma XorCancels(p: nat, x: nat, y: nat)
    requires Xor(p, x) == Xor(p, y)
    ensures x == y
  {
    XorAssoc(p, p, x);
    XorAssoc(p, p, y);
    XorSelf(p);
    XorZero(x);
    XorZero(y);
  }

  /** No two registers shift to the same one: the bit that left shows at the top. */
  lemma StepInjective(x: nat, y: nat)
    requires x < 0x1_0000_0000 && y < 0x1_0000_0000 && BitStep(x) == BitStep(y)
    ensures x == y
  {
    hide Xor;
    Pow32();
    XorHigh(POLY, x / 2, 31);
    XorHigh(POLY, y / 2, 31);
    if x % 2 == 1 && y % 2 == 1 { XorCancels(POLY, x / 2, y / 2); }
  }

  lemma {:induction false} StepsInjective(x: nat, y: nat, k: nat)
    requires x < 0x1_0000_0000 && y < 0x1_0000_0000 && Steps(x, k) == Steps(y, k)
    ensures x == y
  {
    hide BitStep;
    if k > 0 {
      Pow32();
      StepsBound(x, k - 1);
      StepsBound(y, k - 1);
      StepInjective(Steps(x, k - 1), Steps(y, k - 1));
      StepsInjective(x, y, k - 1);
    }
  }

  lemma XorByte(crc: nat, b: byte)
    requires crc < 0x1_0000_0000
    ensures Xor(crc, b) < 0x1_0000_0000
  {
    Pow32();
    XorBound(crc, b, 32);
  }

  /** The register tells apart byte strings that differ in one byte. */
  lemma {:induction false} RegisterDetects(data: Bytes, k: nat, b: byte)
    requires k < |data| && b != data[k]
    ensures BitRegister(data[k := b]) != BitRegister(data)
    decreases |data|
  {
    hide Steps, Xor;
    var n, other := |data| - 1, data[k := b];
    var init, init' := data[..n], other[..n];
    Pow32();
    RegisterBound(init);
    RegisterBound(init');
    var x, y := BitRegister(init), BitRegister(init');
    XorByte(x, data[n]);
    XorByte(y, other[n]);
    if BitRegister(other) == BitRegister(data) {
      StepsInjective(Xor(x, data[n]), Xor(y, other[n]), 8);
      if k == n {
        assert init' == init;
        XorCancels(x, data[n], b);
      } else {
        assert init' == init[k := b];
        RegisterDetects(init, k, b);
        XorComm(x, data[n]);
        XorComm(y, data[n]);
        XorCancels(data[n], x, y);
      }
    }
  }

  /** So does the checksum: every change of one byte is detected. */
  lemma OneByteDetected(data: Bytes, k: nat, b: byte)
    requires k < |data| && b != data[k]
    ensures Crc32(data[k := b]) != Crc32(data)
  {
    hide BitRegister, Xor;
    var x, y := BitRegister(data), BitRegister(data[k := b]);
    RegisterDetects(data, k, b);
    if Crc32(data[k := b]) == Crc32(data) {
      XorComm(x, 0xFFFF_FFFF);
      XorComm(y, 0xFFFF_FFFF);
      XorCancels(0xFFFF_FFFF, x, y);
    }
  }

  /** `dtl_crc32_build_table` */
  method BuildTable() returns (table: array<nat>)
    ensures fresh(table) && table.Length == 256
    ensures forall n | 0 <= n < 256 :: table[n] == Steps(n, 8)
  {
    table := new nat[256](_ => 0);
    for n := 0 to 256
      invariant forall m | 0 <= m < n :: table[m] == Steps(m, 8)
    {
      var c: nat := n;
      for k := 0 to 8
        invariant c == Steps(n, k)
      {
        c := if c % 2 == 1 then Xor(POLY, c / 2) else c / 2;
      }
      table[n] := c;
    }
  }

  lemma RegisterSnoc(data: Bytes, i: nat)
    requires i < |data|
    ensures var crc := BitRegister(data[..i]);
            BitRegister(data[..i + 1]) == Xor(Steps(Xor(crc, data[i]) % 0x100, 8), crc / 0x100)
  {
    var t := data[..i + 1];
    assert t[..|t| - 1] == data[..i] && t[|t| - 1] == data[i];
    ByteStep(BitRegister(data[..i]), data[i]);
  }

  /** The table-driven loop computes the bitwise CRC of every byte string. */
  method ComputeCrc32(data: Bytes) returns (r: u32)
    ensures r == Crc32(data)
  {
    var table := BuildTable();
    var crc: nat := 0xFFFF_FFFF;
    for i := 0 to |data|
      invariant crc == BitRegister(data[..i])
      invariant forall n | 0 <= n < 256 :: table[n] == Steps(n, 8)
    {
      RegisterSnoc(data, i);
      var index := Xor(crc, data[i]) % 0x100;
      crc := Xor(table[index], crc / 0x100);
    }
    assert data[..|data|] == data;
    RegisterBound(data);
    XorBound(crc, 0xFFFF_FFFF, 32);
    return Xor(crc, 0xFFFF_FFFF);
  }
}
