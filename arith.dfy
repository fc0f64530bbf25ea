/**
 * The pure parts of lib/testmc/mc6800/opimpl.py: wrapping increments, the
 * sign and zero tests, the condition-code formulas of the Motorola 6800
 * Programming Reference Manual (PRG), the shift and rotate values, the
 * TAP/TPA bit packing and the stack layout of a pushed word.
 *
 * Each formula is written as the source writes it; its ensures clause
 * states what it means arithmetically.
 */
module OpArith {
  import opened Bits
  import opened Memory

  /** `incbyte`: add a possibly negative addend, wrapping at $FF/$00. */
  function IncByte(byte: int, addend: int): (r: Byte)
    ensures (r - byte - addend) % 0x100 == 0
  {
    (byte + addend) % 0x100
  }

  /** `incword`: add a possibly negative addend, wrapping at $FFFF/$0000. */
  function IncWord(word: int, addend: int): (r: Word)
    ensures (r - word - addend) % 0x10000 == 0
  {
    (word + addend) % 0x10000
  }

  /** `isneg`: the sign bit (bit 7 of a byte, bit 15 of a word) is set. */
  function IsNeg(b: nat, signbit: nat): (r: bool)
    requires signbit == 7 || signbit == 15
    ensures signbit == 7 && b < 0x100 ==> (r <==> b >= 0x80)
    ensures signbit == 15 && b < 0x10000 ==> (r <==> b >= 0x8000)
  {
    Bit(b, if signbit == 7 then 0x80 else 0x8000)
  }

  /** `iszero`: on a byte or a word, true exactly when none of its 16 bits is set. */
  function IsZero(b: int): (r: bool)
    ensures 0 <= b < 0x10000 ==> (r <==> forall k :: 0 <= k < 16 ==> !Bit(b, Pow2(k)))
  {
    assert 0 < b < 0x10000 ==> exists k :: 0 <= k < 16 && Bit(b, Pow2(k)) by {
      if 0 < b < 0x10000 {
        Pow2Sixteen();
        SomeBitSet(b, 16);
      }
    }
    b == 0
  }

  /** 2^16 is the size of the address space. */
  lemma Pow2Sixteen()
    ensures Pow2(16) == 0x10000
  {
    assert Pow2(2) == 4;
    assert Pow2(4) == 16;
    assert Pow2(6) == 64;
    assert Pow2(8) == 0x100;
    assert Pow2(10) == 0x400;
    assert Pow2(12) == 0x1000;
    assert Pow2(14) == 0x4000;
  }

  /** A positive value below 2^k has one of its k low bits set. */
  lemma {:induction false} SomeBitSet(b: nat, k: nat)
    requires 0 < b < Pow2(k)
    ensures exists j :: 0 <= j < k && Bit(b, Pow2(j))
  {
    assert k > 0;
    var w := Pow2(k - 1);
    assert Pow2(k) == 2 * w;
    if b >= w {
      DivUnique(b, w, 1, b - w);
      assert Bit(b, Pow2(k - 1));
    } else {
      SomeBitSet(b, k - 1);
    }
  }

  /** A byte read as two's complement (`unpack('b', ...)` in `readsignedbyte`). */
  function Signed(v: Byte): (s: int)
    ensures -0x80 <= s < 0x80 && (s - v) % 0x100 == 0
  {
    if v >= 0x80 then v - 0x100 else v
  }

  // ---------------------------------------------------------------------
  // Condition codes of ADD and SUB/CMP as the PRG writes them

  /** Carry out of one bit position, from that bit of augend, addend and sum (PRG A-4, A-5). */
  function PrgAddCarry(x: bool, m: bool, r: bool): bool
  {
    (x && m) || (m && !r) || (!r && x)
  }

  /** Overflow of an addition, from bit 7 of augend, addend and sum (PRG A-5). */
  function PrgAddOverflow(x7: bool, m7: bool, r7: bool): bool
  {
    (x7 && m7 && !r7) || (!x7 && !m7 && r7)
  }

  /** Borrow of a subtraction, from bit 7 of minuend, subtrahend and difference (PRG A-31). */
  function PrgSubCarry(x7: bool, m7: bool, r7: bool): bool
  {
    (!x7 && m7) || (m7 && r7) || (r7 && !x7)
  }

  /** Overflow of a subtraction (PRG A-31). */
  function PrgSubOverflow(x7: bool, m7: bool, r7: bool): bool
  {
    (x7 && !m7 && !r7) || (!x7 && m7 && r7)
  }

  /** Bit 3 of a byte is bit 3 of its low nibble. */
  lemma Bit3OfLowNibble(v: Byte)
    ensures Bit(v, 8) <==> v % 0x10 >= 8
  {
  }

  /** The low nibble of a wrapped sum is the wrapped sum of the low nibbles. */
  lemma LowNibbleOfSum(augend: Byte, addend: Byte)
    ensures IncByte(augend, addend) % 0x10 == (augend % 0x10 + addend % 0x10) % 0x10
  {
    var q1, q2 := augend / 0x10, addend / 0x10;
    assert augend + addend == 0x10 * (q1 + q2) + (augend % 0x10 + addend % 0x10);
  }

  /** C of `addHNZVC`: the formula is exactly the carry out of the 8-bit sum. */
  function AddC(augend: Byte, addend: Byte): (c: bool)
    ensures c <==> augend + addend > 0xFF
  {
    PrgAddCarry(Bit(augend, 0x80), Bit(addend, 0x80), Bit(IncByte(augend, addend), 0x80))
  }

  /** H of `addHNZVC`: the same formula on bit 3 is the carry out of the low nibbles. */
  function AddH(augend: Byte, addend: Byte): (h: bool)
    ensures h <==> augend % 0x10 + addend % 0x10 > 0xF
  {
    var sum := IncByte(augend, addend);
    Bit3OfLowNibble(augend);
    Bit3OfLowNibble(addend);
    Bit3OfLowNibble(sum);
    LowNibbleOfSum(augend, addend);
    PrgAddCarry(Bit(augend, 8), Bit(addend, 8), Bit(sum, 8))
  }

  /** V of `addHNZVC`: the signed sum leaves -128..127. */
  function AddV(augend: Byte, addend: Byte): (v: bool)
    ensures v <==> !(-0x80 <= Signed(augend) + Signed(addend) < 0x80)
  {
    PrgAddOverflow(Bit(augend, 0x80), Bit(addend, 0x80), Bit(IncByte(augend, addend), 0x80))
  }

  /** C of `subNZVC`: the formula is exactly "a borrow was needed". */
  function SubC(minuend: Byte, subtrahend: Byte): (c: bool)
    ensures c <==> subtrahend > minuend
  {
    PrgSubCarry(Bit(minuend, 0x80), Bit(subtrahend, 0x80), Bit(IncByte(minuend, -(subtrahend as int)), 0x80))
  }

  /** V of `subNZVC`: the signed difference leaves -128..127. */
  function SubV(minuend: Byte, subtrahend: Byte): (v: bool)
    ensures v <==> !(-0x80 <= Signed(minuend) - Signed(subtrahend) < 0x80)
  {
    PrgSubOverflow(Bit(minuend, 0x80), Bit(subtrahend, 0x80), Bit(IncByte(minuend, -(subtrahend as int)), 0x80))
  }

  /** Z after a subtraction: the wrapped difference is zero exactly when the bytes are equal. */
  lemma ByteDifferenceZero(minuend: Byte, subtrahend: Byte)
    ensures IsZero(IncByte(minuend, -(subtrahend as int))) <==> minuend == subtrahend
  {
  }

  /**
   * Z after an increment or decrement: INX gives zero only from $FFFF, DEX
   * only from $0001, and DECB only from $01.
   */
  lemma ZeroAfterStep(x: Word, b: Byte)
    ensures IsZero(IncWord(x, 1)) <==> x == 0xFFFF
    ensures IsZero(IncWord(x, -1)) <==> x == 0x0001
    ensures IsZero(IncByte(b, -1)) <==> b == 0x01
  {
  }

  /** A word equals high:low exactly when its two bytes do. */
  lemma WordBytesEqual(w: Word, high: Byte, low: Byte)
    ensures w == high * 0x100 + low <==> w / 0x100 == high && w % 0x100 == low
  {
  }

  /** The two ADD cases the PRG tabulates: $7F+$01 and $FF+$01. */
  lemma AddExamples()
    ensures IncByte(0x7F, 0x01) == 0x80 && IsNeg(0x80, 7) && AddV(0x7F, 0x01) && AddH(0x7F, 0x01) && !AddC(0x7F, 0x01)
    ensures IncByte(0xFF, 0x01) == 0x00 && AddC(0xFF, 0x01) && !AddV(0xFF, 0x01)
  {
  }

  /** $00 - $01 = $FF with N and C set and V clear. */
  lemma SubExample()
    ensures IncByte(0x00, -0x01) == 0xFF && IsNeg(0xFF, 7) && SubC(0x00, 0x01) && !SubV(0x00, 0x01)
  {
  }

  /** `decb`'s V: "did bit 7 change?", which holds for $80 -> $7F and also for $00 -> $FF. */
  function DecbOverflow(b: Byte): (v: bool)
    ensures v <==> b == 0x00 || b == 0x80
  {
    Bit(b, 0x80) != Bit(IncByte(b, -1), 0x80)
  }

  /**
   * `&` on non-negative integers, one bit at a time from the bottom; `anda`
   * uses it on two bytes.
   */
  function BitAnd(p: nat, q: nat): (r: nat)
    ensures r <= p && r <= q
    ensures r % 2 == 1 <==> p % 2 == 1 && q % 2 == 1
    decreases p
  {
    if p == 0 || q == 0 then 0
    else
      var t := BitAnd(p / 2, q / 2);
      var low := if p % 2 == 1 && q % 2 == 1 then 1 else 0;
      ModUnique(2 * t + low, 2, t, low);
      2 * t + low
  }

  /** Bit k of `p & q` is set exactly when bit k is set in both. */
  lemma {:induction false} BitAndBit(p: nat, q: nat, k: nat)
    ensures Bit(BitAnd(p, q), Pow2(k)) <==> Bit(p, Pow2(k)) && Bit(q, Pow2(k))
  {
    var r := BitAnd(p, q);
    if p == 0 || q == 0 {
      assert r == 0;
      assert Pow2(k) > 0;
      assert 0 / Pow2(k) == 0;
    } else if k == 0 {
      assert Pow2(0) == 1;
      assert r / 1 == r && p / 1 == p && q / 1 == q;
    } else {
      var t := BitAnd(p / 2, q / 2);
      assert r == 2 * t + (p % 2) * (q % 2);
      DivUnique(r, 2, t, (p % 2) * (q % 2));
      BitAndBit(p / 2, q / 2, k - 1);
      HalveBit(p, k);
      HalveBit(q, k);
      HalveBit(r, k);
    }
  }

  /** 2 to the power k. */
  function Pow2(k: nat): (r: nat)
    ensures r > 0
  {
    if k == 0 then 1 else 2 * Pow2(k - 1)
  }

  /** Bit k+1 of v is bit k of v / 2. */
  lemma HalveBit(v: nat, k: nat)
    requires k > 0
    ensures Bit(v, Pow2(k)) == Bit(v / 2, Pow2(k - 1))
  {
    var w := Pow2(k - 1);
    assert Pow2(k) == 2 * w;
    HalfThenDiv(v, w);
  }

  /** Halving and then dividing by w is dividing by 2w. */
  lemma HalfThenDiv(v: nat, w: nat)
    requires w > 0
    ensures v / (2 * w) == (v / 2) / w
  {
    var half := v / 2;
    var b, r := half / w, half % w;
    assert half == w * b + r && r <= w - 1;
    assert (2 * w) * b == 2 * (w * b);
    assert v == (2 * w) * b + (2 * r + v % 2);
    DivUnique(v, 2 * w, b, 2 * r + v % 2);
  }

  /** The quotient is the unique q with v = d*q + r, 0 <= r < d. */
  lemma DivUnique(v: nat, d: nat, q: nat, r: nat)
    requires d > 0 && v == d * q + r && r < d
    ensures v / d == q
  {
    var q', r' := v / d, v % d;
    assert d * q + r == d * q' + r';
    if q > q' {
      assert d * q == d * q' + d * (q - q');
      MulAtLeast(d, q - q');
    } else if q < q' {
      assert d * q' == d * q + d * (q' - q);
      MulAtLeast(d, q' - q);
    }
  }

  /** The remainder is determined by any quotient-remainder split. */
  lemma ModUnique(v: nat, d: nat, q: nat, r: nat)
    requires d > 0 && v == d * q + r && r < d
    ensures v % d == r
  {
    DivUnique(v, d, q, r);
  }

  /** d * n >= d when n >= 1. */
  lemma MulAtLeast(d: nat, n: nat)
    requires n >= 1
    ensures d * n >= d
  {
    assert d * n == d + d * (n - 1);
  }

  // ---------------------------------------------------------------------
  // Shifts and rotates of an 8-bit register

  /** A shifted or rotated value and the bit shifted out into C. */
  datatype Shifted = Shifted(value: Byte, carry: bool)

  /** `asla`: the 9-bit result C:A is twice the old A. */
  function Asl(a: Byte): (r: Shifted)
    ensures 2 * a == 0x100 * IntOf(r.carry) + r.value
  {
    Shifted((a * 2) % 0x100, Bit(a, 0x80))
  }

  /** `rola`: C:A is twice the old A plus the old C. Bit 0 of the shifted value is clear, so `| C` adds C. */
  function Rol(a: Byte, c: bool): (r: Shifted)
    ensures 2 * a + IntOf(c) == 0x100 * IntOf(r.carry) + r.value
  {
    Shifted((a * 2) % 0x100 + IntOf(c), Bit(a, 0x80))
  }

  /** `lsra`: A:C is the old A, with a zero shifted into bit 7. */
  function Lsr(a: Byte): (r: Shifted)
    ensures a == 2 * r.value + IntOf(r.carry) && r.value < 0x80
  {
    Shifted(a / 2, Bit(a, 1))
  }

  /** `asra`: the signed value halves, rounding down; bit 7 is kept. */
  function Asr(a: Byte): (r: Shifted)
    ensures Signed(a) == 2 * Signed(r.value) + IntOf(r.carry)
  {
    Shifted(a / 2 + (if Bit(a, 0x80) then 0x80 else 0), Bit(a, 1))
  }

  /** `rora`: A:C is the old C:A. */
  function Ror(a: Byte, c: bool): (r: Shifted)
    ensures a + 0x100 * IntOf(c) == 2 * r.value + IntOf(r.carry)
  {
    Shifted(a / 2 + 0x80 * IntOf(c), Bit(a, 1))
  }

  /** ROLA then RORA gives back A and C, and so does RORA then ROLA. */
  lemma RotateInverse(a: Byte, c: bool)
    ensures Ror(Rol(a, c).value, Rol(a, c).carry) == Shifted(a, c)
    ensures Rol(Ror(a, c).value, Ror(a, c).carry) == Shifted(a, c)
  {
  }

  // ---------------------------------------------------------------------
  // The condition-code register

  /** The six flags H, I, N, Z, V, C. */
  datatype Flags = Flags(h: bool, i: bool, n: bool, z: bool, v: bool, c: bool)

  /** `tpa`: bits 7 and 6 set, then H, I, N, Z, V, C in bits 5..0 (the bits are disjoint, so `|` adds). */
  function PackFlags(f: Flags): (a: Byte)
    ensures a >= 0xC0
  {
    0xC0 + 0x20 * IntOf(f.h) + 0x10 * IntOf(f.i) + 0x08 * IntOf(f.n)
         + 0x04 * IntOf(f.z) + 0x02 * IntOf(f.v) + 0x01 * IntOf(f.c)
  }

  /**
   * `tap`: H, I, N, Z, V, C from bits 5..0 of A. Bits 7 and 6 are ignored and
   * nothing else is lost: packing the flags again gives back the low six bits.
   */
  function UnpackFlags(a: Byte): (f: Flags)
    ensures PackFlags(f) == 0xC0 + a % 0x40
  {
    IntOfBit(a, 0x20);
    IntOfBit(a, 0x10);
    IntOfBit(a, 0x08);
    IntOfBit(a, 0x04);
    IntOfBit(a, 0x02);
    IntOfBit(a, 0x01);
    LowSixBits(a);
    Flags(Bit(a, 32), Bit(a, 16), Bit(a, 8), Bit(a, 4), Bit(a, 2), Bit(a, 1))
  }

  /** TAP after TPA leaves all six flags as they were. */
  lemma TapAfterTpa(f: Flags)
    ensures UnpackFlags(PackFlags(f)) == f
  {
    var a := PackFlags(f);
    PackedH(f); PackedI(f); PackedN(f); PackedZ(f); PackedV(f); PackedC(f);
    assert UnpackFlags(a) == Flags(Bit(a, 32), Bit(a, 16), Bit(a, 8), Bit(a, 4), Bit(a, 2), Bit(a, 1));
  }

  /** Each flag sits at its own bit of the packed byte: H at bit 5 down to C at bit 0. */
  lemma PackedH(f: Flags)
    ensures Bit(PackFlags(f), 32) == f.h
  {
    var h, i, n, z, v, c := IntOf(f.h), IntOf(f.i), IntOf(f.n), IntOf(f.z), IntOf(f.v), IntOf(f.c);
    FlagBit(PackFlags(f), 0x20, 3, h, 0x10 * i + 0x08 * n + 0x04 * z + 0x02 * v + c);
  }

  lemma PackedI(f: Flags)
    ensures Bit(PackFlags(f), 16) == f.i
  {
    var h, i, n, z, v, c := IntOf(f.h), IntOf(f.i), IntOf(f.n), IntOf(f.z), IntOf(f.v), IntOf(f.c);
    FlagBit(PackFlags(f), 0x10, 6 + h, i, 0x08 * n + 0x04 * z + 0x02 * v + c);
  }

  lemma PackedN(f: Flags)
    ensures Bit(PackFlags(f), 8) == f.n
  {
    var h, i, n, z, v, c := IntOf(f.h), IntOf(f.i), IntOf(f.n), IntOf(f.z), IntOf(f.v), IntOf(f.c);
    FlagBit(PackFlags(f), 0x08, 12 + 2 * h + i, n, 0x04 * z + 0x02 * v + c);
  }

  lemma PackedZ(f: Flags)
    ensures Bit(PackFlags(f), 4) == f.z
  {
    var h, i, n, z, v, c := IntOf(f.h), IntOf(f.i), IntOf(f.n), IntOf(f.z), IntOf(f.v), IntOf(f.c);
    FlagBit(PackFlags(f), 0x04, 24 + 4 * h + 2 * i + n, z, 0x02 * v + c);
  }

  lemma PackedV(f: Flags)
    ensures Bit(PackFlags(f), 2) == f.v
  {
    var h, i, n, z, v, c := IntOf(f.h), IntOf(f.i), IntOf(f.n), IntOf(f.z), IntOf(f.v), IntOf(f.c);
    FlagBit(PackFlags(f), 0x02, 48 + 8 * h + 4 * i + 2 * n + z, v, c);
  }

  lemma PackedC(f: Flags)
    ensures Bit(PackFlags(f), 1) == f.c
  {
    var h, i, n, z, v, c := IntOf(f.h), IntOf(f.i), IntOf(f.n), IntOf(f.z), IntOf(f.v), IntOf(f.c);
    FlagBit(PackFlags(f), 0x01, 96 + 16 * h + 8 * i + 4 * n + 2 * z + v, c, 0);
  }

  /** A 0/1 digit b of weight w, above a remainder below w, is the bit of weight w. */
  lemma FlagBit(a: nat, w: nat, hi: nat, b: nat, lo: nat)
    requires w > 0 && b < 2 && lo < w && a == 2 * w * hi + w * b + lo
    ensures Bit(a, w) <==> b == 1
  {
    DivUnique(a, w, 2 * hi + b, lo);
    ModUnique(2 * hi + b, 2, hi, b);
  }

  /** A bit test read back as the 0 or 1 that bit holds. */
  lemma IntOfBit(v: nat, weight: nat)
    requires weight > 0
    ensures IntOf(Bit(v, weight)) == (v / weight) % 2
  {
  }

  /** The low six bits of a number, bit by bit. */
  lemma LowSixBits(a: nat)
    ensures a % 0x40 == 0x20 * ((a / 0x20) % 2) + 0x10 * ((a / 0x10) % 2) + 0x08 * ((a / 0x08) % 2)
                       + 0x04 * ((a / 0x04) % 2) + 0x02 * ((a / 0x02) % 2) + (a / 0x01) % 2
  {
    SplitBit5(a);
    SplitBit4(a);
    SplitBit3(a);
    SplitBit2(a);
    SplitBit1(a);
    assert a / 0x01 == a;
  }

  /** Peeling off bit 5, bit 4, ..., bit 1 of the low bits. */
  lemma SplitBit5(a: nat)
    ensures a % 0x40 == 0x20 * ((a / 0x20) % 2) + a % 0x20
  {
    var h := a / 0x20;
    assert h == 2 * (h / 2) + h % 2;
    ModUnique(a, 0x40, h / 2, 0x20 * (h % 2) + a % 0x20);
  }

  lemma SplitBit4(a: nat)
    ensures a % 0x20 == 0x10 * ((a / 0x10) % 2) + a % 0x10
  {
    var h := a / 0x10;
    assert h == 2 * (h / 2) + h % 2;
    ModUnique(a, 0x20, h / 2, 0x10 * (h % 2) + a % 0x10);
  }

  lemma SplitBit3(a: nat)
    ensures a % 0x10 == 0x08 * ((a / 0x08) % 2) + a % 0x08
  {
    var h := a / 0x08;
    assert h == 2 * (h / 2) + h % 2;
    ModUnique(a, 0x10, h / 2, 0x08 * (h % 2) + a % 0x08);
  }

  lemma SplitBit2(a: nat)
    ensures a % 0x08 == 0x04 * ((a / 0x04) % 2) + a % 0x04
  {
    var h := a / 0x04;
    assert h == 2 * (h / 2) + h % 2;
    ModUnique(a, 0x08, h / 2, 0x04 * (h % 2) + a % 0x04);
  }

  lemma SplitBit1(a: nat)
    ensures a % 0x04 == 0x02 * ((a / 0x02) % 2) + a % 0x02
  {
    var h := a / 0x02;
    assert h == 2 * (h / 2) + h % 2;
    ModUnique(a, 0x04, h / 2, 0x02 * (h % 2) + a % 0x02);
  }

  // ---------------------------------------------------------------------
  // Branch targets and the stack

  /** `readreloff` with PC at the offset byte: the address after it plus the signed offset. */
  function RelTarget(m: seq<Byte>, pc: Word): (t: Word)
    requires |m| == MemSize
    ensures (t - (pc + 1) - Signed(m[pc])) % 0x10000 == 0
  {
    IncWord(IncWord(pc, 1), Signed(m[pc]))
  }

  /** An offset of $FE branches back to the branch instruction's own opcode. */
  lemma SelfLoop(m: seq<Byte>, pc: Word)
    requires |m| == MemSize && m[pc] == 0xFE
    ensures RelTarget(m, pc) == IncWord(pc, -1)
  {
  }

  /**
   * The big-endian word at loc as `readword`, `ldxtarget` and `cpxz`/`cpxm`
   * read it: the second byte comes from loc+1 wrapped to $0000 after $FFFF.
   */
  function WordAtWrapping(m: seq<Byte>, loc: Word): (w: Word)
    requires |m| == MemSize
    ensures w / 0x100 == m[loc] && w % 0x100 == m[IncWord(loc, 1)]
    ensures loc < 0xFFFF ==> w == WordAt(m, loc)
  {
    (m[loc] as int) * 0x100 + m[IncWord(loc, 1)]
  }

  /** Memory after `pushword(w)` with SP at sp: the LSB at sp, then the MSB at sp-1. */
  function PushedWord(m: seq<Byte>, sp: Word, w: Word): (m': seq<Byte>)
    requires |m| == MemSize
    ensures |m'| == MemSize
    ensures m'[sp] == w % 0x100 && m'[IncWord(sp, -1)] == w / 0x100
    ensures forall k :: 0 <= k < MemSize && k != sp && k != IncWord(sp, -1) ==> m'[k] == m[k]
  {
    m[sp := w % 0x100][IncWord(sp, -1) := w / 0x100]
  }

  /** The word `popword` returns with SP at sp: the MSB from sp+1, then the LSB from sp+2. */
  function PoppedWord(m: seq<Byte>, sp: Word): (w: Word)
    requires |m| == MemSize
    ensures w / 0x100 == m[IncWord(sp, 1)] && w % 0x100 == m[IncWord(sp, 2)]
  {
    var msb := m[IncWord(sp, 1)];
    var lsb := m[IncWord(sp, 2)];
    (msb as int) * 0x100 + lsb
  }

  /** Popping a word right after pushing it gives the word back. */
  lemma PopAfterPush(m: seq<Byte>, sp: Word, w: Word)
    requires |m| == MemSize
    ensures PoppedWord(PushedWord(m, sp, w), IncWord(sp, -2)) == w
    ensures IncWord(IncWord(sp, -2), 2) == sp
  {
    var sp2 := IncWord(sp, -2);
    assert IncWord(sp2, 1) == IncWord(sp, -1);
    assert IncWord(sp2, 2) == sp;
    var m' := PushedWord(m, sp, w);
    assert m'[IncWord(sp2, 1)] == w / 0x100 && m'[IncWord(sp2, 2)] == w % 0x100;
  }
}
