/**
 Software subtraction of IEEE 754 binary64 magnitudes (bpf/common/float64.h).

 Magnitudes are measured as natural numbers in units of 2^-1074, the smallest
 positive binary64 value, so every statement below is exact integer arithmetic.
 */
module Float64 {
  import opened Words

  const HIDDEN: nat := 0x10_0000_0000_0000           // 2^52
  const SIGN: nat := 0x8000_0000_0000_0000           // 2^63
  const TOP: nat := 0x4000_0000_0000_0000            // 2^62, the aligned hidden bit
  const WORD: nat := 0x1_0000_0000_0000_0000         // 2^64
  const EXP_SPECIAL: nat := 0x7FF
  const ONE_EXP: nat := 1074                         // 1.0 is 2^1074 units
  const ALL_ONES: u64 := 0xFFFF_FFFF_FFFF_FFFF

  function Frac(a: u64): nat { a % HIDDEN }
  function Exp(a: u64): nat { (a / HIDDEN) % 0x800 }
  function Sign(a: u64): nat { a / SIGN }

  function Pack(zSign: nat, zExp: int, zSig: nat): u64 {
    (zSign * SIGN + zExp * HIDDEN + zSig) % WORD
  }

  // ---------------------------------------------------------------- meaning

  predicate Finite(a: u64) { Exp(a) != EXP_SPECIAL }
  predicate IsNaN(a: u64) { Exp(a) == EXP_SPECIAL && Frac(a) != 0 }
  predicate IsInfinite(a: u64) { Exp(a) == EXP_SPECIAL && Frac(a) == 0 }

  function Significand(a: u64): nat { if Exp(a) == 0 then Frac(a) else HIDDEN + Frac(a) }
  function EffectiveExp(a: u64): (e: nat)
    ensures e >= 1
  {
    if Exp(a) == 0 then 1 else Exp(a)
  }

  /** |a| in units of 2^-1074. */
  function Magnitude(a: u64): nat {
    Significand(a) * Pow2(EffectiveExp(a) - 1)
  }

  /** The exact magnitude of the difference. */
  function Delta(a: u64, b: u64): nat {
    if Magnitude(a) >= Magnitude(b) then Magnitude(a) - Magnitude(b) else Magnitude(b) - Magnitude(a)
  }

  /** `r` is `d` rounded toward zero: the largest finite magnitude that does not exceed it. */
  ghost predicate Truncates(r: u64, d: nat) {
    && Finite(r)
    && Magnitude(r) <= d
    && forall x: u64 :: Finite(x) && Magnitude(x) <= d ==> Magnitude(x) <= Magnitude(r)
  }

  function DifferenceSign(a: u64, b: u64, zSign: nat): nat
    requires zSign < 2
  {
    if Magnitude(a) > Magnitude(b) then zSign
    else if Magnitude(a) < Magnitude(b) then 1 - zSign
    else 0
  }

  /** `r` is the correctly signed and truncated difference of the magnitudes. */
  ghost predicate IsDifference(a: u64, b: u64, zSign: nat, r: u64)
    requires zSign < 2
  {
    Truncates(r, Delta(a, b)) && Sign(r) == DifferenceSign(a, b, zSign)
  }

  // ------------------------------------------------- shift with sticky bit

  function OrOne(z: nat, bit: bool): (r: nat) {
    if bit && z % 2 == 0 then z + 1 else z
  }

  /** Right shift that keeps the lost bits in the lowest bit. */
  function Jam(a: nat, p: nat): (z: nat)
    requires p > 0
  {
    DivMod(a, p);
    OrOne(a / p, a % p != 0)
  }

  /** The bits a left shift by 64 - count keeps are exactly those a right shift by count loses. */
  lemma LostBits(a: nat, p: nat, q: nat)
    requires p > 0 && q > 0 && p * q == WORD
    ensures (a * q) % WORD != 0 <==> a % p != 0
  {
    DivMod(a, p);
    var hi, lo := a / p, a % p;
    assert a * q == hi * WORD + lo * q by {
      assert (hi * p + lo) * q == hi * (p * q) + lo * q;
    }
    MulMonotone(lo + 1, p, q);
    assert (lo + 1) * q == lo * q + q;
    DivUnique(a * q, WORD, hi, lo * q);
    if lo > 0 { MulMonotone(1, lo, q); }
  }

  method ShiftRightJamming(a: u64, count: nat) returns (z: u64)
    ensures z == Jam(a, Pow2(count))
  {
    var p := Pow2(count);
    DivMod(a, p);
    if count == 0 {
      z := a;
    } else if count < 64 {
      var q := Pow2(64 - count);
      assert p * q == WORD by {
        Pow2Add(count, 64 - count);
        Pow2Word();
      }
      LostBits(a, p, q);
      HalfAtMost(a, p);
      z := OrOne(a / p, (a * q) % WORD != 0);
    } else {
      Pow2Word();
      Pow2Monotone(64, count);
      DivUnique(a, p, 0, a);
      z := if a != 0 then 1 else 0;
    }
  }

  lemma HalfAtMost(a: nat, p: nat)
    requires p >= 2
    ensures 0 <= a / p <= a / 2
  {
    DivMod(a, p);
    MulMonotone(2, p, a / p);
  }

  // ------------------------------------------------------ leading zero bits

  /** Leading zeros of each possible high byte. */
  const LEADING_ZEROS: seq<byte> :=
    [8, 7] + Repeat(6, 2) + Repeat(5, 4) + Repeat(4, 8) + Repeat(3, 16) + Repeat(2, 32) +
    Repeat(1, 64) + Repeat(0, 128)

  lemma TableCounts(h: byte)
    requires h > 0
    ensures |LEADING_ZEROS| == 256
    ensures LEADING_ZEROS[h] < 8
    ensures 128 <= h * Pow2(LEADING_ZEROS[h]) < 256
  {
    Pow2UpTo8();
  }

  /** `c` is the number of leading zeros of the nonzero `x` in a word of `width` bits. */
  ghost predicate LeadingZeros(x: nat, c: nat, width: nat) {
    c < width && Pow2(width - 1) <= x * Pow2(c) < Pow2(width)
  }

  method CountLeadingZeros32(x: u32) returns (c: nat)
    ensures x == 0 ==> c == 32
    ensures x > 0 ==> LeadingZeros(x, c, 32)
  {
    var a: u32 := x;
    c := 0;
    Pow2UpTo8();
    Pow2Bytes();
    if a < 0x1_0000 {
      c := c + 16;
      a := a * 0x1_0000;
    }
    if a < 0x100_0000 {
      c := c + 8;
      a := a * 0x100;
    }
    assert a == x * Pow2(c);
    var high: byte := a / 0x100_0000;
    assert |LEADING_ZEROS| == 256;
    var t := LEADING_ZEROS[high];
    if x > 0 {
      TableCounts(high);
      HighByte(a, Pow2(t));
      assert x * Pow2(c + t) == a * Pow2(t) by {
        Pow2Add(c, t);
        Associate(x, Pow2(c), Pow2(t));
      }
    }
    c := c + t;
  }

  lemma Associate(x: nat, y: nat, z: nat)
    ensures x * (y * z) == (x * y) * z
  {
  }

  /** Scaling by a power of two below 256 acts on a word through its high byte. */
  lemma HighByte(a: nat, t: nat)
    requires t in {1, 2, 4, 8, 16, 32, 64, 128}
    requires 128 <= (a / 0x100_0000) * t < 256
    ensures 0x8000_0000 <= a * t < 0x1_0000_0000
  {
  }

  method CountLeadingZeros64(x: u64) returns (c: nat)
    ensures x == 0 ==> c == 64
    ensures x > 0 ==> LeadingZeros(x, c, 64)
  {
    c := 0;
    var a := x;
    if a < 0x1_0000_0000 {
      c := c + 32;
    } else {
      a := a / 0x1_0000_0000;
    }
    var low := CountLeadingZeros32(a);
    if x > 0 {
      JoinWord(x, a, c, low);
    }
    c := c + low;
  }

  lemma JoinWord(x: nat, a: nat, c: nat, low: nat)
    requires 0 < x && LeadingZeros(a, low, 32)
    requires (c == 32 && a == x) || (c == 0 && a == x / 0x1_0000_0000)
    ensures LeadingZeros(x, c + low, 64)
  {
    if c == 32 {
      SplitWord(x * 0x1_0000_0000, x, 0, low);
      ShiftWord(x, low);
    } else {
      SplitWord(x, a, x % 0x1_0000_0000, low);
    }
  }

  lemma ShiftWord(x: nat, c: nat)
    ensures x * Pow2(32 + c) == x * 0x1_0000_0000 * Pow2(c)
  {
    Pow2Bytes();
    Pow2Add(32, c);
    Associate(x, Pow2(32), Pow2(c));
  }

  lemma SplitWord(x: nat, hi: nat, lo: nat, c: nat)
    requires x == hi * 0x1_0000_0000 + lo
    requires lo < 0x1_0000_0000 && LeadingZeros(hi, c, 32)
    ensures Pow2(63) <= x * Pow2(c) < Pow2(64)
  {
    Pow2Word();
    Pow2Bytes();
    assert Pow2(c) * Pow2(32 - c) == 0x1_0000_0000 by { Pow2Add(c, 32 - c); }
    ScaleHalves(x, hi, lo, Pow2(c), Pow2(32 - c));
  }

  lemma ScaleHalves(x: nat, hi: nat, lo: nat, p: nat, top: nat)
    requires x == hi * 0x1_0000_0000 + lo
    requires lo < 0x1_0000_0000 && p > 0 && p * top == 0x1_0000_0000
    requires 0x8000_0000 <= hi * p < 0x1_0000_0000
    ensures SIGN <= x * p < WORD
  {
    assert hi < top by {
      if hi >= top { MulMonotone(top, hi, p); }
    }
    MulMonotone(hi + 1, top, p);
    assert (hi + 1) * p == hi * p + p;
    MulMonotone(lo + 1, 0x1_0000_0000, p);
    assert (lo + 1) * p == lo * p + p;
    assert (hi * 0x1_0000_0000 + lo) * p == (hi * p) * 0x1_0000_0000 + lo * p;
  }

  // ------------------------------------------------- normalise and subtract

  /** What normalisation yields for a nonzero aligned significand. */
  ghost predicate Normalised(zSig: nat, shift: nat, q: nat) {
    && TOP <= zSig * Pow2(shift) < SIGN
    && q * 0x400 <= zSig * Pow2(shift) < (q + 1) * 0x400
    && HIDDEN <= q < 2 * HIDDEN
  }

  method NormalizeAndPack(zSign: nat, zExp0: int, zSig0: nat) returns (r: u64, ghost shift: nat, ghost q: nat)
    requires zSign < 2 && 0 < zSig0 < SIGN
    ensures Normalised(zSig0, shift, q) && shift < 63
    ensures r == Pack(zSign, zExp0 - shift, q)
  {
    var zeros := CountLeadingZeros64(zSig0);
    HalveScaled(zSig0, zeros);
    var shiftCount := zeros - 1;
    var zExp := zExp0;
    var zSig := (zSig0 * Pow2(shiftCount)) % WORD;
    DivUnique(zSig0 * Pow2(shiftCount), WORD, 0, zSig0 * Pow2(shiftCount));
    zSig := zSig / 0x400;
    if zSig == 0 {
      zExp := 0;
    }
    r := Pack(zSign, zExp - shiftCount, zSig);
    shift, q := shiftCount, zSig;
  }

  lemma HalveScaled(z: nat, c: nat)
    requires 0 < z < SIGN && LeadingZeros(z, c, 64)
    ensures c > 0 && TOP <= z * Pow2(c - 1) < SIGN
  {
    Pow2Word();
    if c == 0 {
      assert false;
    }
    Regroup(z, 2, Pow2(c - 1));
    Associate(z, 2, Pow2(c - 1));
  }

  // ------------------------------------ why the sticky bit never matters

  /** `zSig` is the aligned difference the code forms for the larger operand minus the smaller. */
  ghost predicate Aligned(big: u64, small: u64, zSig: nat) {
    var d := EffectiveExp(big) - EffectiveExp(small);
    && d >= 0
    && (d > 0 ==> Significand(big) >= HIDDEN)
    && 0 < zSig == Significand(big) * 0x400 - Jam(Significand(small) * 0x400, Pow2(d))
  }

  /** Magnitude(big) - Magnitude(small), factored over the smaller exponent. */
  lemma Factor(big: u64, small: u64)
    requires EffectiveExp(small) <= EffectiveExp(big)
    ensures Magnitude(big) == (Significand(big) * Pow2(EffectiveExp(big) - EffectiveExp(small)))
                              * Pow2(EffectiveExp(small) - 1)
  {
    var d, s := EffectiveExp(big) - EffectiveExp(small), EffectiveExp(small) - 1;
    Pow2Add(d, s);
    Associate(Significand(big), Pow2(d), Pow2(s));
  }

  lemma Distribute(x: int, y: int, z: int)
    ensures (x - y) * z == x * z - y * z
  {
  }

  lemma Regroup(x: int, y: int, z: int)
    ensures x * y * z == x * z * y
  {
  }

  lemma ScaledBounds(lo: nat, v: nat, hi: nat, p: nat)
    requires lo <= v < hi && p > 0
    ensures lo * p <= v * p < hi * p
  {
    MulMonotone(lo, v, p);
    MulMonotone(v + 1, hi, p);
    assert (v + 1) * p == v * p + p;
  }

  lemma JamOfMultiple(m: nat, p: nat, c: nat)
    requires p > 0 && p * c == 0x400
    ensures (m * 0x400) % p == 0 && Jam(m * 0x400, p) * p == m * 0x400
  {
    assert m * (p * c) == (m * c) * p by { Associate(m, c, p); }
    DivUnique(m * 0x400, p, m * c, 0);
  }

  /** Small shifts lose nothing: 1024 already supplies the zero bits. */
  lemma ShortShiftExact(m: nat, d: nat)
    requires d <= 10
    ensures (m * 0x400) % Pow2(d) == 0
    ensures Jam(m * 0x400, Pow2(d)) * Pow2(d) == m * 0x400
  {
    var p, c := Pow2(d), Pow2(10 - d);
    assert p * c == 0x400 by {
      Pow2Add(d, 10 - d);
      Pow2UpTo8();
      Pow2Add(8, 2);
    }
    JamOfMultiple(m, p, c);
  }

  lemma ExactCore(z: nat, unit: nat, pShift: nat, q: nat, delta: nat)
    requires unit > 0 && z * (unit * pShift) == 0x400 * delta
    requires q * 0x400 <= z * pShift < (q + 1) * 0x400
    ensures q * unit <= delta < (q + 1) * unit
  {
    assert z * pShift * unit == 0x400 * delta by {
      Associate(z, unit, pShift);
      Regroup(z, unit, pShift);
    }
    ScaledBounds(q * 0x400, z * pShift, (q + 1) * 0x400, unit);
    Regroup(q, 0x400, unit);
    Regroup(q + 1, 0x400, unit);
  }

  /** Truncating to an even grid cannot see whether the lowest bit was jammed. */
  lemma StickyCore(m: nat, x: nat, p: nat, grid: nat, q: nat)
    requires p > 0 && x % p != 0 && m % 2 == 0 && grid % 2 == 0
    requires 0 <= m - Jam(x, p)
    requires q * grid <= m - Jam(x, p) < (q + 1) * grid
    ensures q * grid * p <= m * p - x < (q + 1) * grid * p
  {
    DivMod(x, p);
    var y := x / p;
    var floor := m - y - 1;
    assert (q * grid) % 2 == 0 by { EvenMultiple(q, grid); }
    assert q * grid <= floor;
    assert floor + 1 <= (q + 1) * grid;
    Distribute(m, y, p);
    assert m * p - x == (m - y) * p - x % p;
    assert (m - y) * p == floor * p + p by { Distribute(m - y, 1, p); }
    MulMonotone(q * grid, floor, p);
    MulMonotone(floor + 1, (q + 1) * grid, p);
  }

  lemma EvenMultiple(q: nat, grid: nat)
    requires grid % 2 == 0
    ensures (q * grid) % 2 == 0
  {
    var h := grid / 2;
    assert q * (2 * h) == 2 * (q * h);
  }

  /** Without lost bits the aligned difference is the exact one. */
  lemma ExactAlignment(big: u64, small: u64, zSig: nat)
    requires Aligned(big, small, zSig) && EffectiveExp(big) - EffectiveExp(small) <= 10
    ensures Magnitude(small) < Magnitude(big)
    ensures zSig * Pow2(EffectiveExp(big) - 1) == 0x400 * (Magnitude(big) - Magnitude(small))
  {
    var d, s := EffectiveExp(big) - EffectiveExp(small), EffectiveExp(small) - 1;
    var mb, ms, p := Significand(big), Significand(small), Pow2(d);
    ShortShiftExact(ms, d);
    Factor(big, small);
    Pow2Add(d, s);
    ExactScale(zSig, mb, ms, Jam(ms * 0x400, p), p, Pow2(s));
  }

  lemma ExactScale(z: nat, mb: nat, ms: nat, jam: nat, p: nat, u: nat)
    requires 0 < z == mb * 0x400 - jam && jam * p == ms * 0x400 && p > 0 && u > 0
    ensures ms * u < mb * p * u
    ensures z * (p * u) == 0x400 * (mb * p * u - ms * u)
  {
    assert z * p == 0x400 * (mb * p - ms) by {
      Distribute(mb * 0x400, jam, p);
      Regroup(mb, 0x400, p);
    }
    Associate(z, p, u);
    var w := mb * p - ms;
    assert z * p >= 1 by { MulMonotone(1, z, p); }
    assert z * p * u == 0x400 * (w * u) by { Associate(0x400, w, u); }
    Distribute(mb * p, ms, u);
    MulMonotone(1, w, u);
  }

  /** A long alignment shift leaves the leading bit in place or one below. */
  lemma LongShiftIsNearlyNormal(big: u64, small: u64, zSig: nat, shift: nat)
    requires Aligned(big, small, zSig) && EffectiveExp(big) - EffectiveExp(small) >= 2
    requires zSig * Pow2(shift) < SIGN
    ensures shift <= 1
  {
    var d := EffectiveExp(big) - EffectiveExp(small);
    var x, p := Significand(small) * 0x400, Pow2(d);
    Pow2Monotone(2, d);
    Pow2UpTo8();
    DivMod(x, p);
    MulMonotone(4, p, x / p);
    assert Jam(x, p) <= TOP / 2;
    assert zSig >= TOP / 2;
    if shift >= 2 {
      Pow2Monotone(2, shift);
      MulMonotone(TOP / 2, zSig, Pow2(shift));
    }
  }

  /** Nothing lost: the aligned difference is exact. */
  lemma WholeGrid(big: nat, small: nat, p: nat, lo: nat, hi: nat)
    requires p > 0 && small % p == 0 && lo <= big - Jam(small, p) < hi
    ensures lo * p <= big * p - small < hi * p
  {
    DivMod(small, p);
    ScaledBounds(lo, big - Jam(small, p), hi, p);
    Distribute(big, Jam(small, p), p);
  }

  /** Lost bits: the truncated significand is that of the exact aligned difference. */
  lemma StickyGrid(mb: nat, ms: nat, p: nat, grid: nat, q: nat)
    requires p > 0 && grid % 2 == 0
    requires 0 <= mb * 0x400 - Jam(ms * 0x400, p)
    requires q * grid <= mb * 0x400 - Jam(ms * 0x400, p) < (q + 1) * grid
    ensures q * grid * p <= 0x400 * (mb * p - ms) < (q + 1) * grid * p
  {
    hide Jam;
    assert mb * 0x400 * p - ms * 0x400 == 0x400 * (mb * p - ms) by { Regroup(mb, 0x400, p); }
    if (ms * 0x400) % p != 0 {
      StickyCore(mb * 0x400, ms * 0x400, p, grid, q);
    } else {
      WholeGrid(mb * 0x400, ms * 0x400, p, q * grid, (q + 1) * grid);
    }
  }

  lemma StickyAlignment(big: u64, small: u64, zSig: nat, shift: nat, q: nat)
    requires Aligned(big, small, zSig) && Normalised(zSig, shift, q)
    requires EffectiveExp(big) - EffectiveExp(small) > 10
    ensures shift < EffectiveExp(big) && Magnitude(small) < Magnitude(big)
    ensures q * Pow2(EffectiveExp(big) - 1 - shift) <= Magnitude(big) - Magnitude(small)
    ensures Magnitude(big) - Magnitude(small) < (q + 1) * Pow2(EffectiveExp(big) - 1 - shift)
  {
    var d, s := EffectiveExp(big) - EffectiveExp(small), EffectiveExp(small) - 1;
    var mb, ms, p := Significand(big), Significand(small), Pow2(d);
    LongShiftIsNearlyNormal(big, small, zSig, shift);
    var grid := if shift == 0 then 0x400 else 0x200;
    assert q * grid <= zSig < (q + 1) * grid by { Pow2UpTo8(); }
    StickyGrid(mb, ms, p, grid, q);
    Factor(big, small);
    Rescale(mb * p, ms, q, grid, shift, d, s);
  }

  lemma Rescale(x: nat, y: nat, q: nat, grid: nat, shift: nat, d: nat, s: nat)
    requires shift <= 1 <= d && grid == (if shift == 0 then 0x400 else 0x200) && q > 0
    requires q * grid * Pow2(d) <= 0x400 * (x - y) < (q + 1) * grid * Pow2(d)
    ensures y * Pow2(s) < x * Pow2(s)
    ensures q * Pow2(d + s - shift) <= x * Pow2(s) - y * Pow2(s) < (q + 1) * Pow2(d + s - shift)
  {
    var u := Pow2(s);
    GridUnit(q, grid, shift, d, s);
    GridUnit(q + 1, grid, shift, d, s);
    assert x - y >= 0;
    ScaledBounds(q * grid * Pow2(d), 0x400 * (x - y), (q + 1) * grid * Pow2(d), u);
    Associate(0x400, x - y, u);
    Distribute(x, y, u);
    MulMonotone(1, q, Pow2(d + s - shift));
  }

  lemma GridUnit(q: nat, grid: nat, shift: nat, d: nat, s: nat)
    requires shift <= 1 <= d && grid == (if shift == 0 then 0x400 else 0x200)
    ensures q * grid * Pow2(d) * Pow2(s) == 0x400 * (q * Pow2(d + s - shift))
  {
    Pow2Add(d, s);
    Associate(q * grid, Pow2(d), Pow2(s));
    Regroup(q, grid, Pow2(d + s));
    if shift == 1 {
      assert Pow2(d + s) == 2 * Pow2(d + s - 1);
      Associate(q, 2, Pow2(d + s - 1));
      Regroup(q, 2, Pow2(d + s - 1));
    }
  }

  /** The packed significand brackets the exact difference whenever its exponent is positive. */
  lemma Bracket(big: u64, small: u64, zSig: nat, shift: nat, q: nat)
    requires Aligned(big, small, zSig) && Normalised(zSig, shift, q)
    requires shift < EffectiveExp(big)
    ensures Magnitude(small) < Magnitude(big)
    ensures q * Pow2(EffectiveExp(big) - 1 - shift) <= Magnitude(big) - Magnitude(small)
    ensures Magnitude(big) - Magnitude(small) < (q + 1) * Pow2(EffectiveExp(big) - 1 - shift)
  {
    var e := EffectiveExp(big);
    if e - EffectiveExp(small) <= 10 {
      ExactAlignment(big, small, zSig);
      Pow2Add(e - 1 - shift, shift);
      ExactCore(zSig, Pow2(e - 1 - shift), Pow2(shift), q, Magnitude(big) - Magnitude(small));
    } else {
      StickyAlignment(big, small, zSig, shift, q);
    }
  }

  /** With no positive exponent left, the code has shifted the exact difference too far. */
  lemma Overshift(big: u64, small: u64, zSig: nat, shift: nat, q: nat)
    requires Aligned(big, small, zSig) && Normalised(zSig, shift, q)
    requires shift >= EffectiveExp(big)
    ensures Magnitude(small) < Magnitude(big)
    ensures q == (Magnitude(big) - Magnitude(small)) * Pow2(shift - EffectiveExp(big) + 1)
  {
    var e := EffectiveExp(big);
    if e - EffectiveExp(small) > 10 {
      StickyAlignment(big, small, zSig, shift, q);
      assert false;
    }
    ExactAlignment(big, small, zSig);
    var delta, over := Magnitude(big) - Magnitude(small), Pow2(shift - e + 1);
    Pow2Add(e - 1, shift - e + 1);
    Associate(zSig, Pow2(e - 1), over);
    Associate(0x400, delta, over);
  }

  // --------------------------------------------------------- the result

  lemma PackedFields(zSign: nat, e: int, f: nat, r: u64)
    requires zSign < 2 && f < HIDDEN && -0x800 < e < 0x800
    requires r == Pack(zSign, e - 1, HIDDEN + f)
    ensures Frac(r) == f
    ensures e >= 0 ==> Exp(r) == e && Sign(r) == zSign
    ensures e < 0 ==> Exp(r) == 0x800 + e
  {
    var v := zSign * 0x800 + e;
    assert zSign * SIGN + (e - 1) * HIDDEN + (HIDDEN + f) == v * HIDDEN + f;
    if v >= 0 {
      assert r == v * HIDDEN + f;
    } else {
      assert r == (v + 0x1000) * HIDDEN + f;
    }
  }

  lemma ScaledAtLeast(x: nat, p: nat, q: nat)
    requires p <= q
    ensures x * p <= x * q
  {
  }

  /** A 53-bit significand whose unit brackets `d` is `d` rounded toward zero. */
  lemma BracketTruncates(r: u64, d: nat)
    requires Finite(r) && Exp(r) >= 1
    requires Magnitude(r) <= d < (Significand(r) + 1) * Pow2(Exp(r) - 1)
    ensures Truncates(r, d)
  {
    hide Magnitude, Pow2, Exp, Significand;
    forall x: u64 | Finite(x) && Magnitude(x) <= d
      ensures Magnitude(x) <= Magnitude(r)
    {
      BracketBounds(r, d, x);
    }
  }

  /** No magnitude lies between one 53-bit significand and the next. */
  lemma BracketBounds(r: u64, d: nat, x: u64)
    requires Exp(r) >= 1 && Magnitude(x) <= d < (Significand(r) + 1) * Pow2(Exp(r) - 1)
    ensures Magnitude(x) <= Magnitude(r)
  {
    var e, ex := Exp(r), EffectiveExp(x);
    if ex < e {
      MagnitudeOrder(x, r);
    } else {
      var unit := Pow2(e - 1);
      assert Magnitude(x) == Significand(x) * Pow2(ex - e) * unit by {
        Pow2Add(ex - e, e - 1);
        Associate(Significand(x), Pow2(ex - e), unit);
      }
      NoMultipleBetween(Significand(x) * Pow2(ex - e), Significand(r), unit, d);
    }
  }

  lemma NoMultipleBetween(k: nat, m: nat, unit: nat, d: nat)
    requires k * unit <= d < (m + 1) * unit
    ensures k * unit <= m * unit
  {
    if k > m {
      MulMonotone(m + 1, k, unit);
    } else {
      MulMonotone(k, m, unit);
    }
  }

  /** A positive exponent: the packed word is the truncated difference. */
  lemma PackedNormal(big: u64, small: u64, zSig: nat, shift: nat, q: nat, sign: nat, r: u64)
    requires Finite(big) && Finite(small) && sign < 2 && shift < EffectiveExp(big)
    requires Aligned(big, small, zSig) && Normalised(zSig, shift, q)
    requires r == Pack(sign, EffectiveExp(big) - 1 - shift, q)
    ensures Magnitude(small) < Magnitude(big)
    ensures Truncates(r, Delta(big, small)) && Sign(r) == sign && Delta(big, small) >= HIDDEN
  {
    hide Aligned, Pow2, Truncates, Frac, Sign, Pack;
    var e := EffectiveExp(big) - shift;
    PackedFields(sign, e, q - HIDDEN, r);
    Bracket(big, small, zSig, shift, q);
    BracketTruncates(r, Delta(big, small));
    ScaledAtLeast(q, 1, Pow2(e - 1));
  }

  /** No positive exponent: the difference is subnormal and the packed word misses it. */
  lemma PackedSubnormal(big: u64, small: u64, zSig: nat, shift: nat, q: nat, sign: nat, r: u64)
    requires Finite(big) && Finite(small) && sign < 2 && EffectiveExp(big) <= shift < 63
    requires Aligned(big, small, zSig) && Normalised(zSig, shift, q)
    requires r == Pack(sign, EffectiveExp(big) - 1 - shift, q)
    ensures Magnitude(small) < Magnitude(big)
    ensures !Truncates(r, Delta(big, small)) && Delta(big, small) < HIDDEN
  {
    hide Aligned, Pow2, Truncates, Frac, Sign, Pack, Magnitude;
    var e := EffectiveExp(big) - shift;
    PackedFields(sign, e, q - HIDDEN, r);
    Overshift(big, small, zSig, shift, q);
    var delta := Delta(big, small);
    TooSmall(delta, q, 1 - e);
    assert Pow2(1) == 2 by { Pow2UpTo8(); }
    MissesSubnormal(r, delta, e, q);
  }

  lemma MissesSubnormal(r: u64, delta: nat, e: int, q: nat)
    requires 0 < delta < HIDDEN && -0x800 < e <= 0 && HIDDEN <= q < 2 * HIDDEN
    requires e == 0 ==> q == 2 * delta && Exp(r) == 0 && Frac(r) == q - HIDDEN
    requires e < 0 ==> Exp(r) == 0x800 + e
    ensures !Truncates(r, delta)
  {
    assert Magnitude(delta) == delta by { Pow2UpTo8(); }
    if e == 0 {
      Pow2UpTo8();
    } else {
      ScaledAtLeast(Significand(r), 1, Pow2(Exp(r) - 1));
    }
  }

  lemma TooSmall(delta: nat, q: nat, n: nat)
    requires n >= 1 && q == delta * Pow2(n) && HIDDEN <= q < 2 * HIDDEN
    ensures 0 < delta < HIDDEN
  {
    Pow2Monotone(1, n);
    Pow2UpTo8();
    ScaledAtLeast(delta, 2, Pow2(n));
  }

  /** The smaller operand, once aligned, stays below the aligned hidden bit. */
  lemma JamBelow(x: nat, d: nat)
    requires x < (if d == 0 then TOP else SIGN)
    ensures Jam(x, Pow2(d)) < TOP
  {
    if d == 0 {
      JamByZero(x);
    } else {
      Pow2UpTo8();
      Pow2Monotone(1, d);
      HalfAtMost(x, Pow2(d));
    }
  }

  lemma JamByZero(x: nat)
    ensures Jam(x, Pow2(0)) == x
  {
  }

  /** Different exponents: set the hidden bits, then shift the smaller operand into place. */
  lemma AlignExponents(big: u64, small: u64, d: nat, x: nat)
    requires Finite(big) && Finite(small) && Exp(small) < Exp(big)
    requires d == Exp(big) - Exp(small) - (if Exp(small) == 0 then 1 else 0)
    requires x == Frac(small) * 0x400 + (if Exp(small) == 0 then 0 else TOP)
    ensures x < SIGN && Jam(x, Pow2(d)) < TOP
    ensures Aligned(big, small, Frac(big) * 0x400 + TOP - Jam(x, Pow2(d)))
  {
    JamBelow(x, d);
  }

  /** Equal exponents: the hidden bits cancel. */
  lemma AlignSame(big: u64, small: u64)
    requires Finite(big) && Finite(small) && Exp(small) == Exp(big) && Frac(small) < Frac(big)
    ensures Aligned(big, small, Frac(big) * 0x400 - Frac(small) * 0x400)
  {
    JamByZero(Significand(small) * 0x400);
  }

  lemma ZeroDifference(a: u64, b: u64, zSign: nat)
    requires zSign < 2 && Exp(a) == Exp(b) && Frac(a) == Frac(b)
    ensures Delta(a, b) == 0 && IsDifference(a, b, zSign, 0)
  {
    SameMagnitude(a, b);
    ZeroWord();
    hide Magnitude, Finite, Pow2, Sign;
  }

  lemma SameMagnitude(a: u64, b: u64)
    requires Exp(a) == Exp(b) && Frac(a) == Frac(b)
    ensures Magnitude(a) == Magnitude(b)
  {
  }

  lemma ZeroWord()
    ensures Finite(0) && Magnitude(0) == 0 && Sign(0) == 0
  {
  }

  /** The shared tail of both branches: subtract the aligned significands and normalise. */
  method Subtract(big: u64, small: u64, bigSig: nat, smallSig: nat, exp: nat, sign: nat) returns (r: u64)
    requires Finite(big) && Finite(small) && sign < 2
    requires smallSig < bigSig < SIGN && exp == EffectiveExp(big)
    requires Aligned(big, small, bigSig - smallSig)
    ensures Magnitude(small) < Magnitude(big)
    ensures Truncates(r, Delta(big, small)) && Sign(r) == sign <==> Delta(big, small) >= HIDDEN
  {
    var zSig := bigSig - smallSig;
    var zExp := exp;
    zExp := zExp - 1;
    ghost var shift, q;
    r, shift, q := NormalizeAndPack(sign, zExp, zSig);
    if shift < exp {
      PackedNormal(big, small, zSig, shift, q, sign, r);
    } else {
      PackedSubnormal(big, small, zSig, shift, q, sign, r);
    }
  }

  /** Everything the subtraction promises about its result, for every pair of operands. */
  ghost predicate Subtraction(a: u64, b: u64, zSign: nat, r: u64)
    requires zSign < 2
  {
    && (IsNaN(a) || IsNaN(b) || (IsInfinite(a) && IsInfinite(b)) ==> r == ALL_ONES)
    && (IsInfinite(a) && Finite(b) ==> r == a)
    && (Finite(a) && IsInfinite(b) ==> IsInfinite(r) && Sign(r) == 1 - zSign)
    && (Finite(a) && Finite(b) ==> FiniteSubtraction(a, b, zSign, r))
  }

  /** Correct exactly when the exact difference is zero or a normal number. */
  ghost predicate FiniteSubtraction(a: u64, b: u64, zSign: nat, r: u64)
    requires zSign < 2
  {
    && (Delta(a, b) == 0 ==> r == 0)
    && (IsDifference(a, b, zSign, r) <==> Delta(a, b) == 0 || Delta(a, b) >= HIDDEN)
  }

  /** Label a_exp_bigger. */
  method ExpBiggerA(a: u64, b: u64, zSign: nat) returns (r: u64)
    requires zSign < 2 && Finite(a) && Exp(b) < Exp(a)
    ensures FiniteSubtraction(a, b, zSign, r)
  {
    var expDiff := Exp(a) - Exp(b);
    var aSig, bSig := Frac(a) * 0x400, Frac(b) * 0x400;
    if Exp(b) == 0 {
      expDiff := expDiff - 1;
    } else {
      bSig := bSig + TOP;
    }
    AlignExponents(a, b, expDiff, bSig);
    bSig := ShiftRightJamming(bSig, expDiff);
    aSig := aSig + TOP;
    r := Subtract(a, b, aSig, bSig, Exp(a), zSign);
  }

  /** Label b_exp_bigger. */
  method ExpBiggerB(a: u64, b: u64, zSign: nat) returns (r: u64)
    requires zSign < 2 && Finite(b) && Exp(a) < Exp(b)
    ensures FiniteSubtraction(a, b, zSign, r)
  {
    var expDiff := Exp(a) - Exp(b);
    var aSig, bSig := Frac(a) * 0x400, Frac(b) * 0x400;
    if Exp(a) == 0 {
      expDiff := expDiff + 1;
    } else {
      aSig := aSig + TOP;
    }
    AlignExponents(b, a, -expDiff, aSig);
    aSig := ShiftRightJamming(aSig, -expDiff);
    bSig := bSig + TOP;
    r := Subtract(b, a, bSig, aSig, Exp(b), 1 - zSign);
  }

  /** Equal exponents. */
  method ExpEqual(a: u64, b: u64, zSign: nat) returns (r: u64)
    requires zSign < 2 && Finite(a) && Exp(a) == Exp(b)
    ensures FiniteSubtraction(a, b, zSign, r)
  {
    var aExp, bExp := Exp(a), Exp(b);
    var aSig, bSig := Frac(a) * 0x400, Frac(b) * 0x400;
    if aExp == 0 {
      aExp, bExp := 1, 1;
    }
    if bSig < aSig {
      AlignSame(a, b);
      r := Subtract(a, b, aSig, bSig, aExp, zSign);
    } else if aSig < bSig {
      AlignSame(b, a);
      r := Subtract(b, a, bSig, aSig, bExp, 1 - zSign);
    } else {
      ZeroDifference(a, b, zSign);
      r := 0;
    }
  }

  method SubFloat64(a: u64, b: u64, zSign: nat) returns (r: u64)
    requires zSign < 2
    ensures Subtraction(a, b, zSign, r)
  {
    var expDiff := Exp(a) - Exp(b);
    if expDiff > 0 {
      if Exp(a) == EXP_SPECIAL {
        return if Frac(a) != 0 then ALL_ONES else a;
      }
      r := ExpBiggerA(a, b, zSign);
    } else if expDiff < 0 {
      if Exp(b) == EXP_SPECIAL {
        return if Frac(b) != 0 then ALL_ONES else Pack(1 - zSign, EXP_SPECIAL, 0);
      }
      r := ExpBiggerB(a, b, zSign);
    } else {
      if Exp(a) == EXP_SPECIAL {
        return ALL_ONES;
      }
      r := ExpEqual(a, b, zSign);
    }
  }

  /** A subnormal difference is missed: 3 - 1 in the last place is not 2. */
  lemma SubnormalMissed(r: u64)
    requires Subtraction(3, 1, 0, r)
    ensures Delta(3, 1) == 2 && !IsDifference(3, 1, 0, r)
  {
    assert Magnitude(3) == 3 && Magnitude(1) == 1 && Finite(3) && Finite(1) by { SmallMagnitudes(); }
    hide Magnitude, Finite, Pow2, IsDifference;
  }

  lemma SmallMagnitudes()
    ensures Magnitude(3) == 3 && Magnitude(1) == 1 && Finite(3) && Finite(1)
  {
    assert Exp(3) == 0 && Exp(1) == 0;
    assert Pow2(0) == 1;
  }

  // ---------------------------------------------------------- integers

  /** How far an integer must be shifted to fill 53 bits. */
  function NormalShift(n: nat): (k: nat)
    requires 0 < n < 2 * HIDDEN
    ensures k <= 52
    ensures HIDDEN <= n * Pow2(k) < 2 * HIDDEN
  {
    NormalShiftFacts(n);
    NormalShiftFrom(n, 0)
  }

  lemma NormalShiftFacts(n: nat)
    requires 0 < n
    ensures n * Pow2(0) == n && HIDDEN <= n * Pow2(52)
  {
    Pow2Double();
    Pow2UpTo8();
    MulMonotone(1, n, Pow2(52));
  }

  function NormalShiftFrom(n: nat, k: nat): (r: nat)
    requires k <= 52 && n * Pow2(k) < 2 * HIDDEN && HIDDEN <= n * Pow2(52)
    ensures r <= 52
    ensures HIDDEN <= n * Pow2(r) < 2 * HIDDEN
    decreases 52 - k
  {
    if n * Pow2(k) >= HIDDEN then k
    else
      assert n * Pow2(k + 1) == 2 * (n * Pow2(k)) by { Regroup(n, 2, Pow2(k)); Associate(n, 2, Pow2(k)); }
      NormalShiftFrom(n, k + 1)
  }

  /** The binary64 word of a non-negative integer below 2^53. */
  function FromInt(n: nat): u64
    requires n < 2 * HIDDEN
  {
    if n == 0 then 0
    else
      var k := NormalShift(n);
      (ONE_EXP + 1 - k) * HIDDEN + (n * Pow2(k) - HIDDEN)
  }

  lemma FromIntMagnitude(n: nat)
    requires n < 2 * HIDDEN
    ensures Finite(FromInt(n)) && Sign(FromInt(n)) == 0
    ensures Magnitude(FromInt(n)) == n * Pow2(ONE_EXP)
  {
    if n == 0 {
      assert Magnitude(0) == 0;
    } else {
      var k := NormalShift(n);
      var e, f := ONE_EXP + 1 - k, n * Pow2(k) - HIDDEN;
      PackedWord(0, e, f);
      FieldsMagnitude(FromInt(n), e, f);
      ShiftBack(n, k, ONE_EXP);
    }
  }

  lemma FieldsMagnitude(x: u64, e: nat, f: nat)
    requires Exp(x) == e > 0 && Frac(x) == f
    ensures Magnitude(x) == (HIDDEN + f) * Pow2(e - 1)
  {
  }

  lemma ShiftBack(n: nat, k: nat, t: nat)
    requires k <= t
    ensures n * Pow2(k) * Pow2(t - k) == n * Pow2(t)
  {
    Pow2Add(k, t - k);
    Associate(n, Pow2(k), Pow2(t - k));
  }

  lemma PackedWord(s: nat, e: nat, f: nat)
    requires s < 2 && e < 0x800 && f < HIDDEN
    ensures s * SIGN + e * HIDDEN + f < WORD
    ensures Sign(s * SIGN + e * HIDDEN + f) == s
    ensures Exp(s * SIGN + e * HIDDEN + f) == e && Frac(s * SIGN + e * HIDDEN + f) == f
  {
    assert s * SIGN + e * HIDDEN + f == (s * 0x800 + e) * HIDDEN + f;
  }

  /** A magnitude has one encoding per sign. */
  lemma MagnitudeInjective(x: u64, y: u64)
    requires Finite(x) && Finite(y) && Magnitude(x) == Magnitude(y)
    ensures Exp(x) == Exp(y) && Frac(x) == Frac(y)
  {
    if EffectiveExp(x) < EffectiveExp(y) {
      MagnitudeOrder(x, y);
    } else if EffectiveExp(y) < EffectiveExp(x) {
      MagnitudeOrder(y, x);
    } else {
      CancelFactor(Significand(x), Significand(y), Pow2(EffectiveExp(x) - 1));
    }
  }

  lemma CancelFactor(m: nat, n: nat, p: nat)
    requires p > 0 && m * p == n * p
    ensures m == n
  {
    if m < n {
      ScaledBounds(m, m, n, p);
    } else if n < m {
      ScaledBounds(n, n, m, p);
    }
  }

  lemma MagnitudeOrder(x: u64, y: u64)
    requires EffectiveExp(x) < EffectiveExp(y)
    ensures Magnitude(x) < Magnitude(y)
  {
    var p, q := Pow2(EffectiveExp(x) - 1), Pow2(EffectiveExp(y) - 1);
    assert 2 * p <= q by { Pow2Monotone(EffectiveExp(x), EffectiveExp(y) - 1); }
    ScaledBounds(0, Significand(x), 2 * HIDDEN, p);
    ScaledAtLeast(HIDDEN, 2 * p, q);
    MulMonotone(HIDDEN, Significand(y), q);
  }

  /** Subtraction is exact, bit for bit, on all non-negative integers below 2^53. */
  lemma IntegersExact(m: nat, n: nat, zSign: nat, r: u64)
    requires m < 2 * HIDDEN && n < 2 * HIDDEN && zSign < 2
    requires Subtraction(FromInt(m), FromInt(n), zSign, r)
    ensures m == n ==> r == 0
    ensures m > n ==> r == zSign * SIGN + FromInt(m - n)
    ensures m < n ==> r == (1 - zSign) * SIGN + FromInt(n - m)
  {
    var a, b, k := FromInt(m), FromInt(n), if m > n then m - n else n - m;
    FromIntMagnitude(m);
    FromIntMagnitude(n);
    FromIntMagnitude(k);
    var unit := Pow2(ONE_EXP);
    Distribute(m, n, unit);
    Distribute(n, m, unit);
    assert Delta(a, b) == k * unit;
    if m != n {
      assert Delta(a, b) >= HIDDEN by {
        Pow2Double();
        Pow2Monotone(52, ONE_EXP);
        MulMonotone(1, k, unit);
      }
      assert Magnitude(r) == Magnitude(FromInt(k));
      MagnitudeInjective(r, FromInt(k));
      SameFields(r, FromInt(k));
    }
  }

  lemma SameFields(r: u64, x: u64)
    requires Exp(r) == Exp(x) && Frac(r) == Frac(x) && Sign(x) == 0
    ensures r == Sign(r) * SIGN + x
  {
  }
}
