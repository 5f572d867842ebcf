/** The numeric codec of the RISC-V64 assembler: range checks, sign extension,
    the split of a 32-bit constant into LUI/ADDI parts and the immediate packers
    of the S, I, U and J (UJ) instruction formats. Go's `int64` values are
    modelled as unbounded integers that stay inside the 64-bit range. */
module Codec {
  import opened Wrappers

  function Pow2(n: nat): (r: int)
    ensures r >= 1
  {
    if n == 0 then 1 else 2 * Pow2(n - 1)
  }

  lemma {:induction false} Pow2Monotone(a: nat, b: nat)
    requires a <= b
    ensures Pow2(a) <= Pow2(b)
  {
    if a < b { Pow2Monotone(a, b - 1); }
  }

  lemma Pow2Values()
    ensures Pow2(0) == 1 && Pow2(4) == 16 && Pow2(5) == 32 && Pow2(11) == 2048 && Pow2(12) == 4096
    ensures Pow2(19) == 0x8_0000 && Pow2(20) == 0x10_0000 && Pow2(31) == 0x8000_0000
    ensures Pow2(32) == 0x1_0000_0000 && Pow2(63) == 0x8000_0000_0000_0000
    ensures Pow2(64) == 0x1_0000_0000_0000_0000
  {
    assert Pow2(8) == 256;
    assert Pow2(16) == 0x1_0000;
    assert Pow2(24) == 0x100_0000;
    assert Pow2(32) == 0x1_0000_0000;
    assert Pow2(40) == 0x100_0000_0000;
    assert Pow2(48) == 0x1_0000_0000_0000;
    assert Pow2(56) == 0x100_0000_0000_0000;
  }

  const MinInt64: int := -0x8000_0000_0000_0000
  const MaxInt64: int := 0x7fff_ffff_ffff_ffff

  predicate InInt64(x: int) { MinInt64 <= x <= MaxInt64 }

  /** immFits: whether x is representable as an nbits-bit two's complement value.
      With nbits == 0 the Go code decrements an unsigned count to 2^64-1, which makes
      the minimum 0 and the maximum -1; widths above 64 shift everything out. Both fit nothing. */
  predicate ImmFits(x: int, nbits: nat) {
    if nbits == 0 || nbits > 64 then false
    else -Pow2(nbits - 1) <= x <= Pow2(nbits - 1) - 1
  }

  lemma ImmFitsWider(x: int, n: nat, m: nat)
    requires ImmFits(x, n) && n <= m <= 64
    ensures ImmFits(x, m)
  {
    Pow2Monotone(n - 1, m - 1);
  }

  /** The 32-bit values of the model are exactly the int64 values that fit in 32 bits. */
  lemma ImmFits64IsInt64(x: int)
    ensures ImmFits(x, 64) <==> InInt64(x)
  {
    Pow2Values();
  }

  /** signExtend(val, bit): interprets the low `bit` bits of val as a two's complement
      number. The Go code masks the low bits and shifts bit (bit-1) into the sign
      position and back; on two's complement values that is the arithmetic below. */
  function SignExtend(val: int, bit: nat): (r: int)
    requires 1 <= bit <= 64
    ensures ImmFits(r, bit)
    ensures (val - r) % Pow2(bit) == 0
    ensures ImmFits(val, bit) ==> r == val
  {
    var p := Pow2(bit);
    var low := val % p;
    var r := if low >= Pow2(bit - 1) then low - p else low;
    SignExtendFacts(val, bit, low, r);
    r
  }

  lemma SignExtendFacts(val: int, bit: nat, low: int, r: int)
    requires 1 <= bit <= 64 && low == val % Pow2(bit)
    requires r == if low >= Pow2(bit - 1) then low - Pow2(bit) else low
    ensures ImmFits(r, bit)
    ensures (val - r) % Pow2(bit) == 0
    ensures ImmFits(val, bit) ==> r == val
  {
    var p := Pow2(bit);
    assert p == 2 * Pow2(bit - 1);
    ModMultiple(val, low, p);
    if low >= Pow2(bit - 1) { ModShift(val - low, p); }
    if ImmFits(val, bit) { SignedResidueUnique(val, r, bit); }
  }

  lemma ModMultiple(val: int, low: int, p: int)
    requires p >= 1 && low == val % p
    ensures (val - low) % p == 0
  {
    assert val == p * (val / p) + low;
    ModOfMultiple(val / p, p);
    assert val - low == (val / p) * p;
  }

  lemma ModOfMultiple(q: int, p: int)
    requires p >= 1
    ensures (q * p) % p == 0
  {
    DivModUnique(q * p, q, 0, p);
  }

  /** Euclidean division is determined by its defining equation. */
  lemma DivModUnique(x: int, q: int, m: int, p: int)
    requires p >= 1 && 0 <= m < p && x == q * p + m
    ensures x / p == q && x % p == m
  {
    var q', m' := x / p, x % p;
    assert x == q' * p + m';
    if q' < q {
      assert (q - q') * p >= p by { MulAtLeast(q - q', p); }
      assert false;
    } else if q' > q {
      assert (q' - q) * p >= p by { MulAtLeast(q' - q, p); }
      assert false;
    }
  }

  lemma MulAtLeast(a: int, p: int)
    requires a >= 1 && p >= 1
    ensures a * p >= p
  {
  }

  lemma ModShift(d: int, p: int)
    requires p >= 1 && d % p == 0
    ensures (d + p) % p == 0
  {
    var q := d / p;
    assert d == q * p;
    DivModUnique(d + p, q + 1, 0, p);
  }

  /** Two values of the signed bit-wide range that agree modulo 2^bit are equal. */
  lemma SignedResidueUnique(a: int, b: int, bit: nat)
    requires 1 <= bit <= 64 && ImmFits(a, bit) && ImmFits(b, bit)
    requires (a - b) % Pow2(bit) == 0
    ensures a == b
  {
    var p := Pow2(bit);
    assert p == 2 * Pow2(bit - 1);
    assert -p < a - b < p;
    SmallMultipleIsZero(a - b, p);
  }

  lemma SmallMultipleIsZero(d: int, p: int)
    requires p >= 1 && -p < d < p && d % p == 0
    ensures d == 0
  {
    var q := d / p;
    assert d == q * p;
    if q >= 1 { MulAtLeast(q, p); }
    if q <= -1 { MulAtLeast(-q, p); NegMul(q, p); }
  }

  lemma NegMul(q: int, p: int)
    ensures (-q) * p == -(q * p)
  {
  }

  /** The pair produced by Split32BitImmediate: `high` is meant for LUI, `low` for the following ADDI(W). */
  datatype Split = Split(low: int, high: int)

  /** `int32(x)` in Go, and what LUI $high followed by ADDIW $low compute on RV64: the
      low 32 bits of x as a two's complement number. Written with literal moduli; it
      is signExtend(x, 32), as Wrap32IsSignExtend shows. */
  function Wrap32(x: int): (r: int)
    ensures ImmFits(r, 32) && (x - r) % 0x1_0000_0000 == 0
  {
    var m := x % 0x1_0000_0000;
    var r := if m >= 0x8000_0000 then m - 0x1_0000_0000 else m;
    Wrap32Facts(x, m, r);
    r
  }

  lemma Wrap32Facts(x: int, m: int, r: int)
    requires m == x % 0x1_0000_0000 && r == if m >= 0x8000_0000 then m - 0x1_0000_0000 else m
    ensures ImmFits(r, 32) && (x - r) % 0x1_0000_0000 == 0
  {
    Pow2Values();
    ModMultiple(x, m, 0x1_0000_0000);
    if m >= 0x8000_0000 { ModShift(x - m, 0x1_0000_0000); }
  }

  /** Wrap32 is the only 32-bit value congruent to x modulo 2^32. */
  lemma Wrap32Unique(x: int, r: int)
    requires ImmFits(r, 32) && (x - r) % 0x1_0000_0000 == 0
    ensures Wrap32(x) == r
  {
    Pow2Values();
    var w := Wrap32(x);
    ModDiff(x - r, x - w, 0x1_0000_0000);
    assert (x - r) - (x - w) == w - r;
    SignedResidueUnique(w, r, 32);
  }

  lemma Wrap32IsSignExtend(x: int)
    ensures Wrap32(x) == SignExtend(x, 32)
  {
    Pow2Values();
    Wrap32Unique(x, SignExtend(x, 32));
  }

  /** Split32BitImmediate (asm.go:1179-1207). `imm >> 12` is floor division by 4096 and
      `imm & (1<<11) != 0` asks whether bit 11 of the two's complement pattern is set,
      that is whether imm % 4096 >= 2048. The two signExtend calls are written out for
      the values they receive here: the low 12 bits taken as a signed residue, and a
      high part that can reach 2^19 only by the increment, where signExtend(high, 20)
      wraps it to -2^19 (Split32UsesSignExtend states the correspondence). */
  function Split32BitImmediate(imm: int): (r: Result<Split>)
    ensures r.Success? <==> ImmFits(imm, 32)
    ensures r.Success? ==> ImmFits(r.value.low, 12) && ImmFits(r.value.high, 20)
    ensures r.Success? ==> (r.value.high == 0 <==> ImmFits(imm, 12))
    ensures r.Success? && ImmFits(imm, 12) ==> r.value == Split(imm, 0)
    ensures r.Success? ==> var v := r.value.high * 4096 + r.value.low;
      if imm < 0x7fff_f800 then v == imm else v == imm - 0x1_0000_0000
  {
    if !ImmFits(imm, 32) then Failure("immediate does not fit in 32-bits")
    else if ImmFits(imm, 12) then
      var s := Split(imm, 0);
      SplitSmall(imm, s);
      Success(s)
    else
      var m := imm % 4096;
      var high := if m >= 2048 then imm / 4096 + 1 else imm / 4096;
      var s := Split(if m >= 2048 then m - 4096 else m, if high >= 0x8_0000 then high - 0x10_0000 else high);
      SplitFacts(imm, m, high, s);
      Success(s)
  }

  /** LUI $high followed by ADDIW $low computes the immediate on RV64: the 32-bit
      wrap of high * 4096 + low is imm for every immediate that fits in 32 bits. */
  lemma Split32Recombines(imm: int)
    requires ImmFits(imm, 32)
    ensures var s := Split32BitImmediate(imm).value;
      Wrap32(s.high * 4096 + s.low) == imm
  {
    var s := Split32BitImmediate(imm).value;
    var v := s.high * 4096 + s.low;
    if v == imm {
      DivModUnique(0, 0, 0, 0x1_0000_0000);
    } else {
      DivModUnique(v - imm, -1, 0, 0x1_0000_0000);
    }
    Wrap32Unique(v, imm);
  }

  lemma SplitSmall(imm: int, s: Split)
    requires ImmFits(imm, 12) && s == Split(imm, 0)
    ensures ImmFits(imm, 32) && ImmFits(s.low, 12) && ImmFits(s.high, 20)
    ensures s.high * 4096 + s.low == imm && imm < 0x7fff_f800
  {
    Pow2Values();
  }

  lemma SplitFacts(imm: int, m: int, high: int, s: Split)
    requires ImmFits(imm, 32) && !ImmFits(imm, 12)
    requires m == imm % 4096 && high == if m >= 2048 then imm / 4096 + 1 else imm / 4096
    requires s == Split(if m >= 2048 then m - 4096 else m, if high >= 0x8_0000 then high - 0x10_0000 else high)
    ensures ImmFits(s.low, 12) && ImmFits(s.high, 20) && s.high != 0
    ensures var v := s.high * 4096 + s.low;
      if imm < 0x7fff_f800 then v == imm else v == imm - 0x1_0000_0000
  {
    Pow2Values();
    assert imm == (imm / 4096) * 4096 + m;
    assert high * 4096 + (if m >= 2048 then m - 4096 else m) == imm;
  }

  /** The split is that of the source: for an immediate past 12 bits, low is
      signExtend(imm, 12) and high is signExtend((imm >> 12) + carry, 20). */
  lemma Split32UsesSignExtend(imm: int)
    requires ImmFits(imm, 32) && !ImmFits(imm, 12)
    ensures var carry := if imm % 4096 >= 2048 then 1 else 0;
      Split32BitImmediate(imm) == Success(Split(SignExtend(imm, 12), SignExtend(imm / 4096 + carry, 20)))
  {
    var m := imm % 4096;
    var high := if m >= 2048 then imm / 4096 + 1 else imm / 4096;
    var s := Split32BitImmediate(imm).value;
    assert s == Split(if m >= 2048 then m - 4096 else m, if high >= 0x8_0000 then high - 0x10_0000 else high);
    LowIsSignExtend(imm, m);
    HighRange(imm, m, high);
    HighIsSignExtend(high);
  }

  lemma LowIsSignExtend(imm: int, m: int)
    requires m == imm % 4096
    ensures (if m >= 2048 then m - 4096 else m) == SignExtend(imm, 12)
  {
    Pow2Values();
    var low := if m >= 2048 then m - 4096 else m;
    var el := SignExtend(imm, 12);
    ModMultiple(imm, m, 4096);
    if m >= 2048 { ModShift(imm - m, 4096); }
    ModDiff(imm - el, imm - low, 4096);
    assert (imm - el) - (imm - low) == low - el;
    SignedResidueUnique(low, el, 12);
  }

  lemma HighRange(imm: int, m: int, high: int)
    requires ImmFits(imm, 32) && m == imm % 4096 && high == if m >= 2048 then imm / 4096 + 1 else imm / 4096
    ensures -0x8_0000 <= high <= 0x8_0000
  {
    Pow2Values();
  }

  lemma HighIsSignExtend(high: int)
    requires -0x8_0000 <= high <= 0x8_0000
    ensures (if high >= 0x8_0000 then high - 0x10_0000 else high) == SignExtend(high, 20)
  {
    Pow2Values();
    var h := if high >= 0x8_0000 then high - 0x10_0000 else high;
    var eh := SignExtend(high, 20);
    if high >= 0x8_0000 {
      DivModUnique(high - h, 1, 0, 0x10_0000);
    } else {
      DivModUnique(high - h, 0, 0, 0x10_0000);
    }
    ModDiff(high - eh, high - h, 0x10_0000);
    assert (high - eh) - (high - h) == h - eh;
    SignedResidueUnique(h, eh, 20);
  }

  lemma ModNeg(d: int, p: int)
    requires p >= 1 && d % p == 0
    ensures (-d) % p == 0
  {
    var q := d / p;
    assert d == q * p;
    NegMul(q, p);
    ModOfMultiple(-q, p);
  }

  lemma ModDiff(a: int, b: int, p: int)
    requires p >= 1 && a % p == 0 && b % p == 0
    ensures (a - b) % p == 0
  {
    var qa, qb := a / p, b / p;
    assert a == qa * p && b == qb * p;
    assert a - b == (qa - qb) * p;
    ModOfMultiple(qa - qb, p);
  }

  /** The top 2048 values of the 32-bit range make the incremented high part overflow
      20 bits: the split is then only correct modulo 2^32. */
  lemma SplitWrapsAtTop()
    ensures Split32BitImmediate(0x7fff_f800) == Success(Split(-2048, -0x8_0000))
    ensures -0x8_0000 * 4096 + -2048 != 0x7fff_f800
  {
    Pow2Values();
    assert 0x7fff_f800 == 0x7_ffff * 4096 + 2048;
    DivModUnique(0x7fff_f800, 0x7_ffff, 2048, 4096);
  }

  /** EncodeSImmediate (asm.go:1405-1411): imm[11:5] goes to bits 31:25 and imm[4:0] to
      bits 11:7. On int64 `(imm >> 5) << 25` is (imm / 32) * 2^25 and `(imm & 0x1f) << 7`
      is (imm % 32) * 128; the two occupy disjoint bits, so the `|` is a sum. */
  function EncodeSImmediate(imm: int): (r: Result<int>)
    ensures r.Success? <==> ImmFits(imm, 12)
    ensures r.Success? ==> r.value % 128 == 0
    ensures r.Success? ==> (r.value % 0x200_0000) / 128 == imm % 32
    ensures r.Success? ==> r.value % 0x200_0000 < 0x1000
    ensures r.Success? ==> r.value / 0x200_0000 == imm / 32
  {
    Pow2Values();
    if !ImmFits(imm, 12) then Failure("immediate does not fit in 12 bits")
    else
      var hi, lo := imm / 32, imm % 32;
      var v := hi * 0x200_0000 + lo * 128;
      DivModUnique(v, hi, lo * 128, 0x200_0000);
      DivModUnique(lo * 128, lo, 0, 128);
      DivModUnique(v, hi * 0x4_0000 + lo, 0, 128);
      Success(v)
  }

  /** Reassembles a 12-bit S-type immediate from the bits EncodeSImmediate placed. */
  function DecodeSImmediate(w: int): int {
    (w / 0x200_0000) * 32 + (w % 0x200_0000) / 128
  }

  lemma SImmediateRoundTrip(imm: int)
    requires ImmFits(imm, 12)
    ensures EncodeSImmediate(imm).Success?
    ensures DecodeSImmediate(EncodeSImmediate(imm).value) == imm
  {
    Pow2Values();
    assert imm == (imm / 32) * 32 + imm % 32;
  }

  /** EncodeIImmediate (asm.go:1489-1495): the 12-bit immediate in bits 31:20. */
  function EncodeIImmediate(imm: int): (r: Result<int>)
    ensures r.Success? <==> ImmFits(imm, 12)
    ensures r.Success? ==> r.value % 0x10_0000 == 0 && r.value / 0x10_0000 == imm
    ensures r.Success? ==> ImmFits(r.value, 32)
  {
    Pow2Values();
    if !ImmFits(imm, 12) then Failure("immediate does not fit in 12 bits")
    else
      DivModUnique(imm * 0x10_0000, imm, 0, 0x10_0000);
      Success(imm * 0x10_0000)
  }

  /** EncodeUImmediate (asm.go:1497-1503): the 20-bit immediate in bits 31:12. */
  function EncodeUImmediate(imm: int): (r: Result<int>)
    ensures r.Success? <==> ImmFits(imm, 20)
    ensures r.Success? ==> r.value % 4096 == 0 && r.value / 4096 == imm
    ensures r.Success? ==> ImmFits(r.value, 32)
  {
    Pow2Values();
    if !ImmFits(imm, 20) then Failure("immediate does not fit in 20 bits")
    else
      DivModUnique(imm * 4096, imm, 0, 4096);
      Success(imm * 4096)
  }

  /** uint32(x) in Go: the low 32 bits of the two's complement pattern. */
  function ToU32(x: int): bv32 {
    (x % 0x1_0000_0000) as bv32
  }

  /** encodeUJImmediate (asm.go:1515-1520): scatters imm[20|10:1|11|19:12] over bits 31:12. */
  function EncodeUJImm(imm: bv32): (r: bv32)
    ensures r & 0xfff == 0
    ensures DecodeUJImm(r) == imm & 0x1f_fffe
  {
    ((imm >> 20) << 31) | (((imm >> 1) & 0x3ff) << 21) | (((imm >> 11) & 0x1) << 20) | (((imm >> 12) & 0xff) << 12)
  }

  /** Gathers the J-type immediate back from bits 31:12 of an instruction word. */
  function DecodeUJImm(w: bv32): bv32 {
    ((w >> 31) << 20) | (((w >> 21) & 0x3ff) << 1) | (((w >> 20) & 0x1) << 11) | (((w >> 12) & 0xff) << 12)
  }

  /** EncodeUJImmediate (asm.go:1522-1528). */
  function EncodeUJImmediate(imm: int): (r: Result<bv32>)
    ensures r.Success? <==> ImmFits(imm, 21)
    ensures r.Success? ==> r.value & 0xfff == 0
    ensures r.Success? ==> DecodeUJImm(r.value) == ToU32(imm) & 0x1f_fffe
  {
    if !ImmFits(imm, 21) then Failure("immediate does not fit in 21 bits")
    else Success(EncodeUJImm(ToU32(imm)))
  }
}
