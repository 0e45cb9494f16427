/** Unsigned 64-bit words: their natural value, the low masks used as table masks, and the
    bit reversal of dict.c. */
module Bits {

  // The word operations by name, so that the proofs below can hide what they compute.
  function Not(a: bv64): bv64 { !a }
  function And(a: bv64, b: bv64): bv64 { a & b }
  function Or(a: bv64, b: bv64): bv64 { a | b }
  function Xor(a: bv64, b: bv64): bv64 { a ^ b }
  function Inc(a: bv64): bv64 { a + 1 }

  predicate Subset(a: bv64, b: bv64) { a & b == a }

  function Half(v: bv64): bv64 { v >> 1 }

  function Bit(v: bv64): (b: nat)
    ensures b <= 1
  {
    if v & 1 == 1 then 1 else 0
  }

  /** The number the low `w` bits of a word denote; Val(v) is the whole word. */
  function LowVal(v: bv64, w: nat): nat
  {
    if w == 0 then 0 else 2 * LowVal(Half(v), w - 1) + Bit(v)
  }

  function Val(v: bv64): nat { LowVal(v, 64) }

  /** A word of the form 2^k - 1. */
  predicate LowMask(m: bv64) { m & (m + 1) == 0 }

  function Pow2(k: nat): (p: nat)
    ensures p >= 1
  {
    if k == 0 then 1 else 2 * Pow2(k - 1)
  }

  lemma {:induction false} Pow2Sum(a: nat, b: nat)
    ensures Pow2(a + b) == Pow2(a) * Pow2(b)
  {
    if a > 0 { Pow2Sum(a - 1, b); }
  }

  lemma Pow2Of7()
    ensures Pow2(7) == 128
  {
    assert Pow2(7) == 2 * Pow2(6) == 4 * Pow2(5) == 8 * Pow2(4) == 16 * Pow2(3) == 128;
  }

  lemma Pow2Of63()
    ensures Pow2(63) == 0x8000_0000_0000_0000
  {
    hide *;
    Pow2Of7();
    Pow2Sum(7, 7);
    Pow2Sum(14, 7);
    Pow2Sum(21, 21);
    Pow2Sum(42, 21);
  }

  /** The word with exactly its low `k` bits set. */
  function Mask(k: nat): bv64
    requires k <= 64
    decreases 64 - k
  {
    if k == 64 then 0xFFFF_FFFF_FFFF_FFFF else Mask(k + 1) >> 1
  }

  lemma HalfSubset(a: bv64, b: bv64)
    requires Subset(a, b)
    ensures Subset(Half(a), Half(b)) && Bit(a) <= Bit(b)
  {}

  lemma Unfold(v: bv64, w: nat)
    requires w > 0
    ensures LowVal(v, w) == 2 * LowVal(Half(v), w - 1) + Bit(v)
  {}

  lemma {:induction false} SubsetVal(a: bv64, b: bv64, w: nat)
    requires Subset(a, b)
    ensures LowVal(a, w) <= LowVal(b, w)
  {
    if w > 0 {
      hide *;
      HalfSubset(a, b);
      SubsetVal(Half(a), Half(b), w - 1);
      Unfold(a, w);
      Unfold(b, w);
    }
  }

  lemma MaskBound(h: bv64, m: bv64)
    ensures Val(h & m) <= Val(m)
  {
    assert (h & m) & m == h & m;
    SubsetVal(h & m, m, 64);
  }

  lemma Down2(k: nat) requires k <= 62 ensures Mask(k) == Mask(k + 2) >> 2 {}
  lemma Down4(k: nat) requires k <= 60 ensures Mask(k) == Mask(k + 4) >> 4 { Down2(k); Down2(k + 2); }
  lemma Down8(k: nat) requires k <= 56 ensures Mask(k) == Mask(k + 8) >> 8 { Down4(k); Down4(k + 4); }
  lemma Down16(k: nat) requires k <= 48 ensures Mask(k) == Mask(k + 16) >> 16 { Down8(k); Down8(k + 8); }
  lemma Down32(k: nat) requires k <= 32 ensures Mask(k) == Mask(k + 32) >> 32 { Down16(k); Down16(k + 16); }

  lemma SmallMasks()
    ensures Mask(0) == 0 && Mask(1) == 1
  {
    Down32(0); Down32(32);
    Down32(1); Down16(33); Down8(49); Down4(57); Down2(61);
  }

  lemma {:induction false} MaskShape(k: nat)
    requires k <= 64
    ensures LowMask(Mask(k)) && (Mask(k) == 0 <==> k == 0) && (k > 0 ==> Mask(k) & 1 == 1)
  {
    SmallMasks();
    MaskIsLow(k);
    if k > 1 { MaskShape(k - 1); }
    if k > 0 { LowMaskOdd(Mask(k)); }
  }

  lemma LowMaskOdd(m: bv64)
    requires LowMask(m) && m != 0
    ensures m & 1 == 1
  {}

  lemma {:induction false} MaskIsLow(k: nat)
    requires k <= 64
    ensures LowMask(Mask(k))
    decreases 64 - k
  {
    if k < 64 { MaskIsLow(k + 1); HalfMask(Mask(k + 1)); }
  }

  lemma HalfMask(m: bv64)
    requires LowMask(m)
    ensures LowMask(m >> 1)
  {}

  lemma {:induction false} ZeroVal(w: nat)
    ensures LowVal(0, w) == 0
  {
    if w > 0 { ZeroVal(w - 1); }
  }

  lemma {:induction false} MaskVal(k: nat, w: nat)
    requires k <= w <= 64
    ensures LowVal(Mask(k), w) == Pow2(k) - 1
  {
    hide *;
    SmallMasks();
    WordOfNone();
    if k == 0 {
      ZeroVal(w);
    } else {
      MaskShape(k);
      MaskHalves(k);
      OddBit(Mask(k));
      DoublePow2(k);
      Unfold(Mask(k), w);
      MaskVal(k - 1, w - 1);
    }
  }

  /** The word of a natural number below 2^64. */
  function Word(n: nat): bv64 { if n == 0 then 0 else (Word(n / 2) << 1) | (n % 2) as bv64 }

  lemma OddDouble(m: bv64)
    requires Bit(m) == 1
    ensures (Half(m) << 1) | 1 == m
  {}

  /** A power of two less one is the word of a mask. */
  lemma {:induction false} WordMask(k: nat)
    requires k <= 63
    ensures Word(Pow2(k) - 1) == Mask(k)
  {
    hide *;
    SmallMasks();
    WordOfNone();
    if k > 0 {
      WordMask(k - 1);
      MaskShape(k);
      MaskHalves(k);
      OddBit(Mask(k));
      OddDouble(Mask(k));
      WordOfOdd(k);
    }
  }

  lemma WordOfNone() ensures Word(0) == 0 && Pow2(0) == 1 {}
  lemma OddBit(m: bv64) ensures m & 1 == 1 ==> Bit(m) == 1 {}

  lemma OddWord(m: nat)
    ensures Word(2 * m + 1) == (Word(m) << 1) | 1
  {
    var n := 2 * m + 1;
    assert n / 2 == m && n % 2 == 1;
  }

  lemma DoublePow2(k: nat) requires k > 0 ensures Pow2(k) == 2 * Pow2(k - 1) {}

  lemma WordOfOdd(k: nat)
    requires k > 0
    ensures Word(Pow2(k) - 1) == (Word(Pow2(k - 1) - 1) << 1) | 1
  {
    hide *;
    DoublePow2(k);
    OddWord(Pow2(k - 1) - 1);
    assert 2 * (Pow2(k - 1) - 1) + 1 == Pow2(k) - 1;
  }

  lemma MaskHalves(k: nat) requires 0 < k <= 64 ensures Half(Mask(k)) == Mask(k - 1) {}

  // ----- Bit reversal -----

  /** Exchange the bits under `mask` with those `s` places above them. */
  function Swap32(v: bv64): bv64 { ((v >> 32) & 0x0000_0000_FFFF_FFFF) | ((v << 32) & !0x0000_0000_FFFF_FFFF) }
  function Swap16(v: bv64): bv64 { ((v >> 16) & 0x0000_FFFF_0000_FFFF) | ((v << 16) & !0x0000_FFFF_0000_FFFF) }
  function Swap8(v: bv64): bv64 { ((v >> 8) & 0x00FF_00FF_00FF_00FF) | ((v << 8) & !0x00FF_00FF_00FF_00FF) }
  function Swap4(v: bv64): bv64 { ((v >> 4) & 0x0F0F_0F0F_0F0F_0F0F) | ((v << 4) & !0x0F0F_0F0F_0F0F_0F0F) }
  function Swap2(v: bv64): bv64 { ((v >> 2) & 0x3333_3333_3333_3333) | ((v << 2) & !0x3333_3333_3333_3333) }
  function Swap1(v: bv64): bv64 { ((v >> 1) & 0x5555_5555_5555_5555) | ((v << 1) & !0x5555_5555_5555_5555) }

  /** The word with its 64 bits in the opposite order (RevBit). */
  function Rev(v: bv64): bv64
  {
    var v := ((v >> 32) & 0x0000_0000_FFFF_FFFF) | ((v << 32) & !0x0000_0000_FFFF_FFFF);
    var v := ((v >> 16) & 0x0000_FFFF_0000_FFFF) | ((v << 16) & !0x0000_FFFF_0000_FFFF);
    var v := ((v >> 8) & 0x00FF_00FF_00FF_00FF) | ((v << 8) & !0x00FF_00FF_00FF_00FF);
    var v := ((v >> 4) & 0x0F0F_0F0F_0F0F_0F0F) | ((v << 4) & !0x0F0F_0F0F_0F0F_0F0F);
    var v := ((v >> 2) & 0x3333_3333_3333_3333) | ((v << 2) & !0x3333_3333_3333_3333);
    ((v >> 1) & 0x5555_5555_5555_5555) | ((v << 1) & !0x5555_5555_5555_5555)
  }

  lemma RevStages(v: bv64)
    ensures Rev(v) == Swap1(Swap2(Swap4(Swap8(Swap16(Swap32(v))))))
  {}
  lemma RevRev(v: bv64) ensures Rev(Rev(v)) == v {}
  lemma RevAnd(v: bv64, w: bv64) ensures Rev(And(v, w)) == And(Rev(v), Rev(w)) {}
  lemma RevOr(v: bv64, w: bv64) ensures Rev(Or(v, w)) == Or(Rev(v), Rev(w)) {}
  lemma RevNotBits(v: bv64) ensures Rev(!v) == !Rev(v) {}
  lemma RevNot(v: bv64) ensures Rev(Not(v)) == Not(Rev(v)) { RevNotBits(v); hide Rev; }
  lemma NotNot(v: bv64) ensures Not(Not(v)) == v {}
  lemma RevShift(v: bv64) ensures Rev(v >> 1) == Rev(v) << 1 {}
  lemma RevMask(m: bv64) requires LowMask(m) ensures LowMask(Rev(Not(m))) {}


  /** One exchange of rev(): the mask for the next distance, then the exchange itself. */
  function NextMask(s: bv64, mask: bv64): bv64
    requires s < 64
  {
    mask ^ (mask << (s as bv6))
  }

  function Exchange(v: bv64, s: bv64, mask: bv64): bv64
    requires s < 64
  {
    ((v >> (s as bv6)) & mask) | ((v << (s as bv6)) & !mask)
  }

  lemma Masks()
    ensures NextMask(32, 0xFFFF_FFFF_FFFF_FFFF) == 0x0000_0000_FFFF_FFFF
    ensures NextMask(16, 0x0000_0000_FFFF_FFFF) == 0x0000_FFFF_0000_FFFF
    ensures NextMask(8, 0x0000_FFFF_0000_FFFF) == 0x00FF_00FF_00FF_00FF
    ensures NextMask(4, 0x00FF_00FF_00FF_00FF) == 0x0F0F_0F0F_0F0F_0F0F
    ensures NextMask(2, 0x0F0F_0F0F_0F0F_0F0F) == 0x3333_3333_3333_3333
    ensures NextMask(1, 0x3333_3333_3333_3333) == 0x5555_5555_5555_5555
  {}

  lemma Exchange32(v: bv64) ensures Exchange(v, 32, 0x0000_0000_FFFF_FFFF) == Swap32(v) {}
  lemma Exchange16(v: bv64) ensures Exchange(v, 16, 0x0000_FFFF_0000_FFFF) == Swap16(v) {}
  lemma Exchange8(v: bv64) ensures Exchange(v, 8, 0x00FF_00FF_00FF_00FF) == Swap8(v) {}
  lemma Exchange4(v: bv64) ensures Exchange(v, 4, 0x0F0F_0F0F_0F0F_0F0F) == Swap4(v) {}
  lemma Exchange2(v: bv64) ensures Exchange(v, 2, 0x3333_3333_3333_3333) == Swap2(v) {}
  lemma Exchange1(v: bv64) ensures Exchange(v, 1, 0x5555_5555_5555_5555) == Swap1(v) {}

  lemma Halves()
    ensures 64 as bv64 >> 1 == 32 && 32 as bv64 >> 1 == 16 && 16 as bv64 >> 1 == 8
    ensures 8 as bv64 >> 1 == 4 && 4 as bv64 >> 1 == 2 && 2 as bv64 >> 1 == 1 && 1 as bv64 >> 1 == 0
  {}

  /** rev(): halve the exchange distance until it is zero. */
  method Reverse(v0: bv64) returns (v: bv64)
    ensures v == Rev(v0)
  {
    v := v0;
    var s: bv64, mask: bv64 := 64, 0xFFFF_FFFF_FFFF_FFFF;
    Halves();
    RevStages(v0);
    s := s >> 1;
    while s > 0
      invariant s == 32 || s == 16 || s == 8 || s == 4 || s == 2 || s == 1 || s == 0
      invariant s == 32 ==> mask == 0xFFFF_FFFF_FFFF_FFFF && v == v0
      invariant s == 16 ==> mask == 0x0000_0000_FFFF_FFFF && v == Swap32(v0)
      invariant s == 8 ==> mask == 0x0000_FFFF_0000_FFFF && v == Swap16(Swap32(v0))
      invariant s == 4 ==> mask == 0x00FF_00FF_00FF_00FF && v == Swap8(Swap16(Swap32(v0)))
      invariant s == 2 ==> mask == 0x0F0F_0F0F_0F0F_0F0F && v == Swap4(Swap8(Swap16(Swap32(v0))))
      invariant s == 1 ==> mask == 0x3333_3333_3333_3333 && v == Swap2(Swap4(Swap8(Swap16(Swap32(v0)))))
      invariant s == 0 ==> v == Swap1(Swap2(Swap4(Swap8(Swap16(Swap32(v0))))))
      decreases s
    {
      hide *;
      Halves();
      Masks();
      Exchange32(v); Exchange16(v); Exchange8(v); Exchange4(v); Exchange2(v); Exchange1(v);
      mask := NextMask(s, mask);
      v := Exchange(v, s, mask);
      s := s >> 1;
    }
  }

  /** The i-th bit from the bottom, and the i-th from the top. */
  function LowBit(v: bv64, i: nat): bv64 { if i == 0 then v & 1 else LowBit(v >> 1, i - 1) }
  function HighBit(v: bv64, i: nat): bv64 decreases i { if i == 0 then v >> 63 else HighBit(v << 1, i - 1) }

  lemma RevTop(v: bv64) ensures Rev(v) >> 63 == v & 1 {}

  /** Rev puts the i-th lowest bit in the i-th highest place. */
  lemma {:induction false} RevBit(v: bv64, i: nat)
    ensures HighBit(Rev(v), i) == LowBit(v, i)
  {
    hide Rev;
    if i == 0 {
      RevTop(v);
    } else {
      RevShift(v);
      RevBit(v >> 1, i - 1);
    }
  }

  // ----- Values of words -----

  /** The word has no bit set at position w or above. */
  ghost predicate Fits(v: bv64, w: nat) { v == 0 || (w > 0 && Fits(Half(v), w - 1)) }

  lemma Half2(v: bv64) ensures Half(Half(v)) == v >> 2 {}
  lemma Fits2(v: bv64, w: nat) requires Fits(v >> 2, w) ensures Fits(v, w + 2)
  { Half2(v); hide Half; if v != 0 && Half(v) != 0 { assert Fits(Half(v), w + 1); } }
  lemma ShiftAgain(v: bv64)
    ensures (v >> 2) >> 2 == v >> 4 && (v >> 4) >> 4 == v >> 8 && (v >> 8) >> 8 == v >> 16
    ensures (v >> 16) >> 16 == v >> 32 && (v >> 32) >> 32 == 0
  {}
  lemma Fits4(v: bv64, w: nat) requires Fits(v >> 4, w) ensures Fits(v, w + 4)
  { ShiftAgain(v); hide *; Fits2(v >> 2, w); Fits2(v, w + 2); }
  lemma Fits8(v: bv64, w: nat) requires Fits(v >> 8, w) ensures Fits(v, w + 8)
  { ShiftAgain(v); hide *; Fits4(v >> 4, w); Fits4(v, w + 4); }
  lemma Fits16(v: bv64, w: nat) requires Fits(v >> 16, w) ensures Fits(v, w + 16)
  { ShiftAgain(v); hide *; Fits8(v >> 8, w); Fits8(v, w + 8); }
  lemma Fits32(v: bv64, w: nat) requires Fits(v >> 32, w) ensures Fits(v, w + 32)
  { ShiftAgain(v); hide *; Fits16(v >> 16, w); Fits16(v, w + 16); }
  lemma Fits64(v: bv64) ensures Fits(v, 64)
  { ShiftAgain(v); assert Fits((v >> 32) >> 32, 0); hide *; Fits32(v >> 32, 0); Fits32(v, 32); }

  lemma SameHalves(a: bv64, b: bv64)
    requires Half(a) == Half(b) && Bit(a) == Bit(b)
    ensures a == b
  {}
  lemma HalfZero() ensures Half(0) == 0 && Bit(0) == 0 {}

  lemma FitsHalf(v: bv64, w: nat)
    requires Fits(v, w) && w > 0
    ensures Fits(Half(v), w - 1)
  {
    HalfZero();
    hide Half;
  }

  lemma {:induction false} SameVal(a: bv64, b: bv64, w: nat)
    requires Fits(a, w) && Fits(b, w) && LowVal(a, w) == LowVal(b, w)
    ensures a == b
    decreases w
  {
    if w > 0 {
      hide *;
      FitsHalf(a, w);
      FitsHalf(b, w);
      Unfold(a, w);
      Unfold(b, w);
      SameVal(Half(a), Half(b), w - 1);
      SameHalves(a, b);
    }
  }

  lemma IncEven(a: bv64)
    requires Bit(a) == 0
    ensures Half(Inc(a)) == Half(a) && Bit(Inc(a)) == 1
  {}
  lemma IncOdd(a: bv64)
    requires Bit(a) == 1 && a != 0xFFFF_FFFF_FFFF_FFFF
    ensures Half(Inc(a)) == Inc(Half(a)) && Bit(Inc(a)) == 0 && Half(a) != 0xFFFF_FFFF_FFFF_FFFF
  {}

  /** Adding one, short of the wrap-around. */
  lemma {:induction false} IncVal(a: bv64, w: nat)
    requires Fits(a, w) && a != 0xFFFF_FFFF_FFFF_FFFF
    ensures LowVal(Inc(a), w + 1) == LowVal(a, w + 1) + 1
    decreases w
  {
    if w == 0 {
      assert LowVal(1, 1) == 1;
    } else {
      hide *;
      Unfold(a, w + 1);
      Unfold(Inc(a), w + 1);
      if Bit(a) == 0 {
        IncEven(a);
      } else {
        IncOdd(a);
        FitsHalf(a, w);
        IncVal(Half(a), w - 1);
      }
    }
  }

  lemma {:induction false} WiderVal(a: bv64, w: nat)
    requires Fits(a, w)
    ensures LowVal(a, w + 1) == LowVal(a, w)
    decreases w
  {
    if w == 0 {
      assert LowVal(0, 1) == 0;
    } else {
      hide *;
      Unfold(a, w + 1);
      Unfold(a, w);
      FitsHalf(a, w);
      WiderVal(Half(a), w - 1);
    }
  }

  lemma ValInc(a: bv64)
    ensures Inc(a) == 0 || Val(Inc(a)) == Val(a) + 1
    ensures Inc(a) == 0 ==> a == 0xFFFF_FFFF_FFFF_FFFF
  {
    if Inc(a) != 0 {
      hide LowVal, Fits;
      Fits64(a);
      Fits64(Inc(a));
      IncVal(a, 64);
      WiderVal(a, 64);
      WiderVal(Inc(a), 64);
    }
  }

  lemma MaskHalf(M: bv64) requires LowMask(M) ensures LowMask(Half(M)) {}
  lemma HalfOr(a: bv64, M: bv64) ensures Half(Or(a, M)) == Or(Half(a), Half(M)) {}
  lemma HalfAndNot(a: bv64, M: bv64) ensures Half(And(a, Not(M))) == And(Half(a), Not(Half(M))) {}
  lemma BitRange(v: bv64) ensures Bit(v) == 0 || Bit(v) == 1 {}
  lemma BitOr(a: bv64, M: bv64) requires Bit(M) == 1 ensures Bit(Or(a, M)) == 1 {}
  lemma BitAndNot(a: bv64, M: bv64) requires Bit(M) == 1 ensures Bit(And(a, Not(M))) == 0 {}
  lemma NoMask(a: bv64, M: bv64) requires LowMask(M) && Bit(M) == 0 ensures And(a, Not(M)) == a && Or(a, M) == a {}

  /** Above a low mask a word keeps half of what it was, with a zero below. */
  lemma HalveMasked(a: bv64, M: bv64, w: nat)
    requires LowMask(M) && Bit(M) == 1 && w > 0
    ensures LowMask(Half(M))
    ensures LowVal(a, w) == 2 * LowVal(Half(a), w - 1) + Bit(a)
    ensures LowVal(Or(a, M), w) == 2 * LowVal(Or(Half(a), Half(M)), w - 1) + 1
    ensures LowVal(And(a, Not(M)), w) == 2 * LowVal(And(Half(a), Not(Half(M))), w - 1)
  {
    hide *;
    MaskHalf(M);
    HalfOr(a, M); HalfAndNot(a, M); BitOr(a, M); BitAndNot(a, M);
    Unfold(a, w); Unfold(Or(a, M), w); Unfold(And(a, Not(M)), w);
  }

  lemma NoWidth(v: bv64) ensures LowVal(v, 0) == 0 {}

  /** With a mask that is not empty, halving keeps a word between the two bounds. */
  lemma HalvesBetween(a: bv64, b: bv64, M: bv64, w: nat)
    requires LowMask(M) && Bit(M) == 1 && w > 0
    requires LowVal(a, w) <= LowVal(b, w) <= LowVal(Or(a, M), w)
    ensures LowVal(Half(a), w - 1) <= LowVal(Half(b), w - 1) <= LowVal(Or(Half(a), Half(M)), w - 1)
  {
    hide *;
    HalveMasked(a, M, w);
    Unfold(a, w);
    Unfold(b, w);
    BitRange(a);
    BitRange(b);
  }

  /** Words between `a` and `a` with the low mask filled agree with `a` above the mask. */
  lemma {:induction false} SameBlock(a: bv64, b: bv64, M: bv64, w: nat)
    requires LowMask(M)
    requires LowVal(a, w) <= LowVal(b, w) <= LowVal(Or(a, M), w)
    ensures LowVal(And(a, Not(M)), w) == LowVal(And(b, Not(M)), w)
    decreases w
  {
    hide *;
    if w == 0 {
      NoWidth(And(a, Not(M)));
      NoWidth(And(b, Not(M)));
    } else if Bit(M) == 0 {
      NoMask(a, M);
      NoMask(b, M);
    } else {
      BitRange(M);
      HalvesBetween(a, b, M, w);
      HalveMasked(a, M, w);
      HalveMasked(b, M, w);
      SameBlock(Half(a), Half(b), Half(M), w - 1);
    }
  }

  // ----- The reversed cursor -----

  /** The cursor after `v` for a table of mask `m`: set the bits outside the mask, then add
      one in reversed order. */
  function Advance(v: bv64, m: bv64): bv64 { Rev(Inc(Rev(Or(v, Not(m))))) }

  /** The place of a cursor, or of a hash, in the order the cursor runs through. */
  function Place(v: bv64): nat { Val(Rev(v)) }

  lemma RevZero() ensures Rev(0) == 0 {}
  lemma OrSubset(a: bv64, M: bv64) ensures Subset(a, Or(a, M)) {}
  lemma AdvanceIs(v: bv64, m: bv64)
    ensures Advance(v, m) == Rev(Inc(Rev(Or(v, Not(m)))))
    ensures Place(v) == Val(Rev(v))
  {}

  /** In reversed order a step adds one above the low bits the mask does not cover. */
  lemma AdvanceReversed(v: bv64, m: bv64)
    ensures Rev(Advance(v, m)) == Inc(Or(Rev(v), Rev(Not(m))))
    ensures Advance(v, m) == 0 <==> Rev(Advance(v, m)) == 0
  {
    hide *;
    AdvanceIs(v, m);
    RevRev(Inc(Rev(Or(v, Not(m)))));
    RevOr(v, Not(m));
    RevZero();
    RevRev(Advance(v, m));
  }

  /** The cursor moves strictly forward until it wraps to zero. */
  lemma AdvanceGrows(v: bv64, m: bv64)
    ensures Advance(v, m) == 0 || Place(v) < Place(Advance(v, m))
  {
    var a, M := Rev(v), Rev(Not(m));
    hide Rev, Not, Or, Inc, Advance, Subset, LowVal;
    AdvanceReversed(v, m);
    OrSubset(a, M);
    SubsetVal(a, Or(a, M), 64);
    ValInc(Or(a, M));
  }

  /** Between a cursor and the next lie only words of the cursor's own bucket. */
  lemma AdvanceCovers(v: bv64, m: bv64, h: bv64)
    requires LowMask(m)
    requires Place(v) <= Place(h) && (Advance(v, m) == 0 || Place(h) < Place(Advance(v, m)))
    ensures And(h, m) == And(v, m)
  {
    var a, b, M := Rev(v), Rev(h), Rev(Not(m));
    hide Rev, Not, Or, And, Inc, Advance, LowMask, LowVal, Fits;
    AdvanceReversed(v, m);
    RevMask(m);
    ValInc(Or(a, M));
    if Inc(Or(a, M)) == 0 { AllOnes(b, Or(a, M)); }
    SameBlock(a, b, M, 64);
    Fits64(And(a, Not(M)));
    Fits64(And(b, Not(M)));
    SameVal(And(a, Not(M)), And(b, Not(M)), 64);
    UnmaskedRev(v, m);
    UnmaskedRev(h, m);
    RevRev(And(v, m));
    RevRev(And(h, m));
  }

  lemma AllOnes(b: bv64, ones: bv64)
    requires ones == 0xFFFF_FFFF_FFFF_FFFF
    ensures Val(b) <= Val(ones)
  {
    assert Subset(b, ones);
    hide *;
    SubsetVal(b, ones, 64);
    ValIs(b);
    ValIs(ones);
  }
  lemma ValIs(v: bv64) ensures Val(v) == LowVal(v, 64) {}

  lemma FullMask() ensures Mask(64) == 0xFFFF_FFFF_FFFF_FFFF && Pow2(64) == 2 * Pow2(63) {}

  /** The word of all ones is worth 2^64 - 1. */
  lemma LargestVal()
    ensures Val(0xFFFF_FFFF_FFFF_FFFF) == 0xFFFF_FFFF_FFFF_FFFF
  {
    hide *;
    FullMask();
    Pow2Of63();
    MaskVal(64, 64);
    ValIs(0xFFFF_FFFF_FFFF_FFFF);
  }

  lemma UnmaskedRev(v: bv64, m: bv64)
    ensures And(Rev(v), Not(Rev(Not(m)))) == Rev(And(v, m))
  {
    hide *;
    RevNot(m);
    NotNot(Rev(m));
    RevAnd(v, m);
  }

  /** While the bits between the two masks are not all zero, the cursor has not left the
      bucket of the smaller table: otherwise it would stand where that table's own next
      cursor stands, which has none of those bits. */
  lemma AdvanceStays(v: bv64, m0: bv64, m1: bv64)
    requires LowMask(m0) && LowMask(m1) && Subset(m0, m1)
    requires And(Advance(v, m1), Xor(m0, m1)) != 0
    ensures And(Advance(v, m1), m0) == And(v, m0)
  {
    var v', u := Advance(v, m1), Advance(v, m0);
    hide *;
    ZeroAnd(Xor(m0, m1));
    AdvanceGrows(v, m1);
    if u != 0 && Place(u) <= Place(v') {
      AdvanceOrder(v, m0, m1);
      SamePlace(u, v');
      AdvanceMasked(v, m0);
      OutsideMask(u, m0, m1);
    } else {
      AdvanceCovers(v, m0, v');
    }
  }

  lemma ZeroAnd(x: bv64) ensures And(0, x) == 0 {}

  lemma OutsideMask(u: bv64, m0: bv64, m1: bv64)
    requires Subset(m0, m1) && And(u, Not(m0)) == 0
    ensures And(u, Xor(m0, m1)) == 0
  {}

  lemma SamePlace(u: bv64, v: bv64)
    requires Place(u) == Place(v)
    ensures u == v
  {
    hide Rev, LowVal, Fits;
    Fits64(Rev(u));
    Fits64(Rev(v));
    SameVal(Rev(u), Rev(v), 64);
    RevRev(u);
    RevRev(v);
  }

  lemma AdvanceMasked(v: bv64, m: bv64)
    requires LowMask(m)
    ensures And(Advance(v, m), Not(m)) == 0
  {
    hide *;
    AdvanceReversed(v, m);
    RevMask(m);
    CarryClears(Rev(v), Rev(Not(m)));
    RevAnd(Advance(v, m), Not(m));
    RevRev(And(Advance(v, m), Not(m)));
    RevZero();
  }

  lemma CarryClears(a: bv64, M: bv64)
    requires LowMask(M)
    ensures And(Inc(Or(a, M)), M) == 0
  {}

  /** The bigger table's next cursor does not pass the smaller table's. */
  lemma AdvanceOrder(v: bv64, m0: bv64, m1: bv64)
    requires Subset(m0, m1) && Advance(v, m0) != 0 && Advance(v, m1) != 0
    ensures Place(Advance(v, m1)) <= Place(Advance(v, m0))
  {
    var a, M0, M1 := Rev(v), Rev(Not(m0)), Rev(Not(m1));
    hide Rev, Not, Or, Inc, Xor, And, Advance, LowVal, Subset;
    AdvanceReversed(v, m0);
    AdvanceReversed(v, m1);
    ValInc(Or(a, M0));
    ValInc(Or(a, M1));
    NotSubset(m0, m1);
    RevAnd(Not(m1), Not(m0));
    OrGrows(a, M1, M0);
    SubsetVal(Or(a, M1), Or(a, M0), 64);
  }

  /** Where the step stops, it stands where the smaller table's own next cursor does. */
  lemma AdvanceMeets(v: bv64, m0: bv64, m1: bv64)
    requires LowMask(m0) && LowMask(m1) && Subset(m0, m1)
    requires And(Advance(v, m1), Xor(m0, m1)) == 0
    ensures Advance(v, m1) == Advance(v, m0)
  {
    var v', u := Advance(v, m1), Advance(v, m0);
    hide *;
    if v' == 0 {
      AdvanceWraps(v, m0, m1);
    } else {
      AdvanceGrows(v, m1);
      AdvanceMasked(v, m1);
      InsideMask(v', m0, m1);
      if u == 0 || Place(v') < Place(u) {
        AdvanceCovers(v, m0, v');
        Aligned(v', m0);
        MaskedPlace(v, m0);
        assert false;
      }
      AdvanceOrder(v, m0, m1);
      SamePlace(u, v');
    }
  }

  lemma AdvanceWraps(v: bv64, m0: bv64, m1: bv64)
    requires Subset(m0, m1) && Advance(v, m1) == 0
    ensures Advance(v, m0) == 0
  {
    var a, M0, M1 := Rev(v), Rev(Not(m0)), Rev(Not(m1));
    hide *;
    AdvanceReversed(v, m0);
    AdvanceReversed(v, m1);
    NotSubset(m0, m1);
    RevAnd(Not(m1), Not(m0));
    OrGrows(a, M1, M0);
    FullSubset(Or(a, M1), Or(a, M0));
  }

  lemma FullSubset(a: bv64, b: bv64)
    requires Subset(a, b) && Inc(a) == 0
    ensures Inc(b) == 0
  {}

  lemma InsideMask(u: bv64, m0: bv64, m1: bv64)
    requires Subset(m0, m1) && And(u, Not(m1)) == 0 && And(u, Xor(m0, m1)) == 0
    ensures And(u, Not(m0)) == 0
  {}

  lemma Aligned(u: bv64, m: bv64)
    requires And(u, Not(m)) == 0
    ensures And(u, m) == u
  {}

  /** Under a mask a word is not placed later. */
  lemma MaskedPlace(v: bv64, m: bv64)
    ensures Place(And(v, m)) <= Place(v)
  {
    hide *;
    RevAnd(v, m);
    AndSubset(Rev(v), Rev(m));
    SubsetVal(Rev(And(v, m)), Rev(v), 64);
    AdvanceIs(v, m);
    AdvanceIs(And(v, m), m);
    ValIs(Rev(v));
    ValIs(Rev(And(v, m)));
  }

  lemma AndSubset(a: bv64, b: bv64) ensures Subset(And(a, b), a) {}

  /** Words of one bucket have the same next cursor. */
  lemma AdvanceSame(v: bv64, w: bv64, m: bv64)
    requires And(v, m) == And(w, m)
    ensures Advance(v, m) == Advance(w, m)
  {
    OrMasked(v, w, m);
    hide Rev;
  }

  lemma OrMasked(v: bv64, w: bv64, m: bv64)
    requires And(v, m) == And(w, m)
    ensures Or(v, Not(m)) == Or(w, Not(m))
  {}

  // ----- How far a step goes -----

  /** How many places a bucket of a table with mask `m` takes. */
  function Span(m: bv64): nat { Val(Rev(Not(m))) + 1 }

  /** A word above a mask, and the mask, add up to the word with the mask filled in. */
  lemma {:induction false} OrSum(a: bv64, M: bv64, w: nat)
    ensures LowVal(Or(a, M), w) == LowVal(And(a, Not(M)), w) + LowVal(M, w)
    decreases w
  {
    hide *;
    if w == 0 {
      NoWidth(Or(a, M));
      NoWidth(And(a, Not(M)));
      NoWidth(M);
    } else {
      Unfold(Or(a, M), w);
      Unfold(And(a, Not(M)), w);
      Unfold(M, w);
      HalfOr(a, M);
      HalfAndNot(a, M);
      BitSum(a, M);
      OrSum(Half(a), Half(M), w - 1);
    }
  }

  lemma BitSum(a: bv64, M: bv64) ensures Bit(Or(a, M)) == Bit(And(a, Not(M))) + Bit(M) {}

  /** A low mask is the mask of some number of bits. */
  lemma {:induction false} MaskOf(m: bv64, w: nat) returns (k: nat)
    requires LowMask(m) && Fits(m, w) && w <= 64
    ensures k <= w && m == Mask(k)
    decreases w
  {
    hide *;
    SmallMasks();
    if m == 0 {
      k := 0;
    } else {
      FitsSome(m, w);
      LowMaskOdd(m);
      OddBit(m);
      FitsHalf(m, w);
      MaskHalf(m);
      k := MaskOf(Half(m), w - 1);
      k := k + 1;
      MaskHalves(k);
      MaskShape(k);
      OddBit(Mask(k));
      SameHalves(m, Mask(k));
    }
  }

  lemma FitsSome(m: bv64, w: nat) requires Fits(m, w) && m != 0 ensures w > 0 {}

  /** The bits outside a mask, reversed, are the mask of as many bits as are left. */
  lemma {:induction false} RevNotMask(k: nat)
    requires k <= 64
    ensures Rev(Not(Mask(k))) == Mask(64 - k)
    decreases 64 - k
  {
    hide *;
    if k == 64 {
      SmallMasks();
      FullMask();
      NotFull();
      RevZero();
    } else {
      RevNotMask(k + 1);
      MaskHalves(k + 1);
      MaskShape(k + 1);
      RevNotHalf(Mask(k + 1));
      MaskHalves(64 - k);
      MaskShape(64 - k);
      OddBit(Mask(64 - k));
      SameHalves(Rev(Not(Mask(k))), Mask(64 - k));
    }
  }

  lemma NotFull() ensures Not(0xFFFF_FFFF_FFFF_FFFF) == 0 {}

  lemma RevNotHalf(m: bv64)
    requires m & 1 == 1
    ensures Half(Rev(Not(Half(m)))) == Rev(Not(m)) && Bit(Rev(Not(Half(m)))) == 1
  {}

  /** The buckets of a table share out all places. */
  lemma SpanTimes(m: bv64)
    requires LowMask(m)
    ensures Span(m) * (Val(m) + 1) == 0x1_0000_0000_0000_0000
  {
    hide *;
    Fits64(m);
    var k := MaskOf(m, 64);
    RevNotMask(k);
    MaskVal(k, 64);
    MaskVal(64 - k, 64);
    ValIs(m);
    ValIs(Mask(64 - k));
    SpanIs(m);
    Pow2Sum(64 - k, k);
    FullMask();
    Pow2Of63();
  }

  lemma SpanIs(m: bv64) ensures Span(m) == Val(Rev(Not(m))) + 1 {}

  /** From a cursor of the table itself a step goes on by one bucket's places, to the next
      cursor of the table, or to 0 at the end. */
  lemma AdvanceBy(v: bv64, m: bv64)
    requires LowMask(m) && And(v, Not(m)) == 0
    ensures And(Advance(v, m), Not(m)) == 0
    ensures if Advance(v, m) == 0 then Place(v) + Span(m) == 0x1_0000_0000_0000_0000
            else Place(Advance(v, m)) == Place(v) + Span(m)
  {
    hide *;
    var a, M := Rev(v), Rev(Not(m));
    AdvanceMasked(v, m);
    AdvanceReversed(v, m);
    AdvanceIs(v, m);
    AdvanceIs(Advance(v, m), m);
    RevAnd(v, Not(m));
    RevZero();
    Disjoint(a, M);
    OrSum(a, M, 64);
    ValIs(a);
    ValIs(M);
    ValIs(Or(a, M));
    SpanIs(m);
    ValInc(Or(a, M));
    LargestVal();
    IncFull(Or(a, M));
  }

  lemma Disjoint(a: bv64, M: bv64) requires And(a, M) == 0 ensures And(a, Not(M)) == a {}
  lemma IncFull(a: bv64) ensures Inc(a) == 0 <==> a == 0xFFFF_FFFF_FFFF_FFFF {}

  lemma NotSubset(m0: bv64, m1: bv64)
    requires Subset(m0, m1)
    ensures And(Not(m1), Not(m0)) == Not(m1)
  {}

  lemma OrGrows(a: bv64, M1: bv64, M0: bv64)
    requires And(M1, M0) == M1
    ensures Subset(Or(a, M1), Or(a, M0))
  {}

  /** Of two low masks the smaller is part of the larger. */
  lemma {:induction false} MasksNest(a: bv64, b: bv64, w: nat)
    requires LowMask(a) && LowMask(b) && Fits(a, w) && LowVal(a, w) <= LowVal(b, w)
    ensures Subset(a, b)
    decreases w
  {
    if w == 0 || Bit(a) == 0 {
      assert a == 0 by { hide LowVal; if w > 0 { NoMask(0, a); } }
      hide LowVal, Fits, LowMask;
    } else {
      hide *;
      BitRange(a);
      BitRange(b);
      Unfold(a, w);
      Unfold(b, w);
      FitsHalf(a, w);
      MaskHalf(a);
      MaskHalf(b);
      if Bit(b) == 0 {
        NoMask(0, b);
        OrZero(b);
        ZeroVal(w);
      } else {
        MasksNest(Half(a), Half(b), w - 1);
        SubsetHalves(a, b);
      }
    }
  }
  lemma OrZero(b: bv64) requires Or(0, b) == 0 ensures b == 0 {}
  lemma SubsetHalves(a: bv64, b: bv64)
    requires Subset(Half(a), Half(b)) && Bit(b) == 1
    ensures Subset(a, b)
  {}
  lemma NarrowMask(a: bv64, b: bv64, h: bv64, v: bv64)
    requires Subset(a, b) && And(h, b) == And(v, b)
    ensures And(h, a) == And(v, a)
  {}
}
