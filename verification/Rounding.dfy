/** Rounding to powers of two by smearing the leading bit downwards. */
module Rounding {
  import opened Powers
  import opened BitOps
  import opened Masks

  function SmearStep(y: nat, s: nat): nat { Or(y, Shr(y, s)) }

  function Smear32(y: nat): nat { SmearStep(SmearStep(SmearStep(SmearStep(SmearStep(y, 1), 2), 4), 8), 16) }
  function Smear64(y: nat): nat { SmearStep(Smear32(y), 32) }

  function NextPow2U32(x: Word32): Word32 {
    var y := Smear32((x - 1) % 0x1_0000_0000);
    (y + 1) % 0x1_0000_0000
  }

  function PrevPow2U32(x: Word32): int {
    var y := Smear32(x);
    y - Shr(y, 1)
  }

  function PrevPow2U64(x: Word64): int {
    var y := Smear64(x);
    y - Shr(y, 1)
  }

  // ----- what smearing does to the bits

  /** Some bit among the w from position i up is set. */
  predicate Window(x: nat, i: nat, w: nat)
    decreases w
  {
    w > 0 && (Bit(x, i) || Window(x, i + 1, w - 1))
  }

  lemma {:induction false} WindowSplit(x: nat, i: nat, a: nat, b: nat)
    ensures Window(x, i, a + b) == (Window(x, i, a) || Window(x, i + a, b))
    decreases a
  {
    if a > 0 { WindowSplit(x, i + 1, a - 1, b); }
  }

  lemma {:induction false} WindowHas(x: nat, i: nat, w: nat, k: nat)
    requires i <= k < i + w && Bit(x, k)
    ensures Window(x, i, w)
    decreases w
  {
    if i < k { WindowHas(x, i + 1, w - 1, k); }
  }

  lemma {:induction false} WindowEmpty(x: nat, i: nat, w: nat)
    requires x < Pow2(i)
    ensures !Window(x, i, w)
    decreases w
  {
    if w > 0 {
      if Bit(x, i) { BitWeight(x, i); }
      WindowEmpty(x, i + 1, w - 1);
    }
  }

  lemma {:induction false} BitOr(a: nat, b: nat, i: nat)
    ensures Bit(Or(a, b), i) == (Bit(a, i) || Bit(b, i))
  {
    OrStep(a, b);
    if i > 0 {
      hide Or;
      BitOr(a / 2, b / 2, i - 1);
    }
  }

  lemma {:induction false} BitShr(x: nat, s: nat, i: nat)
    ensures Bit(Shr(x, s), i) == Bit(x, i + s)
  {
    if s > 0 { BitShr(x / 2, s - 1, i); }
  }

  /** Each bit of y says whether x has a bit among the w from there up. */
  ghost predicate Smeared(y: nat, x: nat, w: nat) { forall i: nat :: Bit(y, i) == Window(x, i, w) }

  /** Smearing by the width reached so far doubles it. */
  lemma SmearDoubles(y: nat, x: nat, w: nat)
    requires Smeared(y, x, w)
    ensures Smeared(SmearStep(y, w), x, w + w)
  {
    hide Bit, Window, Or, Shr;
    forall i: nat ensures Bit(SmearStep(y, w), i) == Window(x, i, w + w) {
      BitOr(y, Shr(y, w), i);
      BitShr(y, w, i);
      WindowSplit(x, i, w, w);
    }
  }

  lemma SmearedOnce(x: nat)
    ensures Smeared(x, x, 1)
  {
    forall i: nat ensures Bit(x, i) == Window(x, i, 1) {
      assert !Window(x, i + 1, 0);
    }
  }

  lemma Smear32Bits(x: nat)
    ensures Smeared(Smear32(x), x, 32)
  {
    hide Smeared, SmearStep;
    SmearedOnce(x);
    SmearDoubles(x, x, 1);
    var y1 := SmearStep(x, 1);
    SmearDoubles(y1, x, 2);
    var y2 := SmearStep(y1, 2);
    SmearDoubles(y2, x, 4);
    var y4 := SmearStep(y2, 4);
    SmearDoubles(y4, x, 8);
    SmearDoubles(SmearStep(y4, 8), x, 16);
  }

  // ----- numbers from bits

  /** The position of the leading bit. */
  function Lead(x: nat): nat
    requires x > 0
  {
    if x == 1 then 0 else 1 + Lead(x / 2)
  }

  lemma {:induction false} LeadBounds(x: nat)
    requires x > 0
    ensures Pow2(Lead(x)) <= x < 2 * Pow2(Lead(x)) && Bit(x, Lead(x))
    decreases x
  {
    if x > 1 { LeadBounds(x / 2); }
  }

  lemma {:induction false} NoBits(y: nat)
    requires forall i: nat :: !Bit(y, i)
    ensures y == 0
    decreases y
  {
    if y > 0 { LeadBounds(y); }
  }

  /** A number with exactly the n lowest bits set. */
  lemma {:induction false} AllOnes(y: nat, n: nat)
    requires forall i: nat :: Bit(y, i) == (i < n)
    ensures y == Pow2(n) - 1
    decreases n
  {
    if n == 0 {
      NoBits(y);
    } else {
      assert Bit(y, 0) == (0 < n) && y % 2 == 1;
      forall i: nat ensures Bit(y / 2, i) == (i < n - 1) {
        assert Bit(y, i + 1) == (i + 1 < n);
      }
      AllOnes(y / 2, n - 1);
    }
  }

  /** Smeared over a window that reaches the bottom, a number becomes all ones below its leading bit. */
  lemma SmearFills(y: nat, x: nat, w: nat)
    requires x > 0 && Smeared(y, x, w) && Lead(x) < w
    ensures y == 2 * Pow2(Lead(x)) - 1
  {
    var k := Lead(x);
    LeadBounds(x);
    assert Pow2(k + 1) == 2 * Pow2(k);
    hide Bit, Window, Lead, Pow2;
    forall i: nat ensures Bit(y, i) == (i < k + 1) {
      if i <= k {
        WindowHas(x, i, w, k);
      } else {
        Pow2Grows(k + 1, i);
        WindowEmpty(x, i, w);
      }
    }
    AllOnes(y, k + 1);
  }

  lemma LeadBelow(x: nat, w: nat)
    requires 0 < x < Pow2(w)
    ensures Lead(x) < w
  {
    LeadBounds(x);
    if Lead(x) >= w { Pow2Grows(w, Lead(x)); }
  }

  lemma ZeroStep(s: nat)
    ensures SmearStep(0, s) == 0 && Shr(0, s) == 0
  {
    ShrSmaller(0, s);
  }

  lemma ZeroSmears()
    ensures Smear32(0) == 0 && Smear64(0) == 0 && Shr(0, 1) == 0
  {
    hide SmearStep, Shr;
    ZeroStep(1);
    ZeroStep(2);
    ZeroStep(4);
    ZeroStep(8);
    ZeroStep(16);
    ZeroStep(32);
  }

  // ----- the rounding functions

  ghost predicate IsPow2(p: int) { exists k: nat :: p == Pow2(k) }

  /** The greatest power of two not above x. */
  ghost predicate Greatest(p: int, x: nat) {
    IsPow2(p) && p <= x && forall k: nat :: Pow2(k) <= x ==> Pow2(k) <= p
  }

  /** The least power of two not below x. */
  ghost predicate Least(p: int, x: nat) {
    IsPow2(p) && x <= p && forall k: nat :: x <= Pow2(k) ==> p <= Pow2(k)
  }

  lemma LeadIsGreatest(x: nat)
    requires x > 0
    ensures Greatest(Pow2(Lead(x)), x)
  {
    LeadBounds(x);
    hide Lead;
    forall k: nat | Pow2(k) <= x ensures Pow2(k) <= Pow2(Lead(x)) {
      if k > Lead(x) { Pow2Grows(Lead(x) + 1, k); }
    }
  }

  /** Above a number that is not zero, the next power of two is the one past its leading bit. */
  lemma LeadIsLeast(y: nat)
    requires y > 0
    ensures Least(2 * Pow2(Lead(y)), y + 1)
  {
    LeadBounds(y);
    assert 2 * Pow2(Lead(y)) == Pow2(Lead(y) + 1);
    hide Lead;
    forall k: nat | y + 1 <= Pow2(k) ensures 2 * Pow2(Lead(y)) <= Pow2(k) {
      if k <= Lead(y) { Pow2Grows(k, Lead(y)); } else { Pow2Grows(Lead(y) + 1, k); }
    }
  }

  lemma HalfOfOnes(p: nat)
    requires p > 0
    ensures 2 * p - 1 - Shr(2 * p - 1, 1) == p
  {
    assert Shr(2 * p - 1, 1) == Shr((2 * p - 1) / 2, 0);
  }

  lemma PrevPow2U32Rounds(x: Word32)
    ensures if x == 0 then PrevPow2U32(x) == 0 else Greatest(PrevPow2U32(x), x)
  {
    Pow2Values();
    hide Smear32, Shr, Pow2, Greatest, Lead;
    ZeroSmears();
    if x != 0 {
      Smear32Bits(x);
      LeadBelow(x, 32);
      SmearFills(Smear32(x), x, 32);
      HalfOfOnes(Pow2(Lead(x)));
      LeadIsGreatest(x);
    }
  }

  lemma PrevPow2U64Rounds(x: Word64)
    ensures if x == 0 then PrevPow2U64(x) == 0 else Greatest(PrevPow2U64(x), x)
  {
    Pow2Values();
    hide Smear32, SmearStep, Shr, Pow2, Greatest, Lead, Smeared;
    ZeroSmears();
    if x != 0 {
      Smear32Bits(x);
      SmearDoubles(Smear32(x), x, 32);
      LeadBelow(x, 64);
      SmearFills(Smear64(x), x, 64);
      HalfOfOnes(Pow2(Lead(x)));
      LeadIsGreatest(x);
    }
  }

  /** The power of two past the leading bit, seen against 2^31 and 2^32. */
  lemma NextAgainstWord(y: Word32)
    requires y > 0
    ensures if y < 0x8000_0000 then 2 * Pow2(Lead(y)) <= 0x8000_0000 else 2 * Pow2(Lead(y)) == 0x1_0000_0000
  {
    Pow2Values();
    var k := Lead(y);
    assert 2 * Pow2(k) == Pow2(k + 1);
    LeadBounds(y);
    hide *;
    if y < 0x8000_0000 {
      LeadBelow(y, 31);
      Pow2Grows(k + 1, 31);
    } else {
      LeadBelow(y, 32);
      if k < 31 { Pow2Grows(k + 1, 31); } else { Pow2Grows(32, k + 1); Pow2Grows(k + 1, 32); }
    }
  }

  lemma OneIsLeast()
    ensures Least(1, 1)
  {
    assert Pow2(0) == 1;
  }

  /** Rounding up is right exactly from 1 to 2^31; beyond, and at 0, it wraps to zero. */
  lemma NextPow2U32Rounds(x: Word32)
    ensures if 1 <= x <= 0x8000_0000 then Least(NextPow2U32(x), x) else NextPow2U32(x) == 0
  {
    Pow2Values();
    hide Smear32, Pow2, Lead, Least, Smeared;
    ZeroSmears();
    OneIsLeast();
    if x != 1 {
      var y := (x - 1) % 0x1_0000_0000;
      Smear32Bits(y);
      LeadBelow(y, 32);
      SmearFills(Smear32(y), y, 32);
      LeadIsLeast(y);
      NextAgainstWord(y);
    }
  }

  lemma BetweenPowers(k: nat)
    ensures !(0x8000_0000 < Pow2(k) < 0x1_0000_0000)
  {
    hide Pow2;
    Pow2Values();
    if k <= 31 { Pow2Grows(k, 31); } else { Pow2Grows(32, k); }
  }

  /** Both roundings agree exactly on the powers of two, and at 0, where both yield 0. */
  lemma RoundingsAgree(x: Word32)
    ensures PrevPow2U32(x) == NextPow2U32(x) <==> x == 0 || IsPow2(x)
  {
    hide PrevPow2U32, NextPow2U32, Pow2;
    PrevPow2U32Rounds(x);
    NextPow2U32Rounds(x);
    if x > 0x8000_0000 && IsPow2(x) {
      var k: nat :| x == Pow2(k);
      BetweenPowers(k);
    }
  }
}
