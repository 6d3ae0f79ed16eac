/** Counting and finding set bits: each fast form against its plain definition. */
module Masks {
  import opened Powers
  import opened BitOps

  /** The number of set bits. */
  function Ones(x: nat): nat { if x == 0 then 0 else x % 2 + Ones(x / 2) }

  lemma {:induction false} OnesSplit(x: nat, w: nat)
    ensures Ones(x) == Ones(Low(x, w)) + Ones(Shr(x, w))
  {
    if w > 0 {
      OnesSplit(x / 2, w - 1);
      LowStep(x, w);
    }
  }

  lemma {:induction false} OnesBound(x: nat, w: nat)
    ensures Ones(Low(x, w)) <= w
  {
    if w > 0 {
      OnesBound(x / 2, w - 1);
      LowStep(x, w);
    }
  }

  // ----- population count in parallel lanes

  /** A mask with m in each of n lanes of b bits. */
  function Rep(m: nat, b: nat, n: nat): nat { if n == 0 then 0 else Join(m, Rep(m, b, n - 1), b) }

  /** The number whose n lanes of b bits hold the bit counts of the lanes of x. */
  function Spread(x: nat, b: nat, n: nat): nat
    decreases n
  {
    if n == 0 then 0 else Join(Ones(Low(x, b)), Spread(Shr(x, b), b, n - 1), b)
  }

  function PopCount32(x: Word32): nat {
    var t1 := (x - And(Shr(x, 1), 0x5555_5555)) % 0x1_0000_0000;
    var t2 := (And(t1, 0x3333_3333) + And(Shr(t1, 2), 0x3333_3333)) % 0x1_0000_0000;
    var t3 := And((t2 + Shr(t2, 4)) % 0x1_0000_0000, 0x0F0F_0F0F);
    Shr(t3 * 0x0101_0101 % 0x1_0000_0000, 24)
  }

  function PopCount64(x: Word64): nat {
    var t1 := (x - And(Shr(x, 1), 0x5555_5555_5555_5555)) % 0x1_0000_0000_0000_0000;
    var t2 := (And(t1, 0x3333_3333_3333_3333) + And(Shr(t1, 2), 0x3333_3333_3333_3333)) % 0x1_0000_0000_0000_0000;
    var t3 := And((t2 + Shr(t2, 4)) % 0x1_0000_0000_0000_0000, 0x0F0F_0F0F_0F0F_0F0F);
    Shr(t3 * 0x0101_0101_0101_0101 % 0x1_0000_0000_0000_0000, 56)
  }

  lemma NoLanes(x: nat, m: nat, b: nat)
    ensures Rep(m, b, 0) == 0 && Spread(x, b, 0) == 0 && And(x, 0) == 0 && Pow2(0) == 1
  {
  }

  lemma RepStep(m: nat, b: nat, n: nat)
    requires n > 0
    ensures Rep(m, b, n) == Join(m, Rep(m, b, n - 1), b)
  {
  }

  lemma SpreadStep(x: nat, b: nat, n: nat)
    requires n > 0
    ensures Spread(x, b, n) == Join(Ones(Low(x, b)), Spread(Shr(x, b), b, n - 1), b)
  {
  }

  /** A lane mask acts on the lowest lane and on the others. */
  lemma AndLane(a: nat, m: nat, r: nat, b: nat)
    requires m < Pow2(b)
    ensures And(a, Join(m, r, b)) == Join(And(Low(a, b), m), And(Shr(a, b), r), b)
  {
    hide *;
    AndSplit(a, Join(m, r, b), b);
    LowShrOf(m, r, b);
  }

  lemma JoinSub(a: nat, b: nat, c: nat, d: nat, n: nat)
    requires c <= a && d <= b
    ensures Join(c, d, n) <= Join(a, b, n) && Join(a, b, n) - Join(c, d, n) == Join(a - c, b - d, n)
  {
    var p := Pow2(n);
    assert p * (b - d) == p * b - p * d;
  }

  lemma JoinAdd(a: nat, b: nat, c: nat, d: nat, n: nat)
    ensures Join(a, b, n) + Join(c, d, n) == Join(a + c, b + d, n)
  {
    var p := Pow2(n);
    assert p * (b + d) == p * b + p * d;
  }

  lemma LowestPair(x: nat)
    ensures x == Join(Low(x, 2), Shr(x, 2), 2) && Low(x, 2) < 4 == Pow2(2)
    ensures And(Low(Shr(x, 1), 2), 1) == Low(x, 2) / 2 <= Low(x, 2)
    ensures Low(x, 2) - Low(x, 2) / 2 == Ones(Low(x, 2))
  {
    var l, y := Low(x, 2), Low(Shr(x, 1), 2);
    assert Low(x / 2, 1) == x / 2 % 2 && Low(x / 2 / 2, 1) == x / 2 / 2 % 2;
    assert l == x % 2 + 2 * (x / 2 % 2) && Shr(x, 1) == x / 2 && y % 2 == x / 2 % 2;
    assert Pow2(1) == 2 && Pow2(2) == 4;
    assert l - l / 2 == Ones(l);
    assert Pow2(1) - 1 == 1 && Low(y, 1) == y % 2;
    hide *;
    LowShrValue(x, 2);
    AndOnes(y, 1);
  }

  /** First step: subtracting the odd bits leaves the count of each pair. */
  lemma {:induction false} PairCounts(x: nat, n: nat)
    requires x < Pow2(2 * n)
    ensures And(Shr(x, 1), Rep(1, 2, n)) <= x
    ensures x - And(Shr(x, 1), Rep(1, 2, n)) == Spread(x, 2, n)
    decreases n
  {
    hide *;
    if n == 0 {
      NoLanes(x, 1, 2);
      NoLanes(Shr(x, 1), 1, 2);
    } else {
      var l, y, r := Low(x, 2), Shr(x, 2), Rep(1, 2, n - 1);
      ShrBound(x, 2 * n, 2);
      PairCounts(y, n - 1);
      LowestPair(x);
      RepStep(1, 2, n);
      SpreadStep(x, 2, n);
      AndLane(Shr(x, 1), 1, r, 2);
      ShrTwice(x, 1, 2);
      ShrTwice(x, 2, 1);
      JoinSub(l, y, l / 2, And(Shr(y, 1), r), 2);
    }
  }

  /** The two lowest lanes of b bits of the counts, and the lanes above. */
  lemma TwoLanes(x: nat, b: nat, n: nat)
    requires n > 1 && b > 0
    ensures var s := Spread(x, b, n);
            var o1, o2, rest := Ones(Low(x, b)), Ones(Low(Shr(x, b), b)), Spread(Shr(x, 2 * b), b, n - 2);
            && Low(s, b) == o1 <= b && Low(Shr(s, b), b) == o2 <= b
            && Shr(s, 2 * b) == rest && s == Join(o1, Join(o2, rest, b), b)
            && Ones(Low(x, 2 * b)) == o1 + o2
  {
    hide *;
    var o1, o2, rest := Ones(Low(x, b)), Ones(Low(Shr(x, b), b)), Spread(Shr(x, 2 * b), b, n - 2);
    SpreadStep(x, b, n);
    SpreadStep(Shr(x, b), b, n - 1);
    ShrTwice(x, b, b);
    OnesBound(x, b);
    OnesBound(Shr(x, b), b);
    Below(b);
    LowShrOf(o1, Join(o2, rest, b), b);
    LowShrOf(o2, rest, b);
    ShrTwice(Spread(x, b, n), b, b);
    LowTwice(x, b);
    OnesSplit(Low(x, 2 * b), b);
  }

  lemma {:induction false} Below(b: nat)
    ensures b < Pow2(b)
  {
    if b > 0 { Below(b - 1); }
  }

  lemma LowTwice(x: nat, b: nat)
    ensures Low(Low(x, 2 * b), b) == Low(x, b) && Shr(Low(x, 2 * b), b) == Low(Shr(x, b), b)
  {
    hide *;
    var l, h := Low(x, b), Low(Shr(x, b), b);
    LowShrValue(x, b);
    LowBound(x, b);
    LowAcross(l, Shr(x, b), b, b);
    LowShrOf(l, h, b);
  }

  /** A mask of the low halves of double lanes, on the lowest of them and on the others. */
  lemma AndHalfLane(y: nat, b: nat, n: nat)
    requires n > 0
    ensures And(y, Rep(Pow2(b) - 1, 2 * b, n)) ==
            Join(Low(y, b), And(Shr(y, 2 * b), Rep(Pow2(b) - 1, 2 * b, n - 1)), 2 * b)
  {
    hide *;
    RepStep(Pow2(b) - 1, 2 * b, n);
    Pow2Grows(b, 2 * b);
    AndLane(y, Pow2(b) - 1, Rep(Pow2(b) - 1, 2 * b, n - 1), 2 * b);
    AndOnes(Low(y, 2 * b), b);
    LowTwice(y, b);
  }

  /** Second step: neighbouring lanes are added after masking. */
  lemma {:induction false} MaskThenAdd(x: nat, b: nat, n: nat)
    requires b > 0
    ensures var s, m := Spread(x, b, 2 * n), Rep(Pow2(b) - 1, 2 * b, n);
            And(s, m) + And(Shr(s, b), m) == Spread(x, 2 * b, n)
    decreases n
  {
    hide *;
    if n == 0 {
      NoLanes(x, Pow2(b) - 1, b);
      NoLanes(x, Pow2(b) - 1, 2 * b);
      NoLanes(0, Pow2(b) - 1, b);
      NoLanes(Shr(0, b), Pow2(b) - 1, b);
    } else {
      var s, r := Spread(x, b, 2 * n), Rep(Pow2(b) - 1, 2 * b, n - 1);
      var rest := Spread(Shr(x, 2 * b), b, 2 * n - 2);
      TwoLanes(x, b, 2 * n);
      MaskThenAdd(Shr(x, 2 * b), b, n - 1);
      SpreadStep(x, 2 * b, n);
      AndHalfLane(s, b, n);
      AndHalfLane(Shr(s, b), b, n);
      ShrTwice(s, b, 2 * b);
      ShrTwice(s, 2 * b, b);
      JoinAdd(Low(s, b), And(rest, r), Low(Shr(s, b), b), And(Shr(rest, b), r), 2 * b);
    }
  }

  lemma SpreadLow(x: nat, b: nat, n: nat)
    ensures Low(Spread(x, b, n), b) <= b
  {
    if n == 0 {
      LowShrValue(0, b);
    } else {
      hide *;
      SpreadStep(x, b, n);
      OnesBound(x, b);
      Below(b);
      LowShrOf(Ones(Low(x, b)), Spread(Shr(x, b), b, n - 1), b);
    }
  }

  /** A number plus itself shifted by a lane, one lane at a time. */
  lemma AddShifted(s: nat, o1: nat, o2: nat, rest: nat, b: nat)
    requires s == Join(o1, Join(o2, rest, b), b) && Shr(s, b) == Join(o2, rest, b)
    requires o1 + o2 < Pow2(b) && o2 + Low(rest, b) < Pow2(b)
    ensures Low(s + Shr(s, b), b) == o1 + o2
    ensures Shr(s + Shr(s, b), 2 * b) == rest + Shr(rest, b)
  {
    hide *;
    var mid, r0, r1 := Join(o2, rest, b), Low(rest, b), Shr(rest, b);
    JoinAdd(o1, mid, o2, rest, b);
    LowShrOf(o1 + o2, mid + rest, b);
    LowShrValue(rest, b);
    JoinAdd(o2, rest, r0, r1, b);
    LowShrOf(o2 + r0, rest + r1, b);
    ShrTwice(s + Shr(s, b), b, b);
  }

  /** Third step: neighbouring lanes are added before masking, and no lane overflows into the next. */
  lemma {:induction false} AddThenMask(x: nat, b: nat, n: nat)
    requires b > 0 && 2 * b < Pow2(b)
    ensures var s := Spread(x, b, 2 * n);
            And(s + Shr(s, b), Rep(Pow2(b) - 1, 2 * b, n)) == Spread(x, 2 * b, n)
    decreases n
  {
    hide *;
    if n == 0 {
      NoLanes(x, Pow2(b) - 1, b);
      NoLanes(x, Pow2(b) - 1, 2 * b);
      NoLanes(0 + Shr(0, b), Pow2(b) - 1, b);
    } else {
      var s, rest := Spread(x, b, 2 * n), Spread(Shr(x, 2 * b), b, 2 * n - 2);
      TwoLanes(x, b, 2 * n);
      LowShrValue(s, b);
      var o1, o2 := Low(s, b), Low(Shr(s, b), b);
      LowShrOf(o1, Join(o2, rest, b), b);
      SpreadLow(Shr(x, 2 * b), b, 2 * n - 2);
      AddShifted(s, o1, o2, rest, b);
      AddThenMask(Shr(x, 2 * b), b, n - 1);
      SpreadStep(x, 2 * b, n);
      AndHalfLane(s + Shr(s, b), b, n);
    }
  }

  /** The lanes never hold more than b each. */
  lemma {:induction false} SpreadMax(x: nat, b: nat, n: nat)
    ensures Spread(x, b, n) <= Rep(b, b, n)
    decreases n
  {
    if n > 0 {
      SpreadMax(Shr(x, b), b, n - 1);
      OnesBound(x, b);
      JoinMonotone(Ones(Low(x, b)), Spread(Shr(x, b), b, n - 1), b, Rep(b, b, n - 1), b);
    }
  }

  lemma JoinMonotone(a: nat, b: nat, c: nat, d: nat, n: nat)
    requires a <= c && b <= d
    ensures Join(a, b, n) <= Join(c, d, n)
  {
    assert Pow2(n) * b <= Pow2(n) * d;
  }

  lemma {:induction false} ShrSmaller(x: nat, s: nat)
    ensures Shr(x, s) <= x
  {
    if s > 0 { ShrSmaller(x / 2, s - 1); }
  }

  lemma Geometric(p: nat, r: nat, m: nat, q: nat)
    requires p >= 1 && (p - 1) * r + m == m * q
    ensures (p - 1) * (m + p * r) + m == m * (p * q)
  {
    assert m * (p * q) == p * (m * q) == p * ((p - 1) * r + m);
    assert (p - 1) * (m + p * r) + m == p * m + p * ((p - 1) * r);
  }

  /** A repeated mask is a geometric sum. */
  lemma {:induction false} RepValue(m: nat, b: nat, n: nat)
    ensures b * n >= 0 && (Pow2(b) - 1) * Rep(m, b, n) + m == m * Pow2(b * n)
  {
    if n > 0 {
      RepValue(m, b, n - 1);
      assert b * n == b + b * (n - 1);
      Pow2Add(b, b * (n - 1));
      Geometric(Pow2(b), Rep(m, b, n - 1), m, Pow2(b * (n - 1)));
    }
  }

  lemma RepIs(m: nat, b: nat, n: nat, p: nat, q: nat, v: nat)
    requires p == Pow2(b) && p > 1 && b * n >= 0 && q == Pow2(b * n) && (p - 1) * v + m == m * q
    ensures Rep(m, b, n) == v
  {
    hide *;
    RepValue(m, b, n);
    Cancel(p - 1, Rep(m, b, n), v);
  }

  lemma Cancel(k: nat, x: nat, y: nat)
    requires k > 0 && k * x == k * y
    ensures x == y
  {
  }

  lemma Masks32()
    ensures Rep(1, 2, 16) == 0x5555_5555 && Rep(2, 2, 16) == 0xAAAA_AAAA
    ensures Rep(3, 4, 8) == 0x3333_3333 && Rep(4, 4, 8) == 0x4444_4444
    ensures Rep(15, 8, 4) == 0x0F0F_0F0F && Pow2(2) == 4 && Pow2(4) == 16
  {
    hide *;
    Pow2Values();
    SmallPowers();
    RepIs(1, 2, 16, 4, 0x1_0000_0000, 0x5555_5555);
    RepIs(2, 2, 16, 4, 0x1_0000_0000, 0xAAAA_AAAA);
    RepIs(3, 4, 8, 16, 0x1_0000_0000, 0x3333_3333);
    RepIs(4, 4, 8, 16, 0x1_0000_0000, 0x4444_4444);
    RepIs(15, 8, 4, 256, 0x1_0000_0000, 0x0F0F_0F0F);
  }

  lemma Masks64()
    ensures Rep(1, 2, 32) == 0x5555_5555_5555_5555 && Rep(2, 2, 32) == 0xAAAA_AAAA_AAAA_AAAA
    ensures Rep(3, 4, 16) == 0x3333_3333_3333_3333 && Rep(4, 4, 16) == 0x4444_4444_4444_4444
    ensures Rep(15, 8, 8) == 0x0F0F_0F0F_0F0F_0F0F && Pow2(2) == 4 && Pow2(4) == 16
  {
    hide *;
    Pow2Values();
    SmallPowers();
    RepIs(1, 2, 32, 4, 0x1_0000_0000_0000_0000, 0x5555_5555_5555_5555);
    RepIs(2, 2, 32, 4, 0x1_0000_0000_0000_0000, 0xAAAA_AAAA_AAAA_AAAA);
    RepIs(3, 4, 16, 16, 0x1_0000_0000_0000_0000, 0x3333_3333_3333_3333);
    RepIs(4, 4, 16, 16, 0x1_0000_0000_0000_0000, 0x4444_4444_4444_4444);
    RepIs(15, 8, 8, 256, 0x1_0000_0000_0000_0000, 0x0F0F_0F0F_0F0F_0F0F);
  }

  lemma SmallPowers()
    ensures Pow2(2) == 4 && Pow2(4) == 16
  {
  }

  /** The counts of the n lowest bytes, added up. */
  function ByteSum(x: nat, n: nat): nat
    decreases n
  {
    if n == 0 then 0 else Ones(Low(x, 8)) + ByteSum(Shr(x, 8), n - 1)
  }

  lemma NoBytes(x: nat)
    requires x < Pow2(0)
    ensures x == Ones(x) == 0
  {
  }

  lemma {:induction false} ByteSumIsOnes(x: nat, n: nat)
    requires x < Pow2(8 * n)
    ensures ByteSum(x, n) == Ones(x)
    decreases n
  {
    hide Low, Shr, Ones, Pow2;
    if n == 0 {
      NoBytes(x);
    } else {
      OnesSplit(x, 8);
      ShrBound(x, 8 * n, 8);
      ByteSumIsOnes(Shr(x, 8), n - 1);
    }
  }

  /** Keeping w low bits of a product and shifting out all but the sum on top of them. */
  lemma TopOf(product: nat, low: nat, sum: nat, lost: nat, s: nat, w: nat)
    requires s <= w && low < Pow2(s) && Join(low, sum, s) < Pow2(w) && product == Join(Join(low, sum, s), lost, w)
    ensures Shr(product % Pow2(w), s) == sum
  {
    hide *;
    LowShrOf(Join(low, sum, s), lost, w);
    LowShrValue(product, w);
    LowShrOf(low, sum, s);
  }

  /** Last step: multiplying by 0x01...01 collects the byte lanes in the top byte. */
  lemma TopByte32(a: nat, b: nat, c: nat, d: nat)
    requires a <= 8 && b <= 8 && c <= 8 && d <= 8
    ensures Shr((a + 0x100 * (b + 0x100 * (c + 0x100 * d))) * 0x0101_0101 % 0x1_0000_0000, 24) == a + b + c + d
  {
    Pow2Values();
    Pow2Add(16, 8);
    hide Pow2, Shr;
    var t := a + 0x100 * (b + 0x100 * (c + 0x100 * d));
    var low := a + 0x100 * (a + b) + 0x1_0000 * (a + b + c);
    var lost := b + c + d + 0x100 * (c + d) + 0x1_0000 * d;
    TopOf(t * 0x0101_0101, low, a + b + c + d, lost, 24, 32);
  }

  /** Eight byte lanes in a word, and the two ends of their product with 0x01...01. */
  function Packed(a: nat, b: nat, c: nat, d: nat, e: nat, f: nat, g: nat, h: nat): nat {
    a + 0x100 * (b + 0x100 * (c + 0x100 * (d + 0x100 * (e + 0x100 * (f + 0x100 * (g + 0x100 * h))))))
  }
  function LowSums(a: nat, b: nat, c: nat, d: nat, e: nat, f: nat, g: nat): nat {
    a + 0x100 * (a + b) + 0x1_0000 * (a + b + c) + 0x100_0000 * (a + b + c + d)
    + 0x1_0000_0000 * (a + b + c + d + e) + 0x100_0000_0000 * (a + b + c + d + e + f)
    + 0x1_0000_0000_0000 * (a + b + c + d + e + f + g)
  }
  function HighSums(b: nat, c: nat, d: nat, e: nat, f: nat, g: nat, h: nat): nat {
    (b + c + d + e + f + g + h) + 0x100 * (c + d + e + f + g + h) + 0x1_0000 * (d + e + f + g + h)
    + 0x100_0000 * (e + f + g + h) + 0x1_0000_0000 * (f + g + h) + 0x100_0000_0000 * (g + h) + 0x1_0000_0000_0000 * h
  }

  lemma Product64(a: nat, b: nat, c: nat, d: nat, e: nat, f: nat, g: nat, h: nat)
    ensures Packed(a, b, c, d, e, f, g, h) * 0x0101_0101_0101_0101 ==
            LowSums(a, b, c, d, e, f, g) + 0x100_0000_0000_0000 * (a + b + c + d + e + f + g + h)
            + 0x1_0000_0000_0000_0000 * HighSums(b, c, d, e, f, g, h)
  {
  }

  lemma LowSumsBound(a: nat, b: nat, c: nat, d: nat, e: nat, f: nat, g: nat)
    requires a <= 8 && b <= 8 && c <= 8 && d <= 8 && e <= 8 && f <= 8 && g <= 8
    ensures LowSums(a, b, c, d, e, f, g) < 0x100_0000_0000_0000
  {
  }

  lemma TopByte64(a: nat, b: nat, c: nat, d: nat, e: nat, f: nat, g: nat, h: nat)
    requires a <= 8 && b <= 8 && c <= 8 && d <= 8 && e <= 8 && f <= 8 && g <= 8 && h <= 8
    ensures Shr(Packed(a, b, c, d, e, f, g, h) * 0x0101_0101_0101_0101 % 0x1_0000_0000_0000_0000, 56) ==
            a + b + c + d + e + f + g + h
  {
    Pow2Values();
    Pow2Add(32, 16);
    Pow2Add(48, 8);
    hide Pow2, Shr, Packed, LowSums, HighSums;
    Product64(a, b, c, d, e, f, g, h);
    LowSumsBound(a, b, c, d, e, f, g);
    TopOf(Packed(a, b, c, d, e, f, g, h) * 0x0101_0101_0101_0101, LowSums(a, b, c, d, e, f, g),
          a + b + c + d + e + f + g + h, HighSums(b, c, d, e, f, g, h), 56, 64);
  }

  lemma Lanes(x: nat, n: nat)
    requires n > 0
    ensures Spread(x, 8, n) == Ones(Low(x, 8)) + 0x100 * Spread(Shr(x, 8), 8, n - 1)
    ensures ByteSum(x, n) == Ones(Low(x, 8)) + ByteSum(Shr(x, 8), n - 1)
    ensures Ones(Low(x, 8)) <= 8 && Spread(x, 8, 0) == 0 && ByteSum(x, 0) == 0
  {
    Pow2Values();
    OnesBound(x, 8);
  }

  /** The parallel count is the number of set bits, for every 32-bit word. */
  lemma PopCount32Counts(x: Word32)
    ensures PopCount32(x) == Ones(x)
  {
    Pow2Values();
    Masks32();
    hide *;
    var t1, t2, t3 := Spread(x, 2, 16), Spread(x, 4, 8), Spread(x, 8, 4);
    PairCounts(x, 16);
    SpreadMax(x, 2, 16);
    MaskThenAdd(x, 2, 8);
    SpreadMax(x, 4, 8);
    ShrSmaller(t2, 4);
    AddThenMask(x, 4, 4);
    var y := Shr(x, 8);
    var z := Shr(y, 8);
    var w := Shr(z, 8);
    Lanes(x, 4);
    Lanes(y, 3);
    Lanes(z, 2);
    Lanes(w, 1);
    Lanes(Shr(w, 8), 1);
    TopByte32(Ones(Low(x, 8)), Ones(Low(y, 8)), Ones(Low(z, 8)), Ones(Low(w, 8)));
    ByteSumIsOnes(x, 4);
    PopCount32Steps(x, t1, t2, t3);
  }

  lemma PopCount32Steps(x: Word32, t1: nat, t2: nat, t3: nat)
    requires And(Shr(x, 1), 0x5555_5555) <= x && t1 == x - And(Shr(x, 1), 0x5555_5555)
    requires t2 == And(t1, 0x3333_3333) + And(Shr(t1, 2), 0x3333_3333) && t2 + Shr(t2, 4) < 0x1_0000_0000
    requires t3 == And(t2 + Shr(t2, 4), 0x0F0F_0F0F)
    ensures PopCount32(x) == Shr(t3 * 0x0101_0101 % 0x1_0000_0000, 24)
  {
    hide And, Shr;
  }

  lemma PopCount64Counts(x: Word64)
    ensures PopCount64(x) == Ones(x)
  {
    Pow2Values();
    Masks64();
    hide *;
    var t1, t2, t3 := Spread(x, 2, 32), Spread(x, 4, 16), Spread(x, 8, 8);
    PairCounts(x, 32);
    SpreadMax(x, 2, 32);
    MaskThenAdd(x, 2, 16);
    SpreadMax(x, 4, 16);
    ShrSmaller(t2, 4);
    AddThenMask(x, 4, 8);
    Collect64(x);
    ByteSumIsOnes(x, 8);
    PopCount64Steps(x, t1, t2, t3);
  }

  lemma Collect64(x: Word64)
    ensures Shr(Spread(x, 8, 8) * 0x0101_0101_0101_0101 % 0x1_0000_0000_0000_0000, 56) == ByteSum(x, 8)
  {
    hide Shr, Low, Ones, Spread, ByteSum, Pow2, Join;
    var x1 := Shr(x, 8);
    var x2 := Shr(x1, 8);
    var x3 := Shr(x2, 8);
    var x4 := Shr(x3, 8);
    var x5 := Shr(x4, 8);
    var x6 := Shr(x5, 8);
    var x7 := Shr(x6, 8);
    Lanes(x, 8);
    Lanes(x1, 7);
    Lanes(x2, 6);
    Lanes(x3, 5);
    Lanes(x4, 4);
    Lanes(x5, 3);
    Lanes(x6, 2);
    Lanes(x7, 1);
    Lanes(Shr(x7, 8), 1);
    TopByte64(Ones(Low(x, 8)), Ones(Low(x1, 8)), Ones(Low(x2, 8)), Ones(Low(x3, 8)),
              Ones(Low(x4, 8)), Ones(Low(x5, 8)), Ones(Low(x6, 8)), Ones(Low(x7, 8)));
  }

  lemma PopCount64Steps(x: Word64, t1: nat, t2: nat, t3: nat)
    requires And(Shr(x, 1), 0x5555_5555_5555_5555) <= x && t1 == x - And(Shr(x, 1), 0x5555_5555_5555_5555)
    requires t2 == And(t1, 0x3333_3333_3333_3333) + And(Shr(t1, 2), 0x3333_3333_3333_3333)
    requires t2 + Shr(t2, 4) < 0x1_0000_0000_0000_0000 && t3 == And(t2 + Shr(t2, 4), 0x0F0F_0F0F_0F0F_0F0F)
    ensures PopCount64(x) == Shr(t3 * 0x0101_0101_0101_0101 % 0x1_0000_0000_0000_0000, 56)
  {
    hide And, Shr;
  }

  // ----- rank and select

  /** How many set bits lie below position i. */
  function Rank(x: nat, i: nat): nat { if i == 0 then 0 else x % 2 + Rank(x / 2, i - 1) }

  /** The position of the n-th set bit, counted from zero, or -1. */
  function Select(x: nat, n: nat): (r: int)
    ensures r >= -1
    decreases x
  {
    if x == 0 then -1
    else if x % 2 == 1 && n == 0 then 0
    else
      var r := Select(x / 2, n - x % 2);
      if r < 0 then -1 else r + 1
  }

  lemma {:induction false} AndSmaller(a: nat, b: nat)
    ensures And(a, b) <= a
  {
    if a != 0 && b != 0 { AndSmaller(a / 2, b / 2); }
  }

  function MaskPos32(mask: Word32, i: nat): nat
    requires i < 32
  {
    AndSmaller(mask, Pow2(i) - 1);
    PopCount32(And(mask, Pow2(i) - 1))
  }

  lemma {:induction false} RankIsOnes(x: nat, i: nat)
    ensures Rank(x, i) == Ones(Low(x, i))
  {
    if i > 0 {
      RankIsOnes(x / 2, i - 1);
      LowStep(x, i);
    }
  }

  /** The dense ordering of the set bits: the count of those below. */
  lemma MaskPosIsRank(mask: Word32, i: nat)
    requires i < 32
    ensures MaskPos32(mask, i) == Rank(mask, i)
  {
    hide And, Low, Ones, PopCount32;
    AndSmaller(mask, Pow2(i) - 1);
    AndOnes(mask, i);
    PopCount32Counts(And(mask, Pow2(i) - 1));
    RankIsOnes(mask, i);
  }

  /** Walks the set bits of a shrinking copy of the mask. */
  method GetNthSetBitIndex32(mask: Word32, n: nat) returns (r: int)
    ensures r == Select(mask, n)
  {
    var local: nat, index, seen: nat := mask, 0, 0;
    while local != 0
      invariant 0 <= index && seen <= n
      invariant Select(mask, n) == if Select(local, n - seen) < 0 then -1 else index + Select(local, n - seen)
      decreases local
    {
      if local % 2 != 0 {
        if seen == n { return index; }
        seen := seen + 1;
      }
      index, local := index + 1, local / 2;
    }
    return -1;
  }

  lemma {:induction false} SelectFinds(x: nat, n: nat)
    ensures Select(x, n) >= 0 <==> n < Ones(x)
    ensures Select(x, n) >= 0 ==> Bit(x, Select(x, n)) && Rank(x, Select(x, n)) == n
    decreases x
  {
    if x != 0 && !(x % 2 == 1 && n == 0) { SelectFinds(x / 2, n - x % 2); }
  }

  lemma {:induction false} SelectOfRank(x: nat, i: nat)
    requires Bit(x, i)
    ensures Select(x, Rank(x, i)) == i
  {
    if i > 0 {
      SelectOfRank(x / 2, i - 1);
      assert x != 0 by { if x == 0 { BitZero(i); } }
    }
  }

  lemma {:induction false} BitZero(i: nat)
    ensures !Bit(0, i)
  {
    if i > 0 { BitZero(i - 1); }
  }

  /** A set bit is worth its power of two. */
  lemma {:induction false} BitWeight(x: nat, i: nat)
    requires Bit(x, i)
    ensures Pow2(i) <= x
  {
    if i > 0 { BitWeight(x / 2, i - 1); }
  }

  /** Rank and select undo each other on every mask, and select fails exactly past the last set bit. */
  lemma RankSelectInverse(mask: Word32)
    ensures forall i :: 0 <= i < 32 && Bit(mask, i) ==> Select(mask, MaskPos32(mask, i)) == i
    ensures forall n: nat :: n < PopCount32(mask) ==>
              0 <= Select(mask, n) < 32 && Bit(mask, Select(mask, n)) && MaskPos32(mask, Select(mask, n)) == n
    ensures forall n: nat :: Select(mask, n) == -1 <==> n >= PopCount32(mask)
  {
    hide *;
    PopCount32Counts(mask);
    forall i | 0 <= i < 32 && Bit(mask, i) ensures Select(mask, MaskPos32(mask, i)) == i {
      MaskPosIsRank(mask, i);
      SelectOfRank(mask, i);
    }
    forall n: nat ensures Select(mask, n) == -1 <==> n >= PopCount32(mask) { SelectFinds(mask, n); }
    forall n: nat | n < PopCount32(mask)
      ensures 0 <= Select(mask, n) < 32 && Bit(mask, Select(mask, n)) && MaskPos32(mask, Select(mask, n)) == n
    {
      SelectFinds(mask, n);
      var i := Select(mask, n);
      BitWeight(mask, i);
      Pow2Values();
      if i >= 32 { Pow2Grows(32, i); }
      MaskPosIsRank(mask, i);
    }
  }
}
