/** Bit fields of registers and of multi-word structures, as the DRF and FLD macros read and write them. */
module Fields {
  import opened Powers
  import opened BitOps

  const ONES32: nat := 0xFFFF_FFFF

  /** A 32-bit left shift drops what passes bit 31. */
  function Shl32(x: nat, s: nat): Word32 {
    LowBound(Join(0, x, s), 32);
    Pow2Values();
    Low(Join(0, x, s), 32)
  }

  /** The number a word array denotes, lowest word first. */
  function Number(words: seq<Word32>): nat {
    if words == [] then 0 else Join(words[0], Number(words[1..]), 32)
  }

  // ----- reading a field of a word array

  function DrfVal1Word(words: seq<Word32>, lo: nat, hi: nat): nat
    requires lo <= hi && lo / 32 < |words| && lo / 32 == hi / 32
  {
    And(Shr(words[lo / 32], lo % 32), Shr(ONES32, (31 - hi % 32 + lo % 32) % 32))
  }

  function DrfVal2Word(words: seq<Word32>, lo: nat, hi: nat): nat
    requires lo <= hi && hi / 32 < |words|
  {
    var low := And(Shr(words[lo / 32], lo % 32), ONES32);
    var high := And(Shr(words[hi / 32], 0), Shr(ONES32, 31 - hi % 32));
    Or(low, Shl32(high, (32 - lo % 32) % 32))
  }

  /** The field hi:lo of a word array, whether it lies in one word or spans two. */
  function DrfValMw(words: seq<Word32>, lo: nat, hi: nat): nat
    requires lo <= hi && hi / 32 < |words|
  {
    if lo / 32 != hi / 32 then DrfVal2Word(words, lo, hi) else DrfVal1Word(words, lo, hi)
  }

  lemma MaskOnes(x: nat, w: nat)
    requires w <= 32
    ensures And(x, Shr(ONES32, 32 - w)) == Low(x, w)
  {
    hide And, Low, Shr, Pow2;
    Pow2Values();
    ShrOnes(32, 32 - w);
    AndOnes(x, w);
  }

  lemma NumberFrom(words: seq<Word32>, k: nat)
    requires k < |words|
    ensures Number(words[k..]) == Join(words[k], Number(words[k + 1..]), 32)
  {
    hide Join;
    assert words[k..][1..] == words[k + 1..];
  }

  /** A shift by whole words drops them. */
  lemma {:induction false} DropWords(words: seq<Word32>, k: nat)
    requires k <= |words|
    ensures Shr(Number(words), 32 * k) == Number(words[k..])
  {
    hide *;
    assert words[0..] == words;
    if k > 0 {
      assert words[1..][k - 1..] == words[k..];
      Pow2Values();
      NumberFrom(words, 0);
      DropWords(words[1..], k - 1);
      LowShrOf(words[0], Number(words[1..]), 32);
      ShrTwice(Number(words), 32, 32 * (k - 1));
    } else {
      ShrNothing(Number(words));
    }
  }

  /** The number from bit `lo` on: the rest of its word, and the words above. */
  lemma FromBit(words: seq<Word32>, k: nat, s: nat)
    requires k < |words| && s < 32
    ensures Shr(Number(words), 32 * k + s) == Join(Shr(words[k], s), Number(words[k + 1..]), 32 - s)
    ensures Shr(words[k], s) < Pow2(32 - s)
  {
    hide Shr, Pow2, Join, Number;
    DropWords(words, k);
    ShrTwice(Number(words), 32 * k, s);
    NumberFrom(words, k);
    ShrJoined(words[k], Number(words[k + 1..]), 32, s);
    Pow2Values();
    ShrBound(words[k], 32, s);
  }

  /** For every field of 1 to 32 bits, the macro reads the bits hi:lo of the number the array denotes. */
  lemma DrfValMwReads(words: seq<Word32>, lo: nat, hi: nat)
    requires lo <= hi < 32 * |words| && hi - lo < 32
    ensures DrfValMw(words, lo, hi) == Number(words) / Pow2(lo) % Pow2(hi - lo + 1)
  {
    hide And, Or, Shr, Low, Pow2, Number, Join;
    var k, s, w := lo / 32, lo % 32, hi - lo + 1;
    LowShrValue(Number(words), lo);
    LowShrValue(Shr(Number(words), lo), w);
    FromBit(words, k, s);
    var low, rest := Shr(words[k], s), Number(words[k + 1..]);
    if k == hi / 32 {
      assert (31 - hi % 32 + s) % 32 == 32 - w;
      MaskOnes(low, w);
      LowJoined(low, rest, 32 - s, w);
    } else {
      var t := hi % 32 + 1;
      assert hi / 32 == k + 1 && w == 32 - s + t && t <= s && (32 - s) % 32 == 32 - s;
      ReadSpanning(words, k, s, t, low);
    }
  }

  /** The top of one word below the bottom t bits of the next. */
  lemma ReadSpanning(words: seq<Word32>, k: nat, s: nat, t: nat, low: nat)
    requires k + 1 < |words| && 0 < t <= s < 32 && low < Pow2(32 - s)
    ensures Or(And(low, ONES32), Shl32(And(Shr(words[k + 1], 0), Shr(ONES32, 32 - t)), 32 - s)) ==
            Low(Join(low, Number(words[k + 1..]), 32 - s), 32 - s + t)
  {
    hide *;
    var next, above := words[k + 1], Number(words[k + 2..]);
    ShrNothing(next);
    NumberFrom(words, k + 1);
    LowAcross(low, Join(next, above, 32), 32 - s, t);
    LowJoined(next, above, 32, t);
    MaskOnes(next, t);
    KeepsWord(low, s);
    LowBound(next, t);
    ShiftFits(Low(next, t), t, 32 - s);
    OrDisjoint(low, Low(next, t), 32 - s);
  }

  lemma ShrNothing(x: nat)
    ensures Shr(x, 0) == x
  {
  }

  lemma KeepsWord(low: nat, s: nat)
    requires s <= 32 && low < Pow2(32 - s)
    ensures And(low, ONES32) == low
  {
    hide And, Low;
    Pow2Values();
    Pow2Grows(32 - s, 32);
    AndOnes(low, 32);
    LowAll(low, 32);
  }

  /** A value of t bits shifted by s stays below 2^32 when s + t bits fit. */
  lemma ShiftFits(x: nat, t: nat, s: nat)
    requires x < Pow2(t) && s + t <= 32
    ensures Shl32(x, s) == Join(0, x, s)
  {
    hide Pow2, Low;
    Pow2Add(s, t);
    Pow2Grows(s + t, 32);
    MulBelow(Pow2(s), x, Pow2(t));
    LowAll(Join(0, x, s), 32);
  }

  lemma MulBelow(p: nat, x: nat, q: nat)
    requires p > 0 && x < q
    ensures p * x < p * q
  {
  }

  // ----- fields of one register

  function DrfMask(lo: nat, hi: nat): nat
    requires lo <= hi < 32
  {
    Shr(ONES32, 31 - hi + lo)
  }

  function DrfVal(v: nat, lo: nat, hi: nat): nat
    requires lo <= hi < 32
  {
    And(Shr(v, lo), DrfMask(lo, hi))
  }

  function DrfNum(n: nat, lo: nat, hi: nat): nat
    requires lo <= hi < 32
  {
    Shl32(And(n, DrfMask(lo, hi)), lo)
  }

  /** Writes n into the field hi:lo of v, by a 32-bit complement of the shifted mask. */
  function FldSetDrfNum(v: nat, n: nat, lo: nat, hi: nat): nat
    requires lo <= hi < 32
  {
    Or(And(v, ONES32 - Shl32(DrfMask(lo, hi), lo)), DrfNum(n, lo, hi))
  }

  /** The complement of a mask of w ones at lo: ones below and ones above. */
  lemma ComplementMask(lo: nat, w: nat)
    requires w > 0 && lo + w <= 32
    ensures Join(0, Pow2(w) - 1, lo) <= ONES32
    ensures ONES32 - Join(0, Pow2(w) - 1, lo) == Join(Pow2(lo) - 1, Join(0, Pow2(32 - lo - w) - 1, w), lo)
  {
    hide Pow2;
    var p, q, r := Pow2(lo), Pow2(w), Pow2(32 - lo - w);
    Pow2Values();
    Pow2Add(lo, w);
    Pow2Add(lo + w, 32 - lo - w);
    Complement(p, q, r);
  }

  lemma Complement(p: nat, q: nat, r: nat)
    requires p >= 1 && q >= 1 && r >= 1
    ensures p * q * r - 1 - p * (q - 1) == p - 1 + p * (q * (r - 1))
    ensures p * (q - 1) <= p * q * r - 1
  {
    assert p * (q * (r - 1)) == p * q * r - p * q && p * (q - 1) == p * q - p;
    assert p * q * r >= p * q;
  }

  lemma KeepAbove(x: nat, w: nat, n: nat)
    requires Shr(x, w) < Pow2(n)
    ensures And(x, Join(0, Pow2(n) - 1, w)) == Join(0, Shr(x, w), w)
  {
    hide And, Low, Shr, Join, Pow2;
    LowShrOf(0, Pow2(n) - 1, w);
    AndSplit(x, Join(0, Pow2(n) - 1, w), w);
    AndZero(Low(x, w));
    AndOnes(Shr(x, w), n);
    LowAll(Shr(x, w), n);
  }

  /** Clearing the field leaves what is below and above it. */
  lemma ClearField(v: Word32, lo: nat, w: nat)
    requires w > 0 && lo + w <= 32
    ensures And(v, Join(Pow2(lo) - 1, Join(0, Pow2(32 - lo - w) - 1, w), lo)) ==
            Join(Low(v, lo), Join(0, Shr(v, lo + w), w), lo)
  {
    hide And, Low, Shr, Join, Pow2;
    var rest := Join(0, Pow2(32 - lo - w) - 1, w);
    LowShrOf(Pow2(lo) - 1, rest, lo);
    AndSplit(v, Join(Pow2(lo) - 1, rest, lo), lo);
    AndOnes(Low(v, lo), lo);
    LowBound(v, lo);
    LowAll(Low(v, lo), lo);
    ShrTwice(v, lo, w);
    Pow2Values();
    ShrBound(v, 32, lo + w);
    KeepAbove(Shr(v, lo), w, 32 - lo - w);
  }

  lemma AndZero(x: nat)
    ensures And(x, 0) == 0
  {
  }

  /** The written register: the old bits below, the low bits of n, the old bits above. */
  lemma WrittenRegister(v: Word32, n: nat, lo: nat, hi: nat)
    requires lo <= hi < 32
    ensures FldSetDrfNum(v, n, lo, hi) ==
            Join(Low(v, lo), Join(Low(n, hi - lo + 1), Shr(v, hi + 1), hi - lo + 1), lo)
  {
    hide And, Or, Low, Shr, Join, Pow2, Shl32;
    var w := hi - lo + 1;
    var m, above := Low(n, w), Shr(v, hi + 1);
    Pow2Values();
    ShrOnes(32, 32 - w);
    assert DrfMask(lo, hi) == Pow2(w) - 1;
    ShiftFits(Pow2(w) - 1, w, lo);
    ComplementMask(lo, w);
    ClearField(v, lo, w);
    AndOnes(n, w);
    LowBound(n, w);
    ShiftFits(m, w, lo);
    var cleared := Join(Low(v, lo), Join(0, above, w), lo);
    assert FldSetDrfNum(v, n, lo, hi) == Or(cleared, Join(0, m, lo));
    LowBound(v, lo);
    LowShrOf(Low(v, lo), Join(0, above, w), lo);
    LowShrOf(0, m, lo);
    OrSplit(cleared, Join(0, m, lo), lo);
    OrZero(Low(v, lo));
    OrDisjoint(m, above, w);
  }

  /** Reading a written field gives the value cut to the field, and every other field is unchanged. */
  lemma FieldRoundTrip(v: Word32, n: nat, lo: nat, hi: nat, a: nat, b: nat)
    requires lo <= hi < 32 && a <= b < 32 && (b < lo || hi < a)
    ensures var r := FldSetDrfNum(v, n, lo, hi);
            DrfVal(r, lo, hi) == n % Pow2(hi - lo + 1) && DrfVal(r, a, b) == DrfVal(v, a, b)
  {
    hide And, Or, Low, Shr, Join, Pow2, FldSetDrfNum;
    var w := hi - lo + 1;
    var r, inner := FldSetDrfNum(v, n, lo, hi), Join(Low(n, w), Shr(v, hi + 1), w);
    WrittenRegister(v, n, lo, hi);
    LowBound(v, lo);
    LowShrOf(Low(v, lo), inner, lo);
    LowBound(n, w);
    LowShrOf(Low(n, w), Shr(v, hi + 1), w);
    MaskOnes(inner, w);
    LowShrValue(n, w);
    MaskOnes(Shr(r, a), b - a + 1);
    MaskOnes(Shr(v, a), b - a + 1);
    if hi < a {
      ShrTwice(r, lo, w);
      ShrTwice(r, hi + 1, a - hi - 1);
      ShrTwice(v, hi + 1, a - hi - 1);
    } else {
      LowShrValue(v, lo);
      ShrJoined(Low(v, lo), Shr(v, lo), lo, a);
      ShrJoined(Low(v, lo), inner, lo, a);
      LowJoined(Shr(Low(v, lo), a), Shr(v, lo), lo - a, b - a + 1);
      LowJoined(Shr(Low(v, lo), a), inner, lo - a, b - a + 1);
    }
  }
}
