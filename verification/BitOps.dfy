/** Bitwise operations on naturals, defined and proved bit by bit. */
module BitOps {
  import opened Powers

  function And(a: nat, b: nat): nat {
    if a == 0 || b == 0 then 0 else (if a % 2 == 1 && b % 2 == 1 then 1 else 0) + 2 * And(a / 2, b / 2)
  }

  function Or(a: nat, b: nat): nat
    decreases a + b
  {
    if a == 0 then b else if b == 0 then a
    else (if a % 2 == 1 || b % 2 == 1 then 1 else 0) + 2 * Or(a / 2, b / 2)
  }

  function Bit(x: nat, i: nat): bool { if i == 0 then x % 2 == 1 else Bit(x / 2, i - 1) }

  /** The low w bits of a number, and the number shifted right by w bits. */
  function Low(x: nat, w: nat): nat { if w == 0 then 0 else x % 2 + 2 * Low(x / 2, w - 1) }
  function Shr(x: nat, w: nat): nat { if w == 0 then x else Shr(x / 2, w - 1) }

  /** The number with `high` above n low bits. */
  function Join(low: nat, high: nat, n: nat): nat { low + Pow2(n) * high }

  lemma DoubleJoin(c: nat, low: nat, high: nat, n: nat)
    requires n > 0
    ensures c + 2 * Join(low, high, n - 1) == Join(c + 2 * low, high, n)
  {
    TwiceProduct(Pow2(n - 1), high);
  }

  lemma LowShrDivides(x: nat, low: nat, high: nat, w: nat)
    requires x == Join(low, high, w) && low < Pow2(w)
    ensures low == x % Pow2(w) && high == x / Pow2(w)
  {
    DivUnique(x, Pow2(w), high, low);
  }

  lemma {:induction false} LowShrValue(x: nat, w: nat)
    ensures Low(x, w) == x % Pow2(w) && Shr(x, w) == x / Pow2(w)
    ensures x == Join(Low(x, w), Shr(x, w), w) && Low(x, w) < Pow2(w)
  {
    if w > 0 {
      hide Join;
      LowShrValue(x / 2, w - 1);
      DoubleJoin(x % 2, Low(x / 2, w - 1), Shr(x, w), w);
    }
    LowShrDivides(x, Low(x, w), Shr(x, w), w);
  }

  lemma LowStep(x: nat, w: nat)
    requires w > 0
    ensures Low(x, w) % 2 == x % 2 && Low(x, w) / 2 == Low(x / 2, w - 1) && Shr(x, w) == Shr(x / 2, w - 1)
  {
    LowHigh(x % 2, Low(x / 2, w - 1), 2);
  }

  lemma AndStep(a: nat, b: nat)
    ensures And(a, b) == (if a % 2 == 1 && b % 2 == 1 then 1 else 0) + 2 * And(a / 2, b / 2)
  {
  }

  lemma {:induction false} OrZero(a: nat)
    ensures Or(a, 0) == Or(0, a) == a
  {
  }

  lemma OrStep(a: nat, b: nat)
    ensures Or(a, b) == (if a % 2 == 1 || b % 2 == 1 then 1 else 0) + 2 * Or(a / 2, b / 2)
  {
    OrZero(a / 2);
    OrZero(b / 2);
  }

  /** Both operations work on the low w bits and on the others independently. */
  lemma {:induction false} AndSplit(a: nat, b: nat, w: nat)
    ensures And(a, b) == Join(And(Low(a, w), Low(b, w)), And(Shr(a, w), Shr(b, w)), w)
  {
    if w > 0 {
      hide And, Low, Shr, Join, Pow2;
      var x, y := Low(a, w), Low(b, w);
      LowStep(a, w);
      LowStep(b, w);
      AndSplit(a / 2, b / 2, w - 1);
      AndStep(a, b);
      AndStep(x, y);
      DoubleJoin(if a % 2 == 1 && b % 2 == 1 then 1 else 0, And(x / 2, y / 2), And(Shr(a, w), Shr(b, w)), w);
    }
  }

  lemma OrUnsplit(a: nat, b: nat)
    ensures Or(a, b) == Join(Or(Low(a, 0), Low(b, 0)), Or(Shr(a, 0), Shr(b, 0)), 0)
  {
    OrZero(0);
    hide Or;
  }

  lemma {:induction false} OrSplit(a: nat, b: nat, w: nat)
    ensures Or(a, b) == Join(Or(Low(a, w), Low(b, w)), Or(Shr(a, w), Shr(b, w)), w)
  {
    hide Or, Low, Shr, Join, Pow2;
    if w == 0 {
      OrUnsplit(a, b);
    } else {
      var x, y := Low(a, w), Low(b, w);
      LowStep(a, w);
      LowStep(b, w);
      OrSplit(a / 2, b / 2, w - 1);
      OrStep(a, b);
      OrStep(x, y);
      DoubleJoin(if a % 2 == 1 || b % 2 == 1 then 1 else 0, Or(x / 2, y / 2), Or(Shr(a, w), Shr(b, w)), w);
    }
  }

  /** The low and high parts of a number put together from such parts. */
  lemma LowShrOf(low: nat, high: nat, w: nat)
    requires low < Pow2(w)
    ensures Low(Join(low, high, w), w) == low && Shr(Join(low, high, w), w) == high
  {
    LowShrValue(Join(low, high, w), w);
    LowHigh(low, high, Pow2(w));
  }

  /** A mask of w ones keeps the remainder modulo 2^w. */
  lemma {:induction false} AndOnes(x: nat, w: nat)
    ensures And(x, Pow2(w) - 1) == Low(x, w)
  {
    if w > 0 {
      hide And;
      var p := Pow2(w - 1);
      assert (2 * p - 1) % 2 == 1 && (2 * p - 1) / 2 == p - 1;
      AndStep(x, 2 * p - 1);
      AndOnes(x / 2, w - 1);
    }
  }

  /** Bits above and below a border do not meet: Or puts them together. */
  lemma OrDisjoint(low: nat, high: nat, w: nat)
    requires low < Pow2(w)
    ensures Or(low, Join(0, high, w)) == Or(Join(0, high, w), low) == Join(low, high, w)
  {
    LowShrOf(low, 0, w);
    LowShrOf(0, high, w);
    assert Join(low, 0, w) == low;
    hide Or, Low, Shr, Join;
    OrSplit(low, Join(0, high, w), w);
    OrSplit(Join(0, high, w), low, w);
    OrZero(low);
    OrZero(high);
  }

  lemma {:induction false} ShrTwice(x: nat, a: nat, b: nat)
    ensures Shr(Shr(x, a), b) == Shr(x, a + b)
  {
    if a > 0 { ShrTwice(x / 2, a - 1, b); }
  }

  lemma {:induction false} ShrOnes(n: nat, s: nat)
    requires s <= n
    ensures Shr(Pow2(n) - 1, s) == Pow2(n - s) - 1
  {
    if s > 0 {
      assert (2 * Pow2(n - 1) - 1) / 2 == Pow2(n - 1) - 1;
      ShrOnes(n - 1, s - 1);
    }
  }

  lemma {:induction false} LowAll(x: nat, w: nat)
    requires x < Pow2(w)
    ensures Low(x, w) == x
  {
    if w > 0 { LowAll(x / 2, w - 1); }
  }

  lemma HalfJoin(low: nat, high: nat, n: nat)
    requires n > 0
    ensures Join(low, high, n) / 2 == Join(low / 2, high, n - 1) && Join(low, high, n) % 2 == low % 2
  {
    TwiceProduct(Pow2(n - 1), high);
  }

  /** Shifting and cutting a number that has `high` above its n low bits. */
  lemma {:induction false} ShrJoined(low: nat, high: nat, n: nat, s: nat)
    requires s <= n
    ensures Shr(Join(low, high, n), s) == Join(Shr(low, s), high, n - s)
  {
    if s > 0 {
      HalfJoin(low, high, n);
      hide Join;
      ShrJoined(low / 2, high, n - 1, s - 1);
    }
  }

  lemma {:induction false} LowJoined(low: nat, high: nat, n: nat, w: nat)
    requires w <= n
    ensures Low(Join(low, high, n), w) == Low(low, w)
  {
    if w > 0 {
      HalfJoin(low, high, n);
      hide Join;
      LowJoined(low / 2, high, n - 1, w - 1);
    }
  }

  lemma {:induction false} LowAcross(low: nat, high: nat, n: nat, t: nat)
    requires low < Pow2(n)
    ensures Low(Join(low, high, n), n + t) == Join(low, Low(high, t), n)
  {
    if n > 0 {
      HalfJoin(low, high, n);
      HalfJoin(low, Low(high, t), n);
      hide Join;
      LowAcross(low / 2, high, n - 1, t);
    }
  }

  lemma {:induction false} ShrBound(x: nat, n: nat, s: nat)
    requires s <= n && x < Pow2(n)
    ensures Shr(x, s) < Pow2(n - s)
  {
    if s > 0 { ShrBound(x / 2, n - 1, s - 1); }
  }

  lemma {:induction false} LowBound(x: nat, w: nat)
    ensures Low(x, w) < Pow2(w)
  {
    if w > 0 { LowBound(x / 2, w - 1); }
  }
}
