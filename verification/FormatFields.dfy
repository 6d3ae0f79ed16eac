/** What the standard asks of a field, clause by clause on its characters and on the arguments it takes,
    and that exactly one text meets the clauses: the one the directive is rendered to. */
module FormatFields {
  import opened Powers
  import opened FormatSpec
  import opened FormatReadback

  // ----- width and precision

  datatype Request = Request(left: bool, width: nat, precision: Option<nat>)

  ghost predicate StarIs(arg: Arg, v: int) { arg.Int? && TwosComplement(v, arg.bits, 32) }

  function Stars(d: Directive): nat
    requires d.Field?
  {
    (if d.width.Star? then 1 else 0) + (if d.precision.Star? then 1 else 0)
  }

  /** A `*` takes an int; a negative width means left adjustment, and INT_MIN has no absolute value. */
  ghost predicate AsksWidth(width: Amount, minus: bool, args: seq<Arg>, left: bool, n: nat) {
    match width
    case Absent => n == 0 && left == minus
    case Literal(k) => n == k && left == minus
    case Oversize => false
    case Star =>
      args != [] && exists w :: StarIs(args[0], w) && w > -0x8000_0000
                                && n == (if w < 0 then -w else w) && left == (minus || w < 0)
  }

  /** A negative precision is as good as none. */
  ghost predicate AsksPrecision(precision: Amount, args: seq<Arg>, p: Option<nat>) {
    match precision
    case Absent => p == None
    case Literal(k) => p == Some(k)
    case Oversize => false
    case Star => args != [] && exists v :: StarIs(args[0], v) && p == if v < 0 then None else Some(v)
  }

  ghost predicate Asks(d: Directive, args: seq<Arg>, r: Request)
    requires d.Field?
  {
    && AsksWidth(d.width, d.flags.left, args, r.left, r.width)
    && AsksPrecision(d.precision, if d.width.Star? then args[1..] else args, r.precision)
  }

  lemma StarValueIs(args: seq<Arg>, v: int)
    requires args != [] && args[0].Int?
    ensures StarIs(args[0], v) <==> v == StarValue(args)
  {
    hide TwosComplement, Signed;
    SignedIsTwos(args[0].bits, LInt);
    if StarIs(args[0], v) { TwosUnique(v, StarValue(args), args[0].bits, 32); }
  }

  lemma StarBound(args: seq<Arg>)
    requires args != [] && args[0].Int?
    ensures StarValue(args) >= -0x8000_0000
  {
  }

  lemma WidthExactly(width: Amount, minus: bool, args: seq<Arg>, left: bool, n: nat)
    ensures AsksWidth(width, minus, args, left, n) <==>
            var l := SettleWidth(width, minus, args); l.Layout? && l.left == left && l.width == n
    ensures var l := SettleWidth(width, minus, args); l.Layout? ==> l.taken == if width.Star? then 1 else 0
  {
    hide StarValue, Signed, TwosComplement;
    if width.Star? && args != [] && args[0].Int? {
      hide StarIs;
      StarBound(args);
      forall v ensures StarIs(args[0], v) <==> v == StarValue(args) { StarValueIs(args, v); }
      assert StarIs(args[0], StarValue(args));
    }
  }

  lemma PrecisionExactly(l: Layout, precision: Amount, args: seq<Arg>, p: Option<nat>)
    requires l.Layout? && l.precision.None?
    ensures AsksPrecision(precision, args, p) <==>
            var k := SettlePrecision(l, precision, args); k.Layout? && k.precision == p
    ensures var k := SettlePrecision(l, precision, args);
            k.Layout? ==>
              k.left == l.left && k.width == l.width && k.taken == l.taken + if precision.Star? then 1 else 0
  {
    hide StarValue, Signed, TwosComplement;
    if precision.Star? && args != [] && args[0].Int? {
      hide StarIs;
      forall v ensures StarIs(args[0], v) <==> v == StarValue(args) { StarValueIs(args, v); }
      assert StarIs(args[0], StarValue(args));
    }
  }

  lemma LayoutExactly(d: Directive, args: seq<Arg>, r: Request)
    requires d.Field?
    ensures Asks(d, args, r) <==> var l := Settle(d, args); l.Layout? && r == Request(l.left, l.width, l.precision)
    ensures Settle(d, args).Layout? ==> Settle(d, args).taken == Stars(d)
  {
    hide AsksWidth, AsksPrecision, SettleWidth, SettlePrecision;
    WidthExactly(d.width, d.flags.left, args, r.left, r.width);
    var l := SettleWidth(d.width, d.flags.left, args);
    if l.Layout? {
      WidthExactly(d.width, d.flags.left, args, l.left, l.width);
      assert args[l.taken..] == if d.width.Star? then args[1..] else args;
      PrecisionExactly(l, d.precision, args[l.taken..], r.precision);
    }
  }

  // ----- numerals

  /** The digits of a radix, in the letter case asked for. */
  predicate DigitOf(c: char, radix: Radix, upper: bool) {
    || ('0' <= c <= '9' && (c - '0') as int < radix)
    || (radix == 16 && if upper then 'A' <= c <= 'F' else 'a' <= c <= 'f')
  }

  ghost predicate Numeral(s: seq<char>, radix: Radix, upper: bool) {
    forall k :: 0 <= k < |s| ==> DigitOf(s[k], radix, upper)
  }

  function Power(radix: Radix, n: nat): (p: nat)
    ensures p >= 1
  {
    if n == 0 then 1 else radix * Power(radix, n - 1)
  }

  lemma DigitValues(c: char, radix: Radix, upper: bool)
    requires DigitOf(c, radix, upper)
    ensures IsDigitIn(c) && ValueOf(c) < radix && (ValueOf(c) == 0 <==> c == '0')
  {
  }

  lemma DigitUnique(c: char, d: char, radix: Radix, upper: bool)
    requires DigitOf(c, radix, upper) && DigitOf(d, radix, upper) && ValueOf(c) == ValueOf(d)
    requires IsDigitIn(c) && IsDigitIn(d)
    ensures c == d
  {
  }

  lemma NatOfStep(s: seq<char>, radix: Radix, upper: bool)
    requires s != [] && Numeral(s, radix, upper)
    ensures var last := s[|s| - 1];
            && IsDigitIn(last) && ValueOf(last) < radix && Numeral(s[..|s| - 1], radix, upper)
            && NatOf(s, radix) == radix * NatOf(s[..|s| - 1], radix) + ValueOf(last)
  {
    DigitValues(s[|s| - 1], radix, upper);
    hide DigitOf, IsDigitIn, ValueOf;
  }

  lemma ScaleBelow(radix: nat, a: nat, p: nat, x: nat)
    requires a < p && x < radix
    ensures radix * a + x < radix * p
  {
    assert radix * (a + 1) <= radix * p;
  }

  lemma ScaleAtLeast(radix: nat, a: nat, p: nat)
    requires a >= p
    ensures radix * a >= radix * p
  {
  }

  lemma {:induction false} NumeralBelow(s: seq<char>, radix: Radix, upper: bool)
    requires Numeral(s, radix, upper)
    ensures NatOf(s, radix) < Power(radix, |s|)
  {
    if s != [] {
      NatOfStep(s, radix, upper);
      hide NatOf, Numeral, IsDigitIn, ValueOf;
      NumeralBelow(s[..|s| - 1], radix, upper);
      ScaleBelow(radix, NatOf(s[..|s| - 1], radix), Power(radix, |s| - 1), ValueOf(s[|s| - 1]));
    }
  }

  lemma {:induction false} NumeralAtLeast(s: seq<char>, radix: Radix, upper: bool)
    requires Numeral(s, radix, upper) && s != [] && s[0] != '0'
    ensures NatOf(s, radix) >= Power(radix, |s| - 1)
  {
    NatOfStep(s, radix, upper);
    if |s| == 1 {
      DigitValues(s[0], radix, upper);
    } else {
      hide NatOf, Numeral, IsDigitIn, ValueOf;
      NumeralAtLeast(s[..|s| - 1], radix, upper);
      ScaleAtLeast(radix, NatOf(s[..|s| - 1], radix), Power(radix, |s| - 2));
    }
  }

  lemma {:induction false} PowerGrows(radix: Radix, a: nat, b: nat)
    requires a <= b
    ensures Power(radix, a) <= Power(radix, b)
    decreases b
  {
    if a < b {
      PowerGrows(radix, a, b - 1);
      ScaleAtLeast(Power(radix, b - 1), radix, 1);
    }
  }

  lemma LeadingZero(s: seq<char>, radix: Radix, upper: bool)
    requires Numeral(s, radix, upper) && s != [] && s[0] == '0'
    ensures Numeral(s[1..], radix, upper) && NatOf(s, radix) == NatOf(s[1..], radix)
  {
    hide NatOf, DigitOf;
    assert s == ['0'] + s[1..];
    ZerosValue(['0'], s[1..], radix);
  }

  lemma SameParts(radix: nat, a: nat, x: nat, b: nat, y: nat)
    requires x < radix && y < radix && radix * a + x == radix * b + y
    ensures a == b && x == y
  {
    UniqueParts(a, x, b, y, radix);
  }

  /** Numerals of one length and one value are the same. */
  lemma {:induction false} NumeralUnique(s: seq<char>, t: seq<char>, radix: Radix, upper: bool)
    requires Numeral(s, radix, upper) && Numeral(t, radix, upper)
    requires |s| == |t| && NatOf(s, radix) == NatOf(t, radix)
    ensures s == t
  {
    if s != [] {
      var n := |s| - 1;
      NatOfStep(s, radix, upper);
      NatOfStep(t, radix, upper);
      assert DigitOf(s[n], radix, upper) && DigitOf(t[n], radix, upper);
      hide NatOf, Numeral, DigitOf, IsDigitIn, ValueOf;
      var a, b := NatOf(s[..n], radix), NatOf(t[..n], radix);
      SameParts(radix, a, ValueOf(s[n]), b, ValueOf(t[n]));
      NumeralUnique(s[..n], t[..n], radix, upper);
      DigitUnique(s[n], t[n], radix, upper);
      assert s == s[..n] + [s[n]] && t == t[..n] + [t[n]];
    }
  }

  // ----- the clauses of a number field

  /** A number to show: its sign and prefix, its value, the least number of digits, whether the first
      digit must be a zero, and whether zeros fill the width. */
  datatype Figure = Figure(sign: seq<char>, prefix: seq<char>, value: nat, radix: Radix, upper: bool,
                           least: nat, octal: bool, zero: bool)

  /** There is a leading zero only where a clause asks for it. */
  ghost predicate NoIdleZero(t: seq<char>, digits: seq<char>, g: Figure, r: Request) {
    digits != [] && digits[0] == '0' ==>
      || |digits| <= g.least
      || (g.octal && (|digits| == 1 || digits[1] != '0'))
      || (!r.left && g.zero && |t| <= r.width)
  }

  /** The width is reached, by spaces only as far as needed, and on the side the adjustment leaves. */
  ghost predicate Adjusted(t: seq<char>, before: seq<char>, after: seq<char>, g: Figure, r: Request) {
    && All(before, ' ') && All(after, ' ')
    && (if r.left then before == [] else after == [] && (g.zero ==> before == []))
    && |t| >= r.width && (before + after != [] ==> |t| == r.width)
  }

  ghost predicate Shaped(t: seq<char>, before: seq<char>, digits: seq<char>, after: seq<char>, g: Figure, r: Request) {
    && t == before + (g.sign + g.prefix + digits) + after
    && Adjusted(t, before, after, g, r)
    && Numeral(digits, g.radix, g.upper) && NatOf(digits, g.radix) == g.value
    && |digits| >= g.least && (g.octal ==> digits != [] && digits[0] == '0')
    && NoIdleZero(t, digits, g, r)
  }

  ghost predicate NumberField(t: seq<char>, g: Figure, r: Request) {
    exists before, digits, after :: Shaped(t, before, digits, after, g, r)
  }

  lemma DigitsNoLonger(t: seq<char>, b: seq<char>, x: seq<char>, a: seq<char>,
                       t': seq<char>, b': seq<char>, x': seq<char>, a': seq<char>, g: Figure, r: Request)
    requires Shaped(t, b, x, a, g, r) && Shaped(t', b', x', a', g, r)
    ensures |x| <= |x'|
  {
    hide NatOf, Power, DigitOf, Numeral;
    if |x| > |x'| {
      NumeralBelow(x', g.radix, g.upper);
      PowerGrows(g.radix, |x'|, |x| - 1);
      if x[0] != '0' {
        NumeralAtLeast(x, g.radix, g.upper);
      } else if g.octal && x[1] != '0' {
        LeadingZero(x, g.radix, g.upper);
        LeadingZero(x', g.radix, g.upper);
        NumeralAtLeast(x[1..], g.radix, g.upper);
        NumeralBelow(x'[1..], g.radix, g.upper);
        PowerGrows(g.radix, |x'| - 1, |x| - 2);
      }
    }
  }

  lemma SpacesUnique(s: seq<char>, t: seq<char>)
    requires All(s, ' ') && All(t, ' ') && |s| == |t|
    ensures s == t
  {
  }

  /** One text at most meets the clauses. */
  lemma NumberFieldUnique(t: seq<char>, t': seq<char>, g: Figure, r: Request)
    requires NumberField(t, g, r) && NumberField(t', g, r)
    ensures t == t'
  {
    var b, x, a :| Shaped(t, b, x, a, g, r);
    var b', x', a' :| Shaped(t', b', x', a', g, r);
    DigitsNoLonger(t, b, x, a, t', b', x', a', g, r);
    DigitsNoLonger(t', b', x', a', t, b, x, a, g, r);
    NumeralUnique(x, x', g.radix, g.upper);
    hide NatOf, Numeral, NoIdleZero, All;
    SpacesUnique(b, b');
    SpacesUnique(a, a');
  }

  // ----- rendered numbers meet the clauses

  lemma DigitCharOf(x: nat, radix: Radix, upper: bool)
    requires x < radix
    ensures DigitOf(DigitChar(x, upper), radix, upper) && (x > 0 ==> DigitChar(x, upper) != '0')
  {
  }

  lemma {:induction false} MagnitudeNumeral(v: nat, radix: Radix, upper: bool)
    ensures Numeral(Magnitude(v, radix, upper), radix, upper)
    ensures var s := Magnitude(v, radix, upper); if v == 0 then s == [] else s != [] && s[0] != '0'
    decreases v
  {
    if v > 0 {
      RadixParts(v, radix);
      MagnitudeNumeral(v / radix, radix, upper);
      hide DigitOf, DigitChar;
      DigitCharOf(v % radix, radix, upper);
    }
  }

  function Least(precision: Option<nat>): nat { if precision.Some? then precision.value else 1 }

  lemma AtLeastNumeral(s: seq<char>, n: nat, radix: Radix, upper: bool)
    requires Numeral(s, radix, upper) && (s != [] ==> s[0] != '0')
    ensures var x := AtLeast(s, n);
            Numeral(x, radix, upper) && |x| >= n && (x != [] && x[0] == '0' ==> |x| == n)
  {
    assert DigitOf('0', radix, upper);
    hide DigitOf;
  }

  lemma DigitsClauses(v: nat, radix: Radix, upper: bool, precision: Option<nat>, octal: bool)
    ensures var x := Digits(v, radix, upper, precision, octal);
            && Numeral(x, radix, upper) && NatOf(x, radix) == v && |x| >= Least(precision)
            && (octal ==> x != [] && x[0] == '0')
            && (x != [] && x[0] == '0' ==> |x| <= Least(precision) || (octal && (|x| == 1 || x[1] != '0')))
  {
    hide Magnitude, AtLeast, NatOf;
    DigitsValue(v, radix, upper, precision, octal);
    MagnitudeNumeral(v, radix, upper);
    AtLeastNumeral(Magnitude(v, radix, upper), Least(precision), radix, upper);
    assert DigitOf('0', radix, upper);
    hide DigitOf;
  }

  function FigureOf(n: Number, zero: bool): Figure {
    Figure(n.sign, n.prefix, n.value, n.radix, n.upper, Least(n.precision), n.octalZero, zero && n.precision.None?)
  }

  lemma ZerosBefore(zeros: seq<char>, x: seq<char>, radix: Radix, upper: bool)
    requires All(zeros, '0') && Numeral(x, radix, upper)
    ensures Numeral(zeros + x, radix, upper) && NatOf(zeros + x, radix) == NatOf(x, radix)
  {
    ZerosValue(zeros, x, radix);
    hide NatOf;
    assert DigitOf('0', radix, upper);
    hide DigitOf;
  }

  /** The parts into which a padded number falls. */
  lemma PaddedParts(p: Parts, width: nat, left: bool, zero: bool) returns (b: seq<char>, z: seq<char>, a: seq<char>)
    ensures PadNumber(p, width, left, zero) == b + (p.sign + p.prefix + (z + p.digits)) + a
    ensures All(b, ' ') && All(z, '0') && All(a, ' ')
    ensures |b + z + a| == Max(width - |p.Body()|, 0)
    ensures if left then b == z == [] else a == [] && (if zero then b == [] else z == [])
  {
    var fill := width - |p.Body()|;
    PadPieces(p, width, left, zero, fill);
    hide PadNumber, Fill;
    b := if left || zero then "" else Fill(' ', fill);
    z := if !left && zero then Fill('0', fill) else "";
    a := if left then Fill(' ', fill) else "";
    Regroup(b, "", p.sign, p.prefix, z, p.digits, a);
    assert "" + p.sign == p.sign && b + "" == b;
  }

  lemma RenderedNumber(n: Number, zero: bool, r: Request)
    ensures NumberField(PadNumber(n.Text(), r.width, r.left, zero && n.precision.None?), FigureOf(n, zero), r)
  {
    hide PadNumber, Digits, NatOf, DigitOf, Numeral;
    DigitsClauses(n.value, n.radix, n.upper, n.precision, n.octalZero);
    var x, g := n.Text().digits, FigureOf(n, zero);
    var t := PadNumber(n.Text(), r.width, r.left, zero && n.precision.None?);
    var b, z, a := PaddedParts(n.Text(), r.width, r.left, zero && n.precision.None?);
    ZerosBefore(z, x, n.radix, n.upper);
    assert z == [] ==> z + x == x;
    assert |t| == |b| + |z| + |a| + |n.Text().Body()|;
    assert Adjusted(t, b, a, g, r);
    assert NoIdleZero(t, z + x, g, r);
    assert Shaped(t, b, z + x, a, g, r);
  }

  // ----- the numbers that integer directives show

  predicate TravelsAsInt(length: Length) { length.LInt? || length.LChar? || length.LShort? }

  /** The word of an integer argument, of the type its length modifier asks for. */
  predicate Carries(arg: Arg, length: Length, raw: nat) {
    if TravelsAsInt(length) then arg.Int? && raw == arg.bits else arg.Long? && raw == arg.bits64
  }

  function SignText(v: int, flags: Flags): seq<char> {
    if v < 0 then "-" else if flags.plus then "+" else if flags.space then " " else ""
  }

  /** The figure of a signed conversion: two's complement of the low bits, in decimal. */
  ghost predicate SignedFigure(g: Figure, length: Length, flags: Flags, raw: nat, p: Option<nat>) {
    exists v :: TwosComplement(v, raw, Bits(length)) &&
      g == Figure(SignText(v, flags), "", if v < 0 then -v else v, 10, false, Least(p), false, flags.zero && p.None?)
  }

  /** The figure of an unsigned conversion: the low bits, with `0x` or `0X` only before a value other than zero. */
  predicate UnsignedFigure(g: Figure, kind: Kind, flags: Flags, raw: nat, p: Option<nat>)
    requires kind.UnsignedInt?
  {
    var v := raw % Pow2(Bits(kind.length));
    var prefix := if kind.radix == 16 && flags.alternate && v != 0 then (if kind.upper then "0X" else "0x") else "";
    g == Figure("", prefix, v, kind.radix, kind.upper, Least(p), kind.radix == 8 && flags.alternate,
                flags.zero && p.None?)
  }

  /** The figure of an address: sixteen hexadecimal digits unless a precision says otherwise, never
      filled up with zeros to a width. */
  predicate AddressFigure(g: Figure, flags: Flags, address: nat, p: Option<nat>) {
    g == Figure("", if flags.alternate then "0x" else "", address, 16, false,
                if p.Some? then p.value else 16, false, false)
  }

  ghost predicate Depicts(g: Figure, kind: Kind, flags: Flags, arg: Arg, p: Option<nat>) {
    match kind
    case SignedInt(length) => exists raw: nat :: Carries(arg, length, raw) && SignedFigure(g, length, flags, raw, p)
    case UnsignedInt(length, _, _) =>
      exists raw: nat :: Carries(arg, length, raw) && UnsignedFigure(g, kind, flags, raw, p)
    case Address => arg.Pointer? && AddressFigure(g, flags, arg.address, p)
    case _ => false
  }

  predicate IsInteger(kind: Kind) { kind.SignedInt? || kind.UnsignedInt? || kind.Address? }

  lemma CarriesFetched(args: seq<Arg>, length: Length, raw: nat)
    requires args != []
    ensures Carries(args[0], length, raw) <==> Fetch(args, length) == Some(raw)
  {
  }

  lemma SignedExactly(g: Figure, length: Length, flags: Flags, raw: nat, p: Option<nat>)
    ensures SignedFigure(g, length, flags, raw, p) <==>
            g == FigureOf(SignedNumber(Signed(raw, length), flags, p), flags.zero)
  {
    hide TwosComplement, Signed;
    SignedIsTwos(raw, length);
    if SignedFigure(g, length, flags, raw, p) {
      var v :| TwosComplement(v, raw, Bits(length)) &&
        g == Figure(SignText(v, flags), "", if v < 0 then -v else v, 10, false, Least(p), false, flags.zero && p.None?);
      TwosUnique(v, Signed(raw, length), raw, Bits(length));
    }
  }

  lemma UnsignedExactly(g: Figure, kind: Kind, flags: Flags, raw: nat, p: Option<nat>)
    requires kind.UnsignedInt?
    ensures UnsignedFigure(g, kind, flags, raw, p) <==>
            g == FigureOf(UnsignedNumber(Unsigned(raw, kind.length), kind.radix, kind.upper, flags, p), flags.zero)
  {
    hide Pow2, Modulus, Bits;
    ModulusIsPow2(kind.length);
  }

  lemma DepictsExactly(g: Figure, kind: Kind, flags: Flags, args: seq<Arg>, p: Option<nat>)
    requires args != [] && IsInteger(kind)
    ensures Depicts(g, kind, flags, args[0], p) <==>
            var n := NumberOf(kind, flags, p, args); n.Some? && g == FigureOf(n.value, flags.zero)
  {
    hide SignedFigure, UnsignedFigure, SignedNumber, UnsignedNumber, FigureOf, Fetch, Carries;
    match kind
    case SignedInt(length) =>
      forall raw: nat ensures Carries(args[0], length, raw) <==> Fetch(args, length) == Some(raw) {
        CarriesFetched(args, length, raw);
      }
      if Fetch(args, length).Some? {
        assert Carries(args[0], length, Fetch(args, length).value);
        SignedExactly(g, length, flags, Fetch(args, length).value, p);
      }
    case UnsignedInt(length, _, _) =>
      forall raw: nat ensures Carries(args[0], length, raw) <==> Fetch(args, length) == Some(raw) {
        CarriesFetched(args, length, raw);
      }
      if Fetch(args, length).Some? {
        assert Carries(args[0], length, Fetch(args, length).value);
        UnsignedExactly(g, kind, flags, Fetch(args, length).value, p);
      }
    case Address =>
      AddressExactly(g, flags, args, p);
  }

  lemma AddressExactly(g: Figure, flags: Flags, args: seq<Arg>, p: Option<nat>)
    requires args != []
    ensures args[0].Pointer? ==>
              (AddressFigure(g, flags, args[0].address, p) <==>
               g == FigureOf(AddressNumber(args[0].address, flags, p), flags.zero))
  {
  }

  // ----- texts

  /** A text in its width: at the front with spaces behind it, or at the end with spaces before it. */
  ghost predicate TextField(t: seq<char>, c: seq<char>, r: Request) {
    && |t| == (if |c| < r.width then r.width else |c|)
    && if r.left then t[..|c|] == c && (forall k :: |c| <= k < |t| ==> t[k] == ' ')
       else t[|t| - |c|..] == c && (forall k :: 0 <= k < |t| - |c| ==> t[k] == ' ')
  }

  /** What a string shows: its bytes up to the terminator, the precision or the last readable one. */
  ghost predicate Shows(c: seq<char>, bytes: seq<char>, p: Option<nat>) {
    && c <= bytes && NUL !in c && (p.Some? ==> |c| <= p.value)
    && (|c| == |bytes| || bytes[|c|] == NUL || p == Some(|c|))
  }

  /** The bytes of a string argument, or of the text in place of a null pointer. */
  ghost predicate Points(s: CString, bytes: seq<char>) {
    if s.Null? then bytes == "(null)" + [NUL] else bytes == s.bytes
  }

  ghost predicate StringClauses(s: Step, text: CString, r: Request)
    requires s.Emit?
  {
    exists bytes, c :: Points(text, bytes) && Shows(c, bytes, r.precision) && TextField(s.text, c, r)
      && s.inspected == (if r.precision == Some(|c|) then |c| else |c| + 1)
      && s.legible == (s.inspected <= |bytes|)
  }

  ghost predicate CharacterClauses(s: Step, bits: nat, r: Request)
    requires s.Emit?
  {
    s.inspected == 0 && s.legible && exists c: char :: c as int == bits % 256 && TextField(s.text, [c], r)
  }

  lemma TextFieldExactly(t: seq<char>, c: seq<char>, r: Request)
    ensures TextField(t, c, r) <==> t == PadText(c, r.width, r.left)
  {
    hide PadText;
    var u := PadText(c, r.width, r.left);
    if TextField(t, c, r) {
      if r.left {
        assert forall k :: 0 <= k < |c| ==> t[k] == t[..|c|][k] && u[k] == u[..|c|][k];
      } else {
        var n := |t| - |c|;
        assert forall k :: n <= k < |t| ==> t[k] == t[n..][k - n] && u[k] == u[n..][k - n];
      }
    }
  }

  lemma ShowsExactly(c: seq<char>, bytes: seq<char>, p: Option<nat>)
    ensures Shows(c, bytes, p) <==> c == Contents(bytes, p)
    ensures var x := Contents(bytes, p); Inspected(bytes, p) == if p == Some(|x|) then |x| else |x| + 1
  {
    hide NulIndex;
    assert c <= bytes ==> forall k :: 0 <= k < |c| ==> c[k] == bytes[k];
  }

  lemma StringExactly(s: Step, flags: Flags, l: Layout, args: seq<Arg>)
    requires l.Layout? && args != [] && args[0].Text? && s.Emit? && s.taken == l.taken + 1
    ensures StringClauses(s, args[0].text, Request(l.left, l.width, l.precision)) <==>
            s == Convert(String, flags, l, args)
  {
    hide Contents, Inspected, Shows, TextField, PadText;
    var r, bytes := Request(l.left, l.width, l.precision), StringBytes(args[0].text);
    var x := Contents(bytes, l.precision);
    ShowsExactly(x, bytes, l.precision);
    TextFieldExactly(s.text, x, r);
    if StringClauses(s, args[0].text, r) {
      var bytes', c :| Points(args[0].text, bytes') && Shows(c, bytes', r.precision) && TextField(s.text, c, r)
        && s.inspected == (if r.precision == Some(|c|) then |c| else |c| + 1)
        && s.legible == (s.inspected <= |bytes'|);
      ShowsExactly(c, bytes, l.precision);
    } else {
      assert Points(args[0].text, bytes);
    }
  }

  lemma CharacterExactly(s: Step, flags: Flags, l: Layout, args: seq<Arg>)
    requires l.Layout? && args != [] && args[0].Int? && s.Emit? && s.taken == l.taken + 1
    ensures CharacterClauses(s, args[0].bits, Request(l.left, l.width, l.precision)) <==>
            s == Convert(Character, flags, l, args)
  {
    hide TextField, PadText;
    var c := (args[0].bits % 256) as char;
    TextFieldExactly(s.text, [c], Request(l.left, l.width, l.precision));
    assert c as int == args[0].bits % 256;
  }

  lemma NumberExactly(s: Step, kind: Kind, flags: Flags, l: Layout, args: seq<Arg>)
    requires l.Layout? && args != [] && IsInteger(kind) && s.Emit? && s.taken == l.taken + 1
    ensures NumberClauses(s, kind, flags, args[0], Request(l.left, l.width, l.precision)) <==>
            s == Convert(kind, flags, l, args)
  {
    hide Depicts, NumberField, FigureOf, PadNumber, NumberOf, Digits;
    var r := Request(l.left, l.width, l.precision);
    var n := NumberOf(kind, flags, l.precision, args);
    if n.Some? {
      var g := FigureOf(n.value, flags.zero);
      DepictsExactly(g, kind, flags, args, l.precision);
      RenderedNumber(n.value, flags.zero, r);
    }
    if NumberClauses(s, kind, flags, args[0], r) {
      var g :| Depicts(g, kind, flags, args[0], r.precision) && NumberField(s.text, g, r);
      DepictsExactly(g, kind, flags, args, l.precision);
      var zero := flags.zero && n.value.precision.None?;
      NumberFieldUnique(s.text, PadNumber(n.value.Text(), l.width, l.left, zero), g, r);
    }
  }

  // ----- whole directives

  ghost predicate NumberClauses(s: Step, kind: Kind, flags: Flags, arg: Arg, r: Request)
    requires s.Emit?
  {
    s.inspected == 0 && s.legible && exists g :: Depicts(g, kind, flags, arg, r.precision) && NumberField(s.text, g, r)
  }

  ghost predicate ArgumentClauses(s: Step, kind: Kind, flags: Flags, arg: Arg, r: Request)
    requires s.Emit?
  {
    match kind
    case Unsupported => false
    case String => arg.Text? && StringClauses(s, arg.text, r)
    case Character => arg.Int? && CharacterClauses(s, arg.bits, r)
    case _ => NumberClauses(s, kind, flags, arg, r)
  }

  /** Everything that is asked of a step that carries out a directive: the arguments it takes, the
      string bytes it looks at, and its text. */
  ghost predicate StepClauses(s: Step, d: Directive, args: seq<Arg>) {
    if d.Plain? then s == Emit([d.c], 0, 0, true)
    else
      && s.Emit? && s.taken == Stars(d) + 1 <= |args|
      && exists r :: Asks(d, args, r) && ArgumentClauses(s, d.kind, d.flags, args[Stars(d)], r)
  }

  lemma ArgumentExactly(s: Step, kind: Kind, flags: Flags, l: Layout, args: seq<Arg>)
    requires l.Layout? && s.Emit? && s.taken == l.taken + 1 && args != []
    ensures ArgumentClauses(s, kind, flags, args[0], Request(l.left, l.width, l.precision)) <==>
            s == Convert(kind, flags, l, args)
  {
    hide StringClauses, CharacterClauses, NumberClauses, PadText, PadNumber, NumberOf, Contents, Inspected;
    match kind
    case Unsupported =>
    case String => if args[0].Text? { StringExactly(s, flags, l, args); }
    case Character => if args[0].Int? { CharacterExactly(s, flags, l, args); }
    case _ => NumberExactly(s, kind, flags, l, args);
  }

  /** The clauses describe the rendering of every directive exactly: a step meets them if and only if it
      is the one the directive performs. */
  lemma StepExactly(s: Step, d: Directive, args: seq<Arg>)
    ensures StepClauses(s, d, args) <==> s.Emit? && s == Perform(d, args)
  {
    hide Asks, ArgumentClauses, Settle, Convert, Stars;
    if d.Field? {
      var l := Settle(d, args);
      forall r ensures Asks(d, args, r) <==> l.Layout? && r == Request(l.left, l.width, l.precision) {
        LayoutExactly(d, args, r);
      }
      if l.Layout? {
        LayoutExactly(d, args, Request(l.left, l.width, l.precision));
        if s.Emit? && s.taken == l.taken + 1 && l.taken < |args| {
          ArgumentExactly(s, d.kind, d.flags, l, args[l.taken..]);
          assert args[l.taken..][0] == args[l.taken];
        }
      }
    }
  }

  predicate HexCharacter(c: char, upper: bool) {
    c == ' ' || '0' <= c <= '9' || if upper then 'A' <= c <= 'F' || c == 'X' else 'a' <= c <= 'f' || c == 'x'
  }

  lemma HexFigure(g: Figure, kind: Kind, flags: Flags, arg: Arg, p: Option<nat>)
    requires kind.Address? || (kind.UnsignedInt? && kind.radix == 16)
    requires Depicts(g, kind, flags, arg, p)
    ensures g.sign == "" && g.upper == (kind.UnsignedInt? && kind.upper)
    ensures forall c <- g.prefix :: HexCharacter(c, g.upper)
  {
  }

  lemma HexShape(t: seq<char>, g: Figure, r: Request)
    requires NumberField(t, g, r) && g.sign == "" && forall c <- g.prefix :: HexCharacter(c, g.upper)
    ensures forall c <- t :: HexCharacter(c, g.upper)
  {
    hide NatOf, NoIdleZero;
    var before, digits, after :| Shaped(t, before, digits, after, g, r);
    forall c <- t ensures HexCharacter(c, g.upper) {
      assert c in before || c in g.prefix || c in digits || c in after;
    }
  }

  /** A hexadecimal field has letters of one case only: capitals for `X`, small ones for `x` and `p`. */
  lemma HexLetters(d: Directive, args: seq<Arg>)
    requires d.Field? && (d.kind.Address? || (d.kind.UnsignedInt? && d.kind.radix == 16)) && Perform(d, args).Emit?
    ensures forall c <- Perform(d, args).text :: HexCharacter(c, d.kind.UnsignedInt? && d.kind.upper)
  {
    hide Perform, Asks, Stars, NumberField, Depicts, HexCharacter, StringClauses, CharacterClauses;
    var s := Perform(d, args);
    StepExactly(s, d, args);
    var r :| Asks(d, args, r) && ArgumentClauses(s, d.kind, d.flags, args[Stars(d)], r);
    var g :| Depicts(g, d.kind, d.flags, args[Stars(d)], r.precision) && NumberField(s.text, g, r);
    HexFigure(g, d.kind, d.flags, args[Stars(d)], r.precision);
    HexShape(s.text, g, r);
  }
}
