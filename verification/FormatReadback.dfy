/** Reading printed numbers back: whatever the flags, width and precision, the emitted field denotes
    exactly the argument after the narrowing of its length modifier. */
module FormatReadback {
  import opened FormatSpec
  import opened Powers

  // ----- a reader for number fields

  predicate IsDigitIn(c: char) { IsDigit(c) || 'a' <= c <= 'f' || 'A' <= c <= 'F' }

  function ValueOf(c: char): nat
    requires IsDigitIn(c)
  {
    if IsDigit(c) then (c - '0') as nat
    else if 'a' <= c then (c - 'a') as nat + 10
    else (c - 'A') as nat + 10
  }

  /** The value of a numeral; characters that are no digits count as zero. */
  function NatOf(s: seq<char>, radix: Radix): nat {
    if s == [] then 0
    else
      var last := s[|s| - 1];
      radix * NatOf(s[..|s| - 1], radix) + if IsDigitIn(last) then ValueOf(last) else 0
  }

  function TrimLeft(s: seq<char>): seq<char> {
    if s != [] && s[0] == ' ' then TrimLeft(s[1..]) else s
  }

  function TrimRight(s: seq<char>): seq<char> {
    if s != [] && s[|s| - 1] == ' ' then TrimRight(s[..|s| - 1]) else s
  }

  function ReadUnsigned(s: seq<char>, radix: Radix): nat {
    NatOf(if |s| >= 2 && s[0] == '0' && (s[1] == 'x' || s[1] == 'X') then s[2..] else s, radix)
  }

  function ReadSigned(s: seq<char>, radix: Radix): int {
    if s != [] && s[0] == '-' then 0 - ReadUnsigned(s[1..], radix)
    else if s != [] && s[0] == '+' then ReadUnsigned(s[1..], radix)
    else ReadUnsigned(s, radix)
  }

  function Trimmed(text: seq<char>): seq<char> { TrimRight(TrimLeft(text)) }

  /** Reads optional spaces, a sign, a hexadecimal prefix and the digits. */
  function ReadField(text: seq<char>, radix: Radix): int {
    ReadSigned(Trimmed(text), radix)
  }

  // ----- spaces

  ghost predicate All(s: seq<char>, c: char) { forall k :: 0 <= k < |s| ==> s[k] == c }

  lemma {:induction false} TrimLeftSpaces(spaces: seq<char>, s: seq<char>)
    requires All(spaces, ' ')
    ensures TrimLeft(spaces + s) == TrimLeft(s)
  {
    if spaces == [] {
      assert spaces + s == s;
    } else {
      assert spaces[0] == ' ' && (spaces + s)[1..] == spaces[1..] + s;
      TrimLeftSpaces(spaces[1..], s);
    }
  }

  lemma {:induction false} TrimRightSpaces(s: seq<char>, spaces: seq<char>)
    requires All(spaces, ' ')
    ensures TrimRight(s + spaces) == TrimRight(s)
  {
    if spaces == [] {
      assert s + spaces == s;
    } else {
      var n := |spaces| - 1;
      assert spaces[n] == ' ' && (s + spaces)[..|s| + n] == s + spaces[..n];
      TrimRightSpaces(s, spaces[..n]);
    }
  }

  /** A core without spaces at its ends survives trimming. */
  lemma TrimCore(before: seq<char>, core: seq<char>, after: seq<char>)
    requires All(before, ' ') && All(after, ' ')
    requires core == [] || (core[0] != ' ' && core[|core| - 1] != ' ')
    ensures Trimmed(before + core + after) == core
  {
    assert before + core + after == before + (core + after);
    TrimLeftSpaces(before, core + after);
    if core == [] {
      assert core + after == after == after + [];
      TrimLeftSpaces(after, []);
    } else {
      assert (core + after)[0] == core[0];
      TrimRightSpaces(core, after);
    }
  }

  // ----- digits

  ghost predicate AllDigits(s: seq<char>) { forall k :: 0 <= k < |s| ==> IsDigitIn(s[k]) }

  lemma DigitCharValue(d: nat, upper: bool)
    requires d < 16
    ensures IsDigitIn(DigitChar(d, upper)) && ValueOf(DigitChar(d, upper)) == d
  {
  }

  lemma AppendDigit(s: seq<char>, c: char, radix: Radix)
    requires AllDigits(s) && IsDigitIn(c)
    ensures AllDigits(s + [c]) && NatOf(s + [c], radix) == radix * NatOf(s, radix) + ValueOf(c)
  {
    assert (s + [c])[..|s|] == s;
  }

  lemma RadixParts(v: nat, radix: Radix)
    requires v != 0
    ensures 0 <= v / radix < v && v == radix * (v / radix) + v % radix && 0 <= v % radix < 16
  {
    if radix == 8 {
    } else if radix == 10 {
    } else {
    }
  }

  lemma {:induction false} MagnitudeValue(v: nat, radix: Radix, upper: bool)
    ensures AllDigits(Magnitude(v, radix, upper)) && NatOf(Magnitude(v, radix, upper), radix) == v
    decreases v
  {
    if v != 0 {
      var q, r := v / radix, v % radix;
      RadixParts(v, radix);
      MagnitudeValue(q, radix, upper);
      DigitCharValue(r, upper);
      hide NatOf, DigitChar, AllDigits;
      AppendDigit(Magnitude(q, radix, upper), DigitChar(r, upper), radix);
    }
  }

  /** Leading zeros change nothing. */
  lemma {:induction false} ZerosValue(zeros: seq<char>, s: seq<char>, radix: Radix)
    requires All(zeros, '0')
    ensures NatOf(zeros + s, radix) == NatOf(s, radix)
  {
    if s != [] {
      assert (zeros + s)[..|zeros + s| - 1] == zeros + s[..|s| - 1];
      ZerosValue(zeros, s[..|s| - 1], radix);
    } else if zeros != [] {
      assert zeros + s == zeros && zeros[|zeros| - 1] == '0';
      assert zeros[..|zeros| - 1] + s == zeros[..|zeros| - 1];
      ZerosValue(zeros[..|zeros| - 1], s, radix);
    }
  }

  lemma DigitsValue(v: nat, radix: Radix, upper: bool, precision: Option<nat>, octalZero: bool)
    ensures AllDigits(Digits(v, radix, upper, precision, octalZero))
    ensures NatOf(Digits(v, radix, upper, precision, octalZero), radix) == v
  {
    MagnitudeValue(v, radix, upper);
    hide Magnitude, NatOf;
    var magnitude := Magnitude(v, radix, upper);
    var zeros := Fill('0', (if precision.Some? then precision.value else 1) - |magnitude|);
    ZerosValue(zeros, magnitude, radix);
    ZerosValue(['0'], zeros + magnitude, radix);
  }

  // ----- whole fields

  lemma ReadPrefixed(prefix: seq<char>, digits: seq<char>, radix: Radix)
    requires prefix in {"", "0x", "0X"} && AllDigits(digits)
    ensures ReadUnsigned(prefix + digits, radix) == NatOf(digits, radix)
  {
    hide NatOf;
    if prefix == "" {
      assert prefix + digits == digits;
    } else {
      assert (prefix + digits)[2..] == digits;
    }
  }

  lemma CoreEnds(sign: seq<char>, prefix: seq<char>, digits: seq<char>)
    requires sign in {"", "-", "+"} && prefix in {"", "0x", "0X"} && AllDigits(digits)
    ensures var core := sign + prefix + digits; core == [] || (core[0] != ' ' && core[|core| - 1] != ' ')
  {
    assert digits != [] ==> IsDigitIn(digits[0]) && IsDigitIn(digits[|digits| - 1]);
  }

  lemma WithoutSign(sign: seq<char>, prefix: seq<char>, digits: seq<char>)
    requires |sign| == 1
    ensures (sign + prefix + digits)[1..] == prefix + digits && (sign + prefix + digits)[0] == sign[0]
  {
  }

  /** A sign, a prefix and digits between spaces read as the signed value of the digits. */
  lemma ReadParts(before: seq<char>, sign: seq<char>, prefix: seq<char>, digits: seq<char>, after: seq<char>,
                  radix: Radix)
    requires All(before, ' ') && All(after, ' ')
    requires sign in {"", "-", "+"} && prefix in {"", "0x", "0X"} && AllDigits(digits)
    ensures ReadField(before + (sign + prefix + digits) + after, radix) ==
            if sign == "-" then 0 - NatOf(digits, radix) else NatOf(digits, radix)
  {
    hide NatOf, ReadUnsigned;
    var core := sign + prefix + digits;
    CoreEnds(sign, prefix, digits);
    TrimCore(before, core, after);
    hide All, AllDigits, Trimmed;
    ReadPrefixed(prefix, digits, radix);
    if sign == "" {
      assert core == prefix + digits;
    } else {
      WithoutSign(sign, prefix, digits);
    }
  }

  ghost predicate Printable(n: Number) {
    n.sign in {"", "-", "+", " "} && n.prefix in {"", "0x", "0X"}
  }

  lemma Regroup(x: seq<char>, space: seq<char>, sign: seq<char>, prefix: seq<char>, z: seq<char>, d: seq<char>,
                y: seq<char>)
    ensures x + (space + sign) + prefix + z + d + y == (x + space) + (sign + prefix + (z + d)) + y
  {
  }

  lemma PadPieces(p: Parts, width: nat, left: bool, zero: bool, fill: int)
    requires fill == width - |p.Body()|
    ensures PadNumber(p, width, left, zero) ==
            (if left || zero then "" else Fill(' ', fill)) + p.sign + p.prefix
            + (if !left && zero then Fill('0', fill) else "") + p.digits + (if left then Fill(' ', fill) else "")
  {
  }

  /** Any placement of the padding has this shape: spaces, an honest sign, the prefix, zeros, the
      digits, spaces. */
  lemma PadShape(p: Parts, width: nat, left: bool, zero: bool)
    returns (before: seq<char>, sign: seq<char>, zeros: seq<char>, after: seq<char>)
    requires p.sign in {"", "-", "+", " "}
    ensures sign in {"", "-", "+"} && (sign == "-" <==> p.sign == "-")
    ensures All(before, ' ') && All(zeros, '0') && All(after, ' ')
    ensures PadNumber(p, width, left, zero) == before + (sign + p.prefix + (zeros + p.digits)) + after
  {
    var fill := width - |p.Body()|;
    PadPieces(p, width, left, zero, fill);
    hide PadNumber;
    var space := if p.sign == " " then " " else "";
    sign := if p.sign == " " then "" else p.sign;
    assert space + sign == p.sign;
    var x := if left || zero then "" else Fill(' ', fill);
    before := x + space;
    zeros := if !left && zero then Fill('0', fill) else "";
    after := if left then Fill(' ', fill) else "";
    Regroup(x, space, sign, p.prefix, zeros, p.digits, after);
  }

  /** No padding, precision or flag changes the number a field denotes. */
  lemma NumberReadsBack(n: Number, width: nat, left: bool, zero: bool)
    requires Printable(n)
    ensures ReadField(PadNumber(n.Text(), width, left, zero), n.radix) == if n.sign == "-" then 0 - n.value else n.value
  {
    DigitsValue(n.value, n.radix, n.upper, n.precision, n.octalZero);
    hide Digits, ReadField, NatOf, PadNumber;
    var digits := n.Text().digits;
    var before, sign, zeros, after := PadShape(n.Text(), width, left, zero);
    ZerosValue(zeros, digits, n.radix);
    ReadParts(before, sign, n.prefix, zeros + digits, after, n.radix);
  }

  /** The value an integer directive is asked to print: its argument after narrowing. */
  function Asked(kind: Kind, arg: Arg): int
    requires kind.SignedInt? || kind.UnsignedInt? || kind.Address?
  {
    var raw := Word(arg);
    match kind
    case SignedInt(length) => Signed(raw, length)
    case UnsignedInt(length, _, _) => Unsigned(raw, length)
    case Address => raw
  }

  lemma ReadsAsked(d: Directive, args: seq<Arg>)
    requires d.Field? && (d.kind.SignedInt? || d.kind.UnsignedInt? || d.kind.Address?)
    requires Perform(d, args).Emit?
    ensures Perform(d, args).taken > 0
    ensures var radix := if d.kind.UnsignedInt? then d.kind.radix else if d.kind.Address? then 16 else 10;
            ReadField(Perform(d, args).text, radix) == Asked(d.kind, args[Perform(d, args).taken - 1])
  {
    hide PadNumber, ReadField;
    var l := Settle(d, args);
    var n := NumberOf(d.kind, d.flags, l.precision, args[l.taken..]).value;
    NumberReadsBack(n, l.width, l.left, d.flags.zero && n.precision.None?);
  }

  // ----- machine integers

  function Bits(length: Length): (n: nat)
    ensures n > 0
  {
    match length
    case LChar => 8
    case LShort => 16
    case LInt => 32
    case _ => 64
  }

  /** `v` is the value of the low `bits` bits of a word, read as two's complement. */
  ghost predicate TwosComplement(v: int, raw: int, bits: nat)
    requires bits > 0
  {
    0 - Pow2(bits - 1) <= v < Pow2(bits - 1) && (raw - v) % Pow2(bits) == 0
  }

  lemma ModulusIsPow2(length: Length)
    ensures Modulus(length) == Pow2(Bits(length)) == 2 * Pow2(Bits(length) - 1)
  {
    Pow2Values();
  }

  lemma MultipleOf(x: int, q: int, m: nat)
    requires m > 0 && x == q * m
    ensures x % m == 0
  {
    if x >= 0 {
      DivUnique(x, m, q, 0);
    } else {
      assert x == (x / m) * m + x % m;
      UniqueParts(x / m, x % m, q, 0, m);
    }
  }

  lemma SignedIsTwos(raw: nat, length: Length)
    ensures TwosComplement(Signed(raw, length), raw, Bits(length))
  {
    hide Pow2, Bits, Modulus;
    ModulusIsPow2(length);
    var m, u := Modulus(length), raw % Modulus(length);
    Division(raw, m);
    if 2 * u >= m {
      Distribute(raw / m, -1, m);
      MultipleOf(raw - Signed(raw, length), raw / m + 1, m);
    } else {
      MultipleOf(raw - Signed(raw, length), raw / m, m);
    }
  }

  lemma TwosUnique(v: int, w: int, raw: int, bits: nat)
    requires bits > 0 && TwosComplement(v, raw, bits) && TwosComplement(w, raw, bits)
    ensures v == w
  {
    var m, half := Pow2(bits), Pow2(bits - 1);
    assert m == 2 * half;
    hide Pow2;
    assert raw - v == (raw - v) / m * m + 0 && raw - w == (raw - w) / m * m + 0;
    UniqueParts((raw - v) / m, v + half, (raw - w) / m, w + half, m);
  }

  /** The word of an integer or pointer argument. */
  function Word(arg: Arg): nat {
    match arg case Int(bits) => bits case Long(bits) => bits case Pointer(address) => address case _ => 0
  }

  /** For every directive and every argument, reading the emitted field back yields the argument: its low
      bits as two's complement or as they are, by the conversion and its length modifier. */
  lemma NumericRoundTrip(d: Directive, args: seq<Arg>)
    requires d.Field? && (d.kind.SignedInt? || d.kind.UnsignedInt? || d.kind.Address?)
    requires Perform(d, args).Emit?
    ensures Perform(d, args).taken > 0
    ensures var text, raw := Perform(d, args).text, Word(args[Perform(d, args).taken - 1]);
            match d.kind
            case SignedInt(length) => TwosComplement(ReadField(text, 10), raw, Bits(length))
            case UnsignedInt(length, radix, _) => ReadField(text, radix) == raw % Pow2(Bits(length))
            case _ => ReadField(text, 16) == raw
  {
    hide Perform, ReadField, TwosComplement, Signed, Pow2, Modulus, Bits;
    ReadsAsked(d, args);
    var raw := Word(args[Perform(d, args).taken - 1]);
    match d.kind
    case SignedInt(length) => SignedIsTwos(raw, length);
    case UnsignedInt(length, _, _) => ModulusIsPow2(length);
    case _ =>
  }

  // ----- alternate octal

  lemma OctalDigits(v: nat, upper: bool, precision: Option<nat>)
    ensures var plain, forced := Digits(v, 8, upper, precision, false), Digits(v, 8, upper, precision, true);
            forced == if plain != [] && plain[0] == '0' then plain else ['0'] + plain
  {
  }

  /** What the spaces leave of a field of digits alone. */
  function OctalCore(digits: seq<char>, width: nat, zeros: bool): seq<char> {
    (if zeros then Fill('0', width - |digits|) else "") + digits
  }

  lemma OctalTrimmed(digits: seq<char>, width: nat, left: bool, zero: bool)
    requires AllDigits(digits)
    ensures Trimmed(PadNumber(Parts("", "", digits), width, left, zero)) == OctalCore(digits, width, !left && zero)
  {
    hide Trimmed, PadNumber, Fill;
    var fill, core := width - |digits|, OctalCore(digits, width, !left && zero);
    OctalPieces(digits, width, left, zero);
    TrimCore(if left || zero then "" else Fill(' ', fill), core, if left then Fill(' ', fill) else "");
  }

  lemma OctalPieces(digits: seq<char>, width: nat, left: bool, zero: bool)
    ensures PadNumber(Parts("", "", digits), width, left, zero) ==
            (if left || zero then "" else Fill(' ', width - |digits|)) + OctalCore(digits, width, !left && zero)
            + (if left then Fill(' ', width - |digits|) else "")
  {
    hide Fill;
    assert Parts("", "", digits).Body() == digits;
  }

  /** Zeros of the padding take the place of the forced one. */
  lemma OctalPadded(plain: seq<char>, forced: seq<char>, width: nat, zeros: bool)
    requires forced == if plain != [] && plain[0] == '0' then plain else ['0'] + plain
    ensures var p, f := OctalCore(plain, width, zeros), OctalCore(forced, width, zeros);
            f == if p != [] && p[0] == '0' then p else ['0'] + p
  {
    if zeros && width > |plain| && forced != plain {
      assert Fill('0', width - |plain|) == Fill('0', width - |forced|) + ['0'];
    }
  }

  function OctalField(n: Number, width: nat, left: bool, zeros: bool, forced: bool): seq<char> {
    PadNumber(Parts("", "", Digits(n.value, 8, n.upper, n.precision, forced)), width, left, zeros)
  }

  lemma OctalFields(n: Number, width: nat, left: bool, zeros: bool)
    ensures var plain, forced := Trimmed(OctalField(n, width, left, zeros, false)),
                                 Trimmed(OctalField(n, width, left, zeros, true));
            && forced != [] && forced[0] == '0'
            && forced == if plain != [] && plain[0] == '0' then plain else ['0'] + plain
  {
    hide Digits, PadNumber, Trimmed, OctalCore, AllDigits, NatOf;
    var plain := Digits(n.value, 8, n.upper, n.precision, false);
    var forced := Digits(n.value, 8, n.upper, n.precision, true);
    OctalDigits(n.value, n.upper, n.precision);
    DigitsValue(n.value, 8, n.upper, n.precision, true);
    DigitsValue(n.value, 8, n.upper, n.precision, false);
    OctalTrimmed(plain, width, left, zeros);
    OctalTrimmed(forced, width, left, zeros);
    OctalPadded(plain, forced, width, !left && zeros);
  }

  function WithoutAlternate(d: Directive): Directive
    requires d.Field?
  {
    d.(flags := d.flags.(alternate := false))
  }

  /** For every octal directive with the alternate flag, the emitted field starts, behind its spaces,
      with a zero digit, and has one more than the field without the flag exactly where that has none. */
  lemma AlternateOctal(d: Directive, args: seq<Arg>)
    requires d.Field? && d.kind.UnsignedInt? && d.kind.radix == 8 && d.flags.alternate
    requires Perform(d, args).Emit?
    ensures Perform(WithoutAlternate(d), args).Emit?
    ensures var plain, forced := Trimmed(Perform(WithoutAlternate(d), args).text), Trimmed(Perform(d, args).text);
            && forced != [] && forced[0] == '0'
            && forced == if plain != [] && plain[0] == '0' then plain else ['0'] + plain
  {
    hide Digits, PadNumber, Trimmed;
    var l := Settle(d, args);
    assert Settle(WithoutAlternate(d), args) == l;
    var n := NumberOf(d.kind, d.flags, l.precision, args[l.taken..]).value;
    var zeros := d.flags.zero && n.precision.None?;
    assert Perform(d, args).text == OctalField(n, l.width, l.left, zeros, true);
    assert Perform(WithoutAlternate(d), args).text == OctalField(n, l.width, l.left, zeros, false);
    hide *;
    OctalFields(n, l.width, l.left, zeros);
  }
}
