/** Spelling directives out and parsing them back: the grammar of formats is unambiguous. */
module FormatSyntax {
  import opened FormatSpec

  // ----- the spelling of a directive

  function Flag(given: bool, c: char, rest: seq<char>): seq<char> { if given then [c] + rest else rest }

  function FlagText(flags: Flags): seq<char> {
    Flag(flags.left, '-', Flag(flags.plus, '+', Flag(flags.space, ' ',
    Flag(flags.alternate, '#', Flag(flags.zero, '0', [])))))
  }

  function AmountText(a: Amount): seq<char> {
    match a
    case Literal(n) => Magnitude(n, 10, false)
    case Star => "*"
    case _ => ""
  }

  function PrecisionText(a: Amount): seq<char> { if a.Absent? then "" else "." + AmountText(a) }

  function LengthText(length: Length): seq<char> {
    match length
    case LInt => ""
    case LChar => "hh"
    case LShort => "h"
    case LLong => "l"
    case LLongLong => "ll"
    case LSize => "z"
    case LPtrdiff => "t"
    case LMax => "j"
  }

  function KindLength(kind: Kind): Length {
    match kind
    case SignedInt(length) => length
    case UnsignedInt(length, _, _) => length
    case _ => LInt
  }

  function Conversion(kind: Kind): char {
    match kind
    case SignedInt(_) => 'd'
    case UnsignedInt(_, radix, upper) =>
      if radix == 8 then 'o' else if radix == 10 then 'u' else if upper then 'X' else 'x'
    case Address => 'p'
    case Character => 'c'
    case String => 's'
    case Unsupported => 'n'
  }

  /** A field after its percent sign. */
  function FieldText(d: Directive): seq<char>
    requires d.Field?
  {
    FlagText(d.flags) + AmountText(d.width) + PrecisionText(d.precision)
    + LengthText(KindLength(d.kind)) + [Conversion(d.kind)]
  }

  function Spell(d: Directive): seq<char> {
    if d.Field? then "%" + FieldText(d) else if d.c == '%' then "%%" else [d.c]
  }

  function SpellAll(ds: seq<Directive>): seq<char> {
    if ds == [] then "" else Spell(ds[0]) + SpellAll(ds[1..])
  }

  /** Directives that can be written: within INT_MAX, supported, upper case only in hexadecimal. */
  ghost predicate Writable(d: Directive) {
    d.Field? ==>
      && (d.width.Star? || (d.width.Literal? && d.width.n <= INT_MAX))
      && (d.precision.Absent? || d.precision.Star? || (d.precision.Literal? && d.precision.n <= INT_MAX))
      && !d.kind.Unsupported? && (d.kind.UnsignedInt? && d.kind.upper ==> d.kind.radix == 16)
  }

  /** No address is directly followed by a letter or digit. */
  ghost predicate Spaced(ds: seq<Directive>) {
    forall k :: 0 <= k < |ds| - 1 && ds[k].Field? && ds[k].kind.Address? && ds[k + 1].Plain? ==> !IsAlnum(ds[k + 1].c)
  }

  // ----- parsing each part

  lemma {:induction false} SpanEndIs(f: seq<char>, i: nat, e: nat, p: char -> bool)
    requires i <= e <= |f| && (forall k :: i <= k < e ==> p(f[k])) && (e < |f| ==> !p(f[e]))
    ensures SpanEnd(f, i, p) == e
    decreases e - i
  {
    if i < e { SpanEndIs(f, i + 1, e, p); }
  }

  lemma FlagsSpelled(f: seq<char>, a: nat, b: nat, flags: Flags)
    requires a <= b <= |f| && f[a..b] == FlagText(flags) && (b < |f| ==> !IsFlag(f[b]))
    ensures SpanEnd(f, a, IsFlag) == b && FlagsOf(f[a..b]) == flags
  {
    FlagTextFlags(flags);
    forall k | a <= k < b ensures IsFlag(f[k]) { assert f[k] == FlagText(flags)[k - a]; }
    hide FlagText;
    SpanEndIs(f, a, b, IsFlag);
  }

  lemma FlagMembers(given: bool, c: char, rest: seq<char>)
    ensures forall x :: x in Flag(given, c, rest) <==> (given && x == c) || x in rest
  {
  }

  lemma FlagTextFlags(flags: Flags)
    ensures FlagsOf(FlagText(flags)) == flags
    ensures forall k :: 0 <= k < |FlagText(flags)| ==> IsFlag(FlagText(flags)[k])
  {
    hide Flag;
    var zero := Flag(flags.zero, '0', []);
    var alternate := Flag(flags.alternate, '#', zero);
    var space := Flag(flags.space, ' ', alternate);
    var plus := Flag(flags.plus, '+', space);
    FlagMembers(flags.zero, '0', []);
    FlagMembers(flags.alternate, '#', zero);
    FlagMembers(flags.space, ' ', alternate);
    FlagMembers(flags.plus, '+', space);
    FlagMembers(flags.left, '-', plus);
  }

  lemma {:induction false} DecimalSpelled(n: nat)
    ensures var s := Magnitude(n, 10, false);
            && (forall k :: 0 <= k < |s| ==> IsDigit(s[k]))
            && DecimalValue(s) == n
            && (n > 0 ==> s != [] && s[0] != '0')
    decreases n
  {
    if n > 0 {
      DecimalSpelled(n / 10);
      var init, last := Magnitude(n / 10, 10, false), DigitChar(n % 10, false);
      assert IsDigit(last) && DigitValue(last) == n % 10;
      assert (init + [last])[..|init|] == init;
      assert n / 10 == 0 ==> init == [] && n % 10 == n;
    }
  }

  lemma MagnitudeZero()
    ensures Magnitude(0, 10, false) == []
  {
  }

  lemma AmountSpelled(f: seq<char>, b: nat, c: nat, amount: Amount)
    requires b <= c <= |f| && f[b..c] == AmountText(amount) && (c < |f| ==> !IsDigit(f[c]) && f[c] != '*')
    requires amount.Star? || (amount.Literal? && amount.n <= INT_MAX)
    ensures ParseAmount(f, b) == (amount, c)
  {
    hide Magnitude, DecimalValue, SpanEnd;
    if amount.Star? {
      assert f[b] == f[b..c][0] == '*';
    } else {
      DecimalSpelled(amount.n);
      var s := Magnitude(amount.n, 10, false);
      forall k | b <= k < c ensures IsDigit(f[k]) { assert f[k] == f[b..c][k - b] == s[k - b]; }
      SpanEndIs(f, b, c, IsDigit);
    }
  }

  lemma PrecisionSpelled(f: seq<char>, c: nat, e: nat, amount: Amount)
    requires c <= e <= |f| && f[c..e] == PrecisionText(amount)
    requires e < |f| ==> !IsDigit(f[e]) && f[e] != '*' && f[e] != '.'
    requires amount.Absent? || amount.Star? || (amount.Literal? && amount.n <= INT_MAX)
    ensures ParsePrecision(f, c) == (amount, e)
  {
    hide ParseAmount, AmountText;
    if !amount.Absent? {
      assert f[c] == f[c..e][0] == '.';
      assert f[c + 1..e] == f[c..e][1..] == AmountText(amount);
      AmountSpelled(f, c + 1, e, amount);
    }
  }

  predicate IsConversion(c: char) { c in "diuoxXpsc" }

  lemma Prefixes(s: seq<char>, x: char, y: char)
    ensures [x] <= s <==> |s| > 0 && s[0] == x
    ensures [x, y] <= s <==> |s| > 1 && s[0] == x && s[1] == y
  {
    assert |s| > 0 ==> s[..1] == [s[0]];
    assert |s| > 1 ==> s[..2] == [s[0], s[1]];
  }

  lemma LengthSpelled(f: seq<char>, e: nat, g: nat, length: Length)
    requires e <= g < |f| && f[e..g] == LengthText(length) && IsConversion(f[g])
    ensures ParseLength(f, e) == (length, g)
  {
    var rest := f[e..];
    assert forall k :: 0 <= k < g - e ==> rest[k] == f[e..g][k];
    assert rest[g - e] == f[g];
    Prefixes(rest, 'h', 'h');
    Prefixes(rest, 'l', 'l');
    Prefixes(rest, 'z', 'z');
    Prefixes(rest, 't', 't');
    Prefixes(rest, 'j', 'j');
  }

  /** What follows the flags, the width and the precision of a spelled field. */
  function Rest3(d: Directive, tail: seq<char>): seq<char>
    requires d.Field?
  {
    LengthText(KindLength(d.kind)) + ([Conversion(d.kind)] + tail)
  }
  function Rest2(d: Directive, tail: seq<char>): seq<char>
    requires d.Field?
  {
    PrecisionText(d.precision) + Rest3(d, tail)
  }
  function Rest1(d: Directive, tail: seq<char>): seq<char>
    requires d.Field?
  {
    AmountText(d.width) + Rest2(d, tail)
  }

  lemma LengthTextStarts(length: Length, c: char, tail: seq<char>)
    requires IsConversion(c)
    ensures var r := LengthText(length) + ([c] + tail); r != [] && (r[0] in "hlztj" || r[0] == c)
  {
  }

  /** Each of them starts with a character that cannot continue what stands before. */
  lemma RestsStart(d: Directive, tail: seq<char>)
    requires d.Field? && Writable(d)
    ensures IsConversion(Conversion(d.kind))
    ensures var r := Rest3(d, tail); r != [] && !IsDigit(r[0]) && r[0] != '*' && r[0] != '.'
    ensures var r := Rest2(d, tail); r != [] && !IsDigit(r[0]) && r[0] != '*'
    ensures var r := Rest1(d, tail); r != [] && !IsFlag(r[0]) && r[0] != '%'
  {
    hide LengthText, Magnitude;
    LengthTextStarts(KindLength(d.kind), Conversion(d.kind), tail);
    if d.width.Literal? {
      DecimalSpelled(d.width.n);
      MagnitudeZero();
    }
  }

  lemma KindSpelled(f: seq<char>, g: nat, kind: Kind)
    requires g < |f| && f[g] == Conversion(kind) && !kind.Unsupported?
    requires kind.UnsignedInt? && kind.upper ==> kind.radix == 16
    requires kind.Address? && g + 1 < |f| ==> !IsAlnum(f[g + 1])
    ensures ParseKind(f, g, KindLength(kind)) == kind
  {
  }

  /** What stands in front of a place does not matter for what stands there. */
  lemma PieceAt(f: seq<char>, a: nat, piece: seq<char>, rest: seq<char>)
    requires a <= |f| && f[a..] == piece + rest
    ensures a + |piece| <= |f| && f[a..a + |piece|] == piece && f[a + |piece|..] == rest
  {
    var t := f[a..];
    assert f[a..a + |piece|] == t[..|piece|] == piece;
    assert f[a + |piece|..] == t[|piece|..] == rest;
  }

  lemma Shifted(f: seq<char>, a: nat, x: nat)
    requires a + x < |f|
    ensures f[a..][x] == f[a + x]
  {
  }

  lemma FieldTextRests(d: Directive, tail: seq<char>)
    requires d.Field?
    ensures FieldText(d) + tail == FlagText(d.flags) + Rest1(d, tail)
    ensures |FieldText(d)| == |FlagText(d.flags)| + |AmountText(d.width)| + |PrecisionText(d.precision)|
                              + |LengthText(KindLength(d.kind))| + 1
  {
    hide FlagText, AmountText, PrecisionText, LengthText, KindLength, Conversion;
  }

  /** A field is known when its parts are. */
  lemma AssembleField(f: seq<char>, a: nat, d: Directive, b: nat, c: nat, e: nat, g: nat)
    requires a <= |f| && d.Field? && Writable(d) && b <= |f| && c <= |f| && e <= |f| && g < |f| && a <= b
    requires SpanEnd(f, a, IsFlag) == b && FlagsOf(f[a..b]) == d.flags
    requires ParseAmount(f, b) == (d.width, c) && ParsePrecision(f, c) == (d.precision, e)
    requires ParseLength(f, e) == (KindLength(d.kind), g) && ParseKind(f, g, KindLength(d.kind)) == d.kind
    ensures ParseField(f, a) == (d, g + 1)
  {
    hide SpanEnd, FlagsOf, ParseAmount, ParsePrecision, ParseLength, ParseKind, KindLength;
  }

  lemma RestsUnfold(d: Directive, tail: seq<char>)
    requires d.Field?
    ensures Rest1(d, tail) == AmountText(d.width) + Rest2(d, tail)
    ensures Rest2(d, tail) == PrecisionText(d.precision) + Rest3(d, tail)
    ensures Rest3(d, tail) == LengthText(KindLength(d.kind)) + ([Conversion(d.kind)] + tail)
  {
  }

  lemma WritableParts(d: Directive)
    requires d.Field? && Writable(d)
    ensures d.width.Star? || (d.width.Literal? && d.width.n <= INT_MAX)
    ensures d.precision.Absent? || d.precision.Star? || (d.precision.Literal? && d.precision.n <= INT_MAX)
    ensures !d.kind.Unsupported? && (d.kind.UnsignedInt? && d.kind.upper ==> d.kind.radix == 16)
  {
  }

  // Each part in front of what follows it.

  lemma FlagsAt(f: seq<char>, a: nat, flags: Flags, rest: seq<char>)
    requires a <= |f| && f[a..] == FlagText(flags) + rest && rest != [] && !IsFlag(rest[0])
    ensures var b := a + |FlagText(flags)|;
            b <= |f| && SpanEnd(f, a, IsFlag) == b && FlagsOf(f[a..b]) == flags && f[b..] == rest
  {
    hide *;
    PieceAt(f, a, FlagText(flags), rest);
    var b := a + |FlagText(flags)|;
    Shifted(f, b, 0);
    FlagsSpelled(f, a, b, flags);
  }

  lemma AmountAt(f: seq<char>, b: nat, amount: Amount, rest: seq<char>)
    requires b <= |f| && f[b..] == AmountText(amount) + rest && rest != [] && !IsDigit(rest[0]) && rest[0] != '*'
    requires amount.Star? || (amount.Literal? && amount.n <= INT_MAX)
    ensures var c := b + |AmountText(amount)|; c <= |f| && ParseAmount(f, b) == (amount, c) && f[c..] == rest
  {
    hide *;
    PieceAt(f, b, AmountText(amount), rest);
    Shifted(f, b + |AmountText(amount)|, 0);
    AmountSpelled(f, b, b + |AmountText(amount)|, amount);
  }

  lemma PrecisionAt(f: seq<char>, c: nat, amount: Amount, rest: seq<char>)
    requires c <= |f| && f[c..] == PrecisionText(amount) + rest
    requires rest != [] && !IsDigit(rest[0]) && rest[0] != '*' && rest[0] != '.'
    requires amount.Absent? || amount.Star? || (amount.Literal? && amount.n <= INT_MAX)
    ensures var e := c + |PrecisionText(amount)|; e <= |f| && ParsePrecision(f, c) == (amount, e) && f[e..] == rest
  {
    hide *;
    PieceAt(f, c, PrecisionText(amount), rest);
    Shifted(f, c + |PrecisionText(amount)|, 0);
    PrecisionSpelled(f, c, c + |PrecisionText(amount)|, amount);
  }

  lemma LengthAt(f: seq<char>, e: nat, kind: Kind, tail: seq<char>)
    requires e <= |f| && f[e..] == LengthText(KindLength(kind)) + ([Conversion(kind)] + tail)
    requires IsConversion(Conversion(kind))
    requires !kind.Unsupported? && (kind.UnsignedInt? && kind.upper ==> kind.radix == 16)
    requires kind.Address? && tail != [] ==> !IsAlnum(tail[0])
    ensures var g := e + |LengthText(KindLength(kind))|;
            && g < |f| && ParseLength(f, e) == (KindLength(kind), g)
            && ParseKind(f, g, KindLength(kind)) == kind && f[g + 1..] == tail
  {
    hide *;
    PieceAt(f, e, LengthText(KindLength(kind)), [Conversion(kind)] + tail);
    var g := e + |LengthText(KindLength(kind))|;
    PieceAt(f, g, [Conversion(kind)], tail);
    Shifted(f, g, 0);
    if g + 1 < |f| { Shifted(f, g + 1, 0); }
    LengthSpelled(f, e, g, KindLength(kind));
    KindSpelled(f, g, kind);
  }

  /** A spelled field parses to itself and to the place right behind it. */
  lemma FieldSpelled(f: seq<char>, a: nat, d: Directive, tail: seq<char>)
    requires a <= |f| && d.Field? && Writable(d) && f[a..] == FieldText(d) + tail
    requires d.kind.Address? && tail != [] ==> !IsAlnum(tail[0])
    ensures ParseField(f, a) == (d, a + |FieldText(d)|)
  {
    hide *;
    WritableParts(d);
    FieldTextRests(d, tail);
    RestsUnfold(d, tail);
    RestsStart(d, tail);
    var b := a + |FlagText(d.flags)|;
    var c := b + |AmountText(d.width)|;
    var e := c + |PrecisionText(d.precision)|;
    FlagsAt(f, a, d.flags, Rest1(d, tail));
    AmountAt(f, b, d.width, Rest2(d, tail));
    PrecisionAt(f, c, d.precision, Rest3(d, tail));
    LengthAt(f, e, d.kind, tail);
    AssembleField(f, a, d, b, c, e, e + |LengthText(KindLength(d.kind))|);
  }

  // ----- whole formats

  lemma ParsePlain(f: seq<char>, i: nat)
    requires i < |f| && f[i] != '%'
    ensures Parse(f, i) == [Plain(f[i])] + Parse(f, i + 1)
  {
    hide ParseField;
  }

  lemma ParsePercent(f: seq<char>, i: nat)
    requires i + 1 < |f| && f[i] == f[i + 1] == '%'
    ensures Parse(f, i) == [Plain('%')] + Parse(f, i + 2)
  {
    hide ParseField;
  }

  /** One spelled directive in front of a spelled rest. */
  lemma ParseOne(f: seq<char>, i: nat, d: Directive, tail: seq<char>)
    requires i <= |f| && f[i..] == Spell(d) + tail && Writable(d)
    requires d.Field? && d.kind.Address? && tail != [] ==> !IsAlnum(tail[0])
    ensures i + |Spell(d)| <= |f| && f[i + |Spell(d)|..] == tail
    ensures Parse(f, i) == [d] + Parse(f, i + |Spell(d)|)
  {
    hide Parse, ParseField, FieldText, Writable, IsAlnum;
    var n := |Spell(d)|;
    Shifted(f, i, 0);
    PieceAt(f, i, Spell(d), tail);
    if d.Field? {
      FirstOfField(d);
      ParseOneField(f, i, d, tail);
    } else if d.c == '%' {
      Shifted(f, i, 1);
      ParsePercent(f, i);
    } else {
      ParsePlain(f, i);
    }
  }

  lemma ParseOneField(f: seq<char>, i: nat, d: Directive, tail: seq<char>)
    requires i < |f| && d.Field? && Writable(d) && f[i] == '%' && f[i..] == "%" + FieldText(d) + tail
    requires FieldText(d) != [] && FieldText(d)[0] != '%'
    requires d.kind.Address? && tail != [] ==> !IsAlnum(tail[0])
    ensures Parse(f, i) == [d] + Parse(f, i + 1 + |FieldText(d)|)
  {
    hide ParseField, FieldText, Parse, Writable;
    assert f[i + 1..] == f[i..][1..] == FieldText(d) + tail;
    assert f[i + 1] == f[i + 1..][0] == FieldText(d)[0];
    FieldSpelled(f, i + 1, d, tail);
    WritableParts(d);
    ParseAtField(f, i);
  }

  lemma ParseAtField(f: seq<char>, i: nat)
    requires i + 1 < |f| && f[i] == '%' != f[i + 1]
    ensures var (d, next) := ParseField(f, i + 1); !d.kind.Unsupported? ==> Parse(f, i) == [d] + Parse(f, next)
  {
    hide ParseField;
  }

  lemma {:induction false} ParseSpelled(f: seq<char>, i: nat, ds: seq<Directive>)
    requires i <= |f| && f[i..] == SpellAll(ds) && Spaced(ds) && forall d <- ds :: Writable(d)
    ensures Parse(f, i) == ds
    decreases ds
  {
    hide *;
    if ds == [] {
      ParseNothing(f, i);
    } else {
      var d, rest := ds[0], ds[1..];
      SpacedRest(ds);
      SpellAllNext(ds);
      if d.Field? && d.kind.Address? && SpellAll(rest) != [] { FirstOfTail(ds); }
      ParseOne(f, i, d, SpellAll(rest));
      ParseSpelled(f, i + |Spell(d)|, rest);
      assert [d] + rest == ds;
    }
  }

  lemma ParseNothing(f: seq<char>, i: nat)
    requires i <= |f| && f[i..] == SpellAll([])
    ensures Parse(f, i) == []
  {
    hide ParseField;
    assert |f[i..]| == 0;
  }

  lemma SpellAllNext(ds: seq<Directive>)
    requires ds != []
    ensures SpellAll(ds) == Spell(ds[0]) + SpellAll(ds[1..])
  {
    hide Spell;
  }

  lemma SpacedRest(ds: seq<Directive>)
    requires ds != [] && Spaced(ds)
    ensures Spaced(ds[1..])
  {
    var rest := ds[1..];
    forall k | 0 <= k < |rest| - 1 && rest[k].Field? && rest[k].kind.Address? && rest[k + 1].Plain?
      ensures !IsAlnum(rest[k + 1].c)
    {
      assert rest[k] == ds[k + 1] && rest[k + 1] == ds[k + 1 + 1];
    }
  }

  lemma FirstOfField(d: Directive)
    requires d.Field? && Writable(d)
    ensures FieldText(d) != [] && FieldText(d)[0] != '%'
  {
    hide FieldText, FlagText, Rest1;
    RestsStart(d, []);
    FlagTextFlags(d.flags);
    FieldTextRests(d, []);
    assert FieldText(d) + [] == FieldText(d);
  }

  lemma FirstOfTail(ds: seq<Directive>)
    requires |ds| > 0 && ds[0].Field? && ds[0].kind.Address? && Spaced(ds) && SpellAll(ds[1..]) != []
    ensures !IsAlnum(SpellAll(ds[1..])[0])
  {
    if |ds| > 1 {
      assert SpellAll(ds[1..])[0] == Spell(ds[1])[0];
      assert ds[1].Plain? ==> !IsAlnum(ds[0 + 1].c);
    }
  }

  // ----- what parsing can yield

  /** A parsed field can be written unless it is refused, and an address ends before a letter or digit. */
  lemma ParsedField(f: seq<char>, i: nat)
    requires i <= |f|
    ensures var (d, next) := ParseField(f, i);
            && (!d.kind.Unsupported? ==> Writable(d))
            && (d.kind.Address? ==> !IsAlnum(Peek(f, next)))
  {
    hide SpanEnd, FlagsOf, ParseLength, IsAlnum;
  }

  lemma FirstParsed(f: seq<char>, i: nat)
    requires i <= |f|
    ensures var ds := Parse(f, i); ds != [] && ds[0].Plain? ==> ds[0].c == Peek(f, i)
  {
    hide ParseField;
  }

  lemma SpacedNext(d: Directive, ds: seq<Directive>)
    requires Spaced(ds)
    requires d.Field? && d.kind.Address? && ds != [] && ds[0].Plain? ==> !IsAlnum(ds[0].c)
    ensures Spaced([d] + ds)
  {
    hide IsAlnum;
    var all := [d] + ds;
    forall k | 0 <= k < |all| - 1 && all[k].Field? && all[k].kind.Address? && all[k + 1].Plain?
      ensures !IsAlnum(all[k + 1].c)
    {
      if k > 0 { assert all[k] == ds[k - 1] && all[k + 1] == ds[k - 1 + 1]; }
    }
  }

  /** In every parsed format addresses are spaced and the supported directives are writable. */
  lemma {:induction false} Parsed(f: seq<char>, i: nat)
    requires i <= |f|
    ensures Spaced(Parse(f, i))
    ensures forall d <- Parse(f, i) :: d.Field? && !d.kind.Unsupported? ==> Writable(d)
    decreases |f| - i
  {
    hide ParseField, Spaced, Writable, IsAlnum;
    if i == |f| {
      NothingSpaced();
    } else if f[i] != '%' {
      Parsed(f, i + 1);
      SpacedNext(Plain(f[i]), Parse(f, i + 1));
    } else if Peek(f, i + 1) == '%' {
      Parsed(f, i + 2);
      SpacedNext(Plain('%'), Parse(f, i + 2));
    } else {
      var (d, next) := ParseField(f, i + 1);
      ParsedField(f, i + 1);
      if d.kind.Unsupported? {
        NothingSpaced();
        SpacedNext(d, []);
        assert [d] + [] == [d];
      } else {
        Parsed(f, next);
        FirstParsed(f, next);
        SpacedNext(d, Parse(f, next));
      }
    }
  }

  lemma NothingSpaced()
    ensures Spaced([])
  {
  }

  // ----- what is refused

  /** The ASCII codes of the digits, the capitals and the small letters. */
  predicate LetterOrDigit(code: int) { 48 <= code <= 57 || 65 <= code <= 90 || 97 <= code <= 122 }

  /** A conversion is supported exactly when its letter is, with no length modifier before `s`, `c` and
      `p`, and no letter or digit behind `p`. */
  lemma KindExactly(f: seq<char>, i: nat, length: Length)
    requires i <= |f|
    ensures !ParseKind(f, i, length).Unsupported? <==>
            && i < |f| && f[i] in "diuoxXpsc"
            && (f[i] in "psc" ==> length == LInt)
            && (f[i] == 'p' && i + 1 < |f| ==> !LetterOrDigit(f[i + 1] as int))
    ensures i < |f| && f[i] in "di" ==> ParseKind(f, i, length) == SignedInt(length)
  {
  }

  // ----- the round trips

  /** A list of writable directives is what its own spelling parses to, exactly when its addresses are spaced. */
  lemma SpellingParses(ds: seq<Directive>)
    requires forall d <- ds :: Writable(d)
    ensures Parse(SpellAll(ds), 0) == ds <==> Spaced(ds)
  {
    hide *;
    var f := SpellAll(ds);
    assert f[0..] == f;
    if Spaced(ds) {
      ParseSpelled(f, 0, ds);
    }
    Parsed(f, 0);
  }

  lemma PlainWritable(d: Directive)
    requires d.Plain?
    ensures Writable(d)
  {
  }

  /** Spelling a parsed format without refused directives gives one that parses alike: a normal form. */
  lemma NormalForm(f: seq<char>)
    requires forall d <- Parse(f, 0) :: d.Field? ==> !d.kind.Unsupported?
    ensures Parse(SpellAll(Parse(f, 0)), 0) == Parse(f, 0)
  {
    hide *;
    Parsed(f, 0);
    forall d <- Parse(f, 0) ensures Writable(d) {
      if d.Plain? { PlainWritable(d); }
    }
    SpellingParses(Parse(f, 0));
  }
}
