/** The meaning of a format string, independent of any buffer or cursor.

    A format is first split into directives; each directive then has a mathematical rendering over
    the arguments it consumes, following section 7.21.6.1 of ISO/IEC 9899:2011 for the supported
    subset (flags, width, precision, `*`, length modifiers, and d i u o x X p s c).  Nothing here
    stores, truncates or counts: the bounded formatter is proved against this in module Formatter. */
module FormatSpec {
  import opened Powers

  const INT_MAX: int := 0x7FFF_FFFF
  const INT_MIN: int := -0x8000_0000
  const FORMAT_LIMIT: nat := 65536
  const NUL: char := '\0'

  type Radix = r: int | r == 8 || r == 10 || r == 16 witness 10

  datatype Option<+T> = None | Some(value: T)

  /** A C string pointer: null, or the bytes that may be read from it onwards. */
  datatype CString = Null | At(bytes: seq<char>)

  /** One variable argument, by the class of type that va_arg must name to fetch it (LP64). */
  datatype Arg = Int(bits: Word32) | Long(bits64: Word64) | Pointer(address: Word64) | Text(text: CString) | Other

  // ----- directives

  datatype Flags = Flags(left: bool, plus: bool, space: bool, alternate: bool, zero: bool)

  /** A width or a precision: missing, written out, taken from the arguments, or above INT_MAX. */
  datatype Amount = Absent | Literal(n: nat) | Star | Oversize

  datatype Length = LInt | LChar | LShort | LLong | LLongLong | LSize | LPtrdiff | LMax

  datatype Kind =
    | SignedInt(length: Length)
    | UnsignedInt(length: Length, radix: Radix, upper: bool)
    | Address
    | Character
    | String
    | Unsupported

  datatype Directive = Plain(c: char) | Field(flags: Flags, width: Amount, precision: Amount, kind: Kind)

  // ----- parsing

  predicate IsFlag(c: char) { c in "-+ #0" }
  predicate IsDigit(c: char) { '0' <= c <= '9' }
  predicate IsAlnum(c: char) { IsDigit(c) || 'A' <= c <= 'Z' || 'a' <= c <= 'z' }

  function DigitValue(c: char): (d: nat)
    requires IsDigit(c)
    ensures d < 10
  {
    (c - '0') as nat
  }

  /** The character at a cursor; the terminator stands right after the last character. */
  function Peek(f: seq<char>, i: nat): char
    requires i <= |f|
  {
    if i < |f| then f[i] else NUL
  }

  /** The end of the longest run from `i` of characters satisfying `p`. */
  function SpanEnd(f: seq<char>, i: nat, p: char -> bool): (e: nat)
    requires i <= |f|
    ensures i <= e <= |f|
    ensures forall k :: i <= k < e ==> p(f[k])
    ensures e < |f| ==> !p(f[e])
    decreases |f| - i
  {
    if i < |f| && p(f[i]) then SpanEnd(f, i + 1, p) else i
  }

  function FlagsOf(run: seq<char>): Flags {
    Flags('-' in run, '+' in run, ' ' in run, '#' in run, '0' in run)
  }

  function DecimalValue(run: seq<char>): nat
    requires forall k :: 0 <= k < |run| ==> IsDigit(run[k])
  {
    if run == [] then 0
    else 10 * DecimalValue(run[..|run| - 1]) + DigitValue(run[|run| - 1])
  }

  function ParseAmount(f: seq<char>, i: nat): (r: (Amount, nat))
    requires i <= |f|
    ensures i <= r.1 <= |f|
    ensures !r.0.Absent?
  {
    if Peek(f, i) == '*' then (Star, i + 1)
    else
      var e := SpanEnd(f, i, IsDigit);
      var v := DecimalValue(f[i..e]);
      (if v > INT_MAX then Oversize else Literal(v), e)
  }

  function ParsePrecision(f: seq<char>, i: nat): (r: (Amount, nat))
    requires i <= |f|
    ensures i <= r.1 <= |f|
  {
    if Peek(f, i) == '.' then ParseAmount(f, i + 1) else (Absent, i)
  }

  function ParseLength(f: seq<char>, i: nat): (r: (Length, nat))
    requires i <= |f|
    ensures i <= r.1 <= |f|
  {
    var rest := f[i..];
    if ['h', 'h'] <= rest then (LChar, i + 2)
    else if ['h'] <= rest then (LShort, i + 1)
    else if ['l', 'l'] <= rest then (LLongLong, i + 2)
    else if ['l'] <= rest then (LLong, i + 1)
    else if ['z'] <= rest then (LSize, i + 1)
    else if ['t'] <= rest then (LPtrdiff, i + 1)
    else if ['j'] <= rest then (LMax, i + 1)
    else (LInt, i)
  }

  /** The conversion at `i`.  A `%p` directly followed by a letter or digit is refused. */
  function ParseKind(f: seq<char>, i: nat, length: Length): Kind
    requires i <= |f|
  {
    if i == |f| then Unsupported
    else match f[i]
      case 's' => if length == LInt then String else Unsupported
      case 'c' => if length == LInt then Character else Unsupported
      case 'p' => if length == LInt && !IsAlnum(Peek(f, i + 1)) then Address else Unsupported
      case 'd' => SignedInt(length)
      case 'i' => SignedInt(length)
      case 'u' => UnsignedInt(length, 10, false)
      case 'o' => UnsignedInt(length, 8, false)
      case 'x' => UnsignedInt(length, 16, false)
      case 'X' => UnsignedInt(length, 16, true)
      case _ => Unsupported
  }

  /** The directive whose text starts right after its percent sign, and where the next one starts. */
  function ParseField(f: seq<char>, i: nat): (r: (Directive, nat))
    requires i <= |f|
    ensures i <= r.1 <= |f|
    ensures r.0.Field?
  {
    var e := SpanEnd(f, i, IsFlag);
    var flags := FlagsOf(f[i..e]);
    var (width, j) := ParseAmount(f, e);
    if width.Oversize? then (Field(flags, width, Absent, Unsupported), j)
    else
      var (precision, k) := ParsePrecision(f, j);
      if precision.Oversize? then (Field(flags, width, precision, Unsupported), k)
      else
        var (length, m) := ParseLength(f, k);
        var kind := ParseKind(f, m, length);
        (Field(flags, width, precision, kind), if kind.Unsupported? then m else m + 1)
  }

  /** All directives of the format from `i` on, up to and including the first unsupported one. */
  function Parse(f: seq<char>, i: nat): seq<Directive>
    requires i <= |f|
    decreases |f| - i
  {
    if i == |f| then []
    else if f[i] != '%' then [Plain(f[i])] + Parse(f, i + 1)
    else if Peek(f, i + 1) == '%' then [Plain('%')] + Parse(f, i + 2)
    else
      var (d, next) := ParseField(f, i + 1);
      if d.kind.Unsupported? then [d] else [d] + Parse(f, next)
  }

  // ----- rendering

  function Max(a: int, b: int): int { if a > b then a else b }
  function Min(a: int, b: int): int { if a < b then a else b }

  function Fill(c: char, n: int): (r: seq<char>)
    ensures |r| == Max(n, 0)
    ensures forall k :: 0 <= k < |r| ==> r[k] == c
  {
    seq(Max(n, 0), _ => c)
  }

  function DigitChar(d: nat, upper: bool): char
    requires d < 16
  {
    if d < 10 then '0' + d as char else (if upper then 'A' else 'a') + (d - 10) as char
  }

  /** The numeral of a value without leading zeros; zero has no digits. */
  function Magnitude(v: nat, radix: Radix, upper: bool): seq<char>
    decreases v
  {
    if v == 0 then [] else assert v / radix < v; Magnitude(v / radix, radix, upper) + [DigitChar(v % radix, upper)]
  }

  function AtLeast(digits: seq<char>, n: nat): seq<char> { Fill('0', n - |digits|) + digits }

  /** The precision is the minimum number of digits, one when absent; alternate octal forces a
      leading zero digit, adding one only when there is none. */
  function Digits(v: nat, radix: Radix, upper: bool, precision: Option<nat>, octalZero: bool): seq<char>
  {
    var digits := AtLeast(Magnitude(v, radix, upper), if precision.Some? then precision.value else 1);
    if octalZero && (digits == [] || digits[0] != '0') then ['0'] + digits else digits
  }

  /** The text of a number in its three parts. */
  datatype Parts = Parts(sign: seq<char>, prefix: seq<char>, digits: seq<char>) {
    function Body(): seq<char> { sign + prefix + digits }
  }

  /** A number to print and how to print it. */
  datatype Number = Number(sign: seq<char>, prefix: seq<char>, value: nat, radix: Radix, upper: bool,
                           precision: Option<nat>, octalZero: bool)
  {
    function Text(): Parts { Parts(sign, prefix, Digits(value, radix, upper, precision, octalZero)) }
  }

  /** Pads a number to its width: on the right, with zeros after sign and prefix, or on the left.
      The `0` flag counts only where no precision is in force, and addresses always have one. */
  function PadNumber(n: Parts, width: nat, left: bool, zero: bool): (r: seq<char>)
    ensures |r| == Max(width, |n.Body()|)
  {
    var fill := width - |n.Body()|;
    if left then n.Body() + Fill(' ', fill)
    else if zero then n.sign + n.prefix + Fill('0', fill) + n.digits
    else Fill(' ', fill) + n.Body()
  }

  /** The text stands at the front with spaces behind it, or at the end with spaces before it. */
  ghost predicate Placed(r: seq<char>, s: seq<char>, left: bool) {
    && |s| <= |r|
    && if left then r[..|s|] == s && (forall k :: |s| <= k < |r| ==> r[k] == ' ')
       else r[|r| - |s|..] == s && (forall k :: 0 <= k < |r| - |s| ==> r[k] == ' ')
  }

  function PadText(s: seq<char>, width: nat, left: bool): (r: seq<char>)
    ensures |r| == Max(width, |s|)
    ensures Placed(r, s, left)
  {
    if left then s + Fill(' ', width - |s|) else Fill(' ', width - |s|) + s
  }

  function Modulus(length: Length): (m: nat)
    ensures m > 0
  {
    match length
    case LChar => 0x100
    case LShort => 0x1_0000
    case LInt => 0x1_0000_0000
    case _ => 0x1_0000_0000_0000_0000
  }

  /** The value of the low bits of a word, read as unsigned and as two's complement. */
  function Unsigned(raw: nat, length: Length): nat { raw % Modulus(length) }
  function Signed(raw: nat, length: Length): int {
    var u := Unsigned(raw, length);
    if 2 * u >= Modulus(length) then u - Modulus(length) else u
  }

  function SignedNumber(v: int, flags: Flags, precision: Option<nat>): Number {
    Number(if v < 0 then "-" else if flags.plus then "+" else if flags.space then " " else "", "",
           if v < 0 then -v else v, 10, false, precision, false)
  }

  function UnsignedNumber(v: nat, radix: Radix, upper: bool, flags: Flags, precision: Option<nat>): Number {
    var prefix := if radix == 16 && flags.alternate && v != 0 then (if upper then "0X" else "0x") else "";
    Number("", prefix, v, radix, upper, precision, radix == 8 && flags.alternate)
  }

  /** Addresses are printed raw, sixteen digits wide unless a precision says otherwise. */
  function AddressNumber(v: nat, flags: Flags, precision: Option<nat>): Number {
    Number("", if flags.alternate then "0x" else "", v, 16, false,
           Some(if precision.Some? then precision.value else 16), false)
  }

  /** The position of the first terminator, or the length when there is none. */
  function NulIndex(bytes: seq<char>): (n: nat)
    ensures n <= |bytes|
    ensures forall k :: 0 <= k < n ==> bytes[k] != NUL
    ensures n < |bytes| ==> bytes[n] == NUL
  {
    if bytes == [] || bytes[0] == NUL then 0 else 1 + NulIndex(bytes[1..])
  }

  function StringBytes(s: CString): seq<char> { if s.Null? then "(null)" + [NUL] else s.bytes }

  /** How many bytes of a string must be looked at, the terminator included, never past the precision. */
  function Inspected(bytes: seq<char>, precision: Option<nat>): nat {
    var whole := NulIndex(bytes) + 1;
    if precision.Some? then Min(whole, precision.value) else whole
  }

  function Contents(bytes: seq<char>, precision: Option<nat>): seq<char> {
    bytes[..if precision.Some? then Min(NulIndex(bytes), precision.value) else NulIndex(bytes)]
  }

  // ----- the arguments of a directive

  /** What a directive does to the arguments in front of it: it lacks a proper argument, it is
      refused, or it contributes `text`, using up arguments and inspecting string bytes, which are
      all readable exactly when `legible`. */
  datatype Step = Stuck | Refused | Emit(text: seq<char>, taken: nat, inspected: nat, legible: bool)

  datatype Layout = NoArgument | BadWidth | Layout(left: bool, width: nat, precision: Option<nat>, taken: nat)

  function StarValue(args: seq<Arg>): int
    requires |args| > 0 && args[0].Int?
  {
    Signed(args[0].bits, LInt)
  }

  /** Settles a width.  A negative `*` means left adjustment. */
  function SettleWidth(width: Amount, left: bool, args: seq<Arg>): (r: Layout)
    ensures r.Layout? ==> r.taken <= |args| && r.precision.None?
  {
    match width
    case Absent => Layout(left, 0, None, 0)
    case Literal(n) => Layout(left, n, None, 0)
    case Oversize => BadWidth
    case Star =>
      if args == [] || !args[0].Int? then NoArgument
      else
        var w := StarValue(args);
        if w == INT_MIN then BadWidth
        else if w < 0 then Layout(true, -w, None, 1)
        else Layout(left, w, None, 1)
  }

  /** Settles a precision after a width, `args` being what is left.  A negative `*` means none. */
  function SettlePrecision(l: Layout, precision: Amount, args: seq<Arg>): (r: Layout)
    requires l.Layout?
    ensures r.Layout? ==> l.taken <= r.taken <= l.taken + |args|
  {
    match precision
    case Absent => l
    case Literal(n) => l.(precision := Some(n))
    case Oversize => BadWidth
    case Star =>
      if args == [] || !args[0].Int? then NoArgument
      else if StarValue(args) < 0 then l.(taken := l.taken + 1)
      else l.(taken := l.taken + 1, precision := Some(StarValue(args)))
  }

  function Settle(d: Directive, args: seq<Arg>): (r: Layout)
    requires d.Field?
    ensures r.Layout? ==> r.taken <= |args|
  {
    var l := SettleWidth(d.width, d.flags.left, args);
    if l.Layout? then SettlePrecision(l, d.precision, args[l.taken..]) else l
  }

  predicate FetchesInt(length: Length) { length in {LInt, LChar, LShort} }

  /** The integer argument for a length modifier: narrow ones travel as int. */
  function Fetch(args: seq<Arg>, length: Length): Option<nat> {
    if args == [] then None
    else if FetchesInt(length) && args[0].Int? then Some(args[0].bits)
    else if !FetchesInt(length) && args[0].Long? then Some(args[0].bits64)
    else None
  }

  /** The number an integer conversion prints, if its argument is there. */
  function NumberOf(kind: Kind, flags: Flags, precision: Option<nat>, args: seq<Arg>): (n: Option<Number>)
    requires kind.SignedInt? || kind.UnsignedInt? || kind.Address?
    ensures n.Some? ==> args != []
  {
    match kind
    case SignedInt(length) =>
      var raw := Fetch(args, length);
      if raw.None? then None else Some(SignedNumber(Signed(raw.value, length), flags, precision))
    case UnsignedInt(length, radix, upper) =>
      var raw := Fetch(args, length);
      if raw.None? then None
      else Some(UnsignedNumber(Unsigned(raw.value, length), radix, upper, flags, precision))
    case Address =>
      if args == [] || !args[0].Pointer? then None
      else Some(AddressNumber(args[0].address, flags, precision))
  }

  function Convert(kind: Kind, flags: Flags, l: Layout, args: seq<Arg>): (s: Step)
    requires l.Layout?
    ensures s.Emit? ==> s.taken == l.taken + 1 && args != []
  {
    match kind
    case Unsupported => Refused
    case Character =>
      if args == [] || !args[0].Int? then Stuck
      else Emit(PadText([(args[0].bits % 256) as char], l.width, l.left), l.taken + 1, 0, true)
    case String =>
      if args == [] || !args[0].Text? then Stuck
      else
        var bytes := StringBytes(args[0].text);
        var cost := Inspected(bytes, l.precision);
        Emit(PadText(Contents(bytes, l.precision), l.width, l.left), l.taken + 1, cost, cost <= |bytes|)
    case _ =>
      match NumberOf(kind, flags, l.precision, args)
      case None => Stuck
      case Some(n) =>
        Emit(PadNumber(n.Text(), l.width, l.left, flags.zero && n.precision.None?), l.taken + 1, 0, true)
  }

  function Perform(d: Directive, args: seq<Arg>): (s: Step)
    ensures s.Emit? ==> s.taken <= |args|
  {
    if d.Plain? then Emit([d.c], 0, 0, true)
    else
      var l := Settle(d, args);
      match l
      case NoArgument => Stuck
      case BadWidth => Refused
      case Layout(_, _, _, taken) => Convert(d.kind, d.flags, l, args[taken..])
  }

  // ----- whole formats

  /** Undefined: the caller broke the contract of the variable arguments.  Rejected: the call must
      fail.  Rendered: the call must produce this text. */
  datatype Outcome = Undefined | Rejected | Rendered(text: seq<char>) {
    function Prefixed(t: seq<char>): Outcome {
      match this
      case Rendered(u) => Rendered(t + u)
      case _ => this
    }
  }

  /** Performs the directives in order with so many bytes left to inspect and to produce. */
  function Run(ds: seq<Directive>, args: seq<Arg>, budget: nat, room: nat): Outcome
  {
    if ds == [] then Rendered([])
    else match Perform(ds[0], args)
      case Stuck => Undefined
      case Refused => Rejected
      case Emit(t, taken, inspected, legible) =>
        if inspected > budget then Rejected
        else if !legible then Undefined
        else if |t| > room then Rejected
        else Run(ds[1..], args[taken..], budget - inspected, room - |t|).Prefixed(t)
  }

  /** The meaning of a call of the formatter: everything except where the bytes go. */
  function Format(format: CString, args: seq<Arg>): Outcome {
    if format.Null? then Rejected
    else
      var n := NulIndex(format.bytes);
      if n >= FORMAT_LIMIT then Rejected
      else if n == |format.bytes| then Undefined
      else Run(Parse(format.bytes[..n], 0), args, FORMAT_LIMIT - (n + 1), INT_MAX)
  }
}
