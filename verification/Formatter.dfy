/** The bounded, allocation-free formatter: one pass over the format, in-place output state, and
    only as many bytes stored as the caller's buffer holds. */
module Formatter {
  import opened FormatSpec
  import opened Powers
  import FormatSyntax

  /** The mutable output record.  `count` bytes were produced and `used` of them stored in `data`;
      `text` is everything that was ever emitted, kept up even after a failure, and `steps` counts the
      loop iterations spent. */
  class Output {
    const data: array?<char>
    const capacity: nat
    var used: nat
    var scanned: nat
    var count: nat
    var failed: bool
    ghost var text: seq<char>
    ghost var steps: nat

    ghost predicate Valid()
      reads this, data
    {
      && scanned <= FORMAT_LIMIT
      && (capacity == 0 ==> used == 0)
      && (capacity != 0 ==> data != null && used < capacity <= data.Length)
      && (!failed ==>
            && count == |text| <= INT_MAX
            && (capacity != 0 ==> used == Min(count, capacity - 1) && data[..used] == text[..used]))
    }

    constructor (data: array?<char>, capacity: nat, scanned: nat)
      requires scanned <= FORMAT_LIMIT
      requires capacity != 0 ==> data != null && capacity <= data.Length
      ensures Valid() && !failed && text == [] && steps == 0
      ensures this.data == data && this.capacity == capacity && this.scanned == scanned
    {
      this.data, this.capacity, this.scanned := data, capacity, scanned;
      used, count, failed, text, steps := 0, 0, false, [], 0;
    }

    /** Filling only moves forward, and no byte at or beyond the fill position has changed. */
    twostate predicate Grown()
      reads this, data
    {
      && old(used) <= used
      && (data != null ==> forall k :: used <= k < data.Length ==> data[k] == old(data[k]))
    }

    /** Beyond one iteration per byte stored or inspected, at most `extra` more were spent. */
    twostate predicate Spent(extra: nat)
      reads this
    {
      && old(scanned) <= scanned
      && steps - used - scanned <= old(steps) - old(used) - old(scanned) + extra
    }

    /** `piece` was emitted, and the output fails once it is longer than INT_MAX. */
    twostate predicate Emitted(piece: seq<char>)
      reads this, data
    {
      && text == old(text) + piece
      && failed == (old(failed) || |text| > INT_MAX)
      && Grown()
    }

    /** Stores the next byte of the text. */
    method Put(ch: char)
      requires data != null && used < |text| && used < data.Length && text[used] == ch && data[..used] == text[..used]
      modifies this`used, this`steps, data
      ensures used == old(used) + 1 && steps == old(steps) + 1 && data[..used] == text[..used] && Grown()
    {
      ghost var before := data[..used];
      data[used], used, steps := ch, used + 1, steps + 1;
      assert data[..used] == before + [ch];
      assert text[..used] == text[..used - 1] + [ch];
    }

    method Repeat(ch: char, n: nat)
      requires Valid()
      modifies this`used, this`count, this`failed, this`text, this`steps, data
      ensures Valid() && Emitted(Fill(ch, n)) && Spent(0)
    {
      hide Fill;
      text := text + Fill(ch, n);
      if failed { return; }
      if n > INT_MAX - count { failed := true; return; }
      count := count + n;
      var available := if capacity == 0 then 0 else capacity - 1 - used;
      var copied := if n < available then n else available;
      for i := 0 to copied
        invariant used == old(used) + i && steps == old(steps) + i && !failed
        invariant count == old(count) + n && text == old(text) + Fill(ch, n)
        invariant Grown() && (capacity != 0 ==> data[..used] == text[..used])
      {
        Put(ch);
      }
    }

    method Bytes(source: seq<char>, n: nat)
      requires Valid() && n <= |source|
      modifies this`used, this`count, this`failed, this`text, this`steps, data
      ensures Valid() && Emitted(source[..n]) && Spent(0)
    {
      text := text + source[..n];
      if failed { return; }
      if n > INT_MAX - count { failed := true; return; }
      count := count + n;
      var available := if capacity == 0 then 0 else capacity - 1 - used;
      var copied := if n < available then n else available;
      for i := 0 to copied
        invariant used == old(used) + i && steps == old(steps) + i && !failed
        invariant count == old(count) + n && text == old(text) + source[..n]
        invariant Grown() && (capacity != 0 ==> data[..used] == text[..used])
      {
        Put(source[i]);
      }
    }
  }

  // ----- scanning the format

  lemma NoFlags(run: seq<char>)
    requires run == []
    ensures FlagsOf(run) == Flags(false, false, false, false, false)
  {
  }

  lemma FlagsGrow(f: seq<char>, start: nat, pos: nat)
    requires start <= pos < |f|
    ensures var now, c := FlagsOf(f[start..pos]), f[pos];
            FlagsOf(f[start..pos + 1]) == Flags(now.left || c == '-', now.plus || c == '+', now.space || c == ' ',
                                                now.alternate || c == '#', now.zero || c == '0')
  {
    assert f[start..pos + 1] == f[start..pos] + [f[pos]];
  }

  method ScanFlags(f: seq<char>, start: nat) returns (flags: Flags, pos: nat)
    requires start <= |f|
    ensures pos == SpanEnd(f, start, IsFlag)
    ensures flags == FlagsOf(f[start..pos])
  {
    hide FlagsOf;
    pos := start;
    var left, plus, space, alternate, zero := false, false, false, false, false;
    assert FlagsOf(f[start..pos]) == Flags(left, plus, space, alternate, zero) by { NoFlags(f[start..pos]); }
    while true
      invariant start <= pos <= |f|
      invariant SpanEnd(f, pos, IsFlag) == SpanEnd(f, start, IsFlag)
      invariant Flags(left, plus, space, alternate, zero) == FlagsOf(f[start..pos])
      decreases |f| - pos
    {
      if Peek(f, pos) == '-' { left := true; }
      else if Peek(f, pos) == '+' { plus := true; }
      else if Peek(f, pos) == ' ' { space := true; }
      else if Peek(f, pos) == '#' { alternate := true; }
      else if Peek(f, pos) == '0' { zero := true; }
      else { break; }
      FlagsGrow(f, start, pos);
      pos := pos + 1;
    }
    flags := Flags(left, plus, space, alternate, zero);
  }

  lemma {:induction false} DecimalGrows(run: seq<char>, n: nat)
    requires n <= |run| && forall k :: 0 <= k < |run| ==> IsDigit(run[k])
    ensures DecimalValue(run[..n]) <= DecimalValue(run)
  {
    hide DecimalValue, DigitValue, IsDigit;
    if n < |run| {
      DecimalGrows(run[..|run| - 1], n);
      assert run[..|run| - 1][..n] == run[..n];
      DecimalUnfolds(run);
    } else {
      assert run[..n] == run;
    }
  }

  lemma OverflowGuard(result: nat, digit: nat)
    requires digit < 10
    ensures result > (INT_MAX - digit) / 10 <==> 10 * result + digit > INT_MAX
  {
  }

  /** One more digit of the number that starts at `start`, and what it means for the whole number. */
  lemma NextDecimal(f: seq<char>, start: nat, pos: nat, end: nat, result: nat, digit: nat)
    requires start <= pos < end <= |f|
    requires forall k :: start <= k < end ==> IsDigit(f[k])
    requires result == DecimalValue(f[start..pos]) && digit == DigitValue(f[pos])
    ensures if result > (INT_MAX - digit) / 10 then DecimalValue(f[start..end]) > INT_MAX
            else DecimalValue(f[start..pos + 1]) == result * 10 + digit <= INT_MAX
  {
    hide DecimalValue, DigitValue, IsDigit;
    OverflowGuard(result, digit);
    PrefixOfSlice(f, start, pos, pos + 1);
    DecimalUnfolds(f[start..pos + 1]);
    PrefixOfSlice(f, start, pos + 1, end);
    DecimalGrows(f[start..end], pos + 1 - start);
  }

  lemma PrefixOfSlice(f: seq<char>, a: nat, b: nat, c: nat)
    requires a <= b <= c <= |f|
    ensures f[a..c][..b - a] == f[a..b]
  {
  }

  lemma DecimalUnfolds(run: seq<char>)
    requires run != [] && forall k :: 0 <= k < |run| ==> IsDigit(run[k])
    ensures DecimalValue(run) == 10 * DecimalValue(run[..|run| - 1]) + DigitValue(run[|run| - 1])
  {
    hide DigitValue, IsDigit;
  }

  lemma SpanStarts(f: seq<char>, start: nat)
    requires start <= |f|
    ensures DecimalValue(f[start..start]) == 0
  {
  }

  /** Fails exactly when the written number exceeds INT_MAX, without ever computing a larger one. */
  method ScanDecimal(f: seq<char>, start: nat) returns (result: nat, pos: nat, failed: bool)
    requires start <= |f|
    ensures start <= pos <= |f| && result <= INT_MAX
    ensures var end := SpanEnd(f, start, IsDigit);
            && (failed <==> DecimalValue(f[start..end]) > INT_MAX)
            && (!failed ==> result == DecimalValue(f[start..end]) && pos == end)
            && (failed ==> pos < end)
  {
    result, pos, failed := 0, start, false;
    SpanStarts(f, start);
    ghost var end := SpanEnd(f, start, IsDigit);
    hide DecimalValue, SpanEnd, DigitValue, IsDigit;
    while IsDigit(Peek(f, pos))
      invariant start <= pos <= end
      invariant result == DecimalValue(f[start..pos]) <= INT_MAX
      decreases end - pos
    {
      var digit := DigitValue(Peek(f, pos));
      NextDecimal(f, start, pos, end, result, digit);
      if result > (INT_MAX - digit) / 10 { return 0, pos, true; }
      result, pos := result * 10 + digit, pos + 1;
    }
  }

  method ScanLength(f: seq<char>, start: nat) returns (length: Length, pos: nat)
    requires start <= |f|
    ensures (length, pos) == ParseLength(f, start)
  {
    length, pos := LInt, start;
    if Peek(f, pos) == 'h' {
      pos, length := pos + 1, LShort;
      if Peek(f, pos) == 'h' { pos, length := pos + 1, LChar; }
    } else if Peek(f, pos) == 'l' {
      pos, length := pos + 1, LLong;
      if Peek(f, pos) == 'l' { pos, length := pos + 1, LLongLong; }
    } else if Peek(f, pos) == 'z' { pos, length := pos + 1, LSize; }
    else if Peek(f, pos) == 't' { pos, length := pos + 1, LPtrdiff; }
    else if Peek(f, pos) == 'j' { pos, length := pos + 1, LMax; }
  }

  // ----- strings

  /** Measures a string argument, charging every byte looked at against the scan limit. */
  method ScanText(out: Output, bytes: seq<char>, precise: bool, precision: nat) returns (n: nat)
    requires out.Valid() && !out.failed
    requires var p := if precise then Some(precision) else None;
             Inspected(bytes, p) <= FORMAT_LIMIT - out.scanned ==> Inspected(bytes, p) <= |bytes|
    modifies out`scanned, out`failed, out`steps
    ensures out.Valid() && out.Spent(1)
    ensures var p := if precise then Some(precision) else None;
            && n <= |bytes|
            && (out.failed <==> Inspected(bytes, p) > FORMAT_LIMIT - old(out.scanned))
            && (!out.failed ==> out.scanned == old(out.scanned) + Inspected(bytes, p))
            && (!out.failed ==> bytes[..n] == Contents(bytes, p))
  {
    n := 0;
    while !precise || n < precision
      invariant out.Valid() && !out.failed && out.scanned == old(out.scanned) + n && out.Spent(0)
      invariant n <= NulIndex(bytes) && (precise ==> n <= precision)
      decreases FORMAT_LIMIT - out.scanned
    {
      out.steps := out.steps + 1;
      if out.scanned == FORMAT_LIMIT { out.failed := true; break; }
      out.scanned := out.scanned + 1;
      if bytes[n] == NUL { break; }
      n := n + 1;
    }
  }

  method EmitText(out: Output, source: seq<char>, n: nat, width: nat, left: bool)
    requires out.Valid() && n <= |source|
    modifies out`used, out`count, out`failed, out`text, out`steps, out.data
    ensures out.Valid() && out.Emitted(PadText(source[..n], width, left)) && out.Spent(0)
  {
    hide PadText, Placed, Fill;
    var padding := if width > n then width - n else 0;
    PadTextPieces(old(out.text), source[..n], padding, width, left);
    if !left { out.Repeat(' ', padding); }
    out.Bytes(source, n);
    if left { out.Repeat(' ', padding); }
  }

  lemma PadTextPieces(t: seq<char>, s: seq<char>, padding: nat, width: nat, left: bool)
    requires padding == Max(width - |s|, 0)
    ensures t + PadText(s, width, left) == if left then t + s + Fill(' ', padding) else t + Fill(' ', padding) + s
  {
    assert Fill(' ', padding) == Fill(' ', width - |s|);
    hide Fill, Placed;
  }

  // ----- integers

  function Reversed(s: seq<char>): (r: seq<char>)
    ensures |r| == |s|
  {
    seq(|s|, i requires 0 <= i < |s| => s[|s| - 1 - i])
  }

  lemma DivRadix(v: nat, radix: Radix)
    ensures 0 <= v / radix <= v / 2 && 0 <= v % radix < radix
    ensures v == radix * (v / radix) + v % radix
  {
    if radix == 8 {
    } else if radix == 10 {
    } else {
    }
  }

  /** A value below 2^n has at most n digits in any radix. */
  lemma {:induction false} MagnitudeLength(v: nat, radix: Radix, upper: bool, n: nat)
    requires v < Pow2(n)
    ensures |Magnitude(v, radix, upper)| <= n
    decreases v
  {
    if v != 0 {
      DivRadix(v, radix);
      MagnitudeLength(v / radix, radix, upper, n - 1);
    }
  }

  function Alphabet(d: nat, upper: bool): (c: char)
    requires d < 16
    ensures c == DigitChar(d, upper)
  {
    (if upper then "0123456789ABCDEF" else "0123456789abcdef")[d]
  }

  lemma NextDigit(v: nat, radix: Radix, upper: bool, done: seq<char>)
    requires v != 0
    ensures Magnitude(v, radix, upper) + Reversed(done) ==
            Magnitude(v / radix, radix, upper) + Reversed(done + [DigitChar(v % radix, upper)])
  {
    hide DigitChar, Magnitude, Reversed;
    var digit, front := DigitChar(v % radix, upper), Magnitude(v / radix, radix, upper);
    MagnitudeUnfolds(v, radix, upper);
    ReversedAppend(done, digit);
    assert front + [digit] + Reversed(done) == front + ([digit] + Reversed(done));
  }

  lemma ReversedAppend(s: seq<char>, c: char)
    ensures Reversed(s + [c]) == [c] + Reversed(s)
  {
  }

  lemma MagnitudeUnfolds(v: nat, radix: Radix, upper: bool)
    requires v != 0
    ensures Magnitude(v, radix, upper) == Magnitude(v / radix, radix, upper) + [DigitChar(v % radix, upper)]
  {
    hide DigitChar;
  }

  /** The digits made so far, lowest first, and the value still to be written in front of them. */
  ghost predicate Made(v: nat, value: nat, radix: Radix, upper: bool, done: seq<char>) {
    && (done == [] ==> value == v)
    && (v == 0 ==> done == [])
    && (v != 0 ==> value != 0 && Magnitude(v, radix, upper) == Magnitude(value, radix, upper) + Reversed(done))
  }

  lemma MadeStarts(v: nat, radix: Radix, upper: bool)
    ensures Made(v, v, radix, upper, [])
  {
    hide Magnitude;
    assert Magnitude(v, radix, upper) + Reversed([]) == Magnitude(v, radix, upper);
  }

  /** One digit more: there is room for it, and it is the last one when nothing is left. */
  lemma MadeNext(v: Word64, value: nat, radix: Radix, upper: bool, done: seq<char>, digit: char)
    requires Made(v, value, radix, upper, done) && digit == DigitChar(value % radix, upper)
    ensures |done| < 64
    ensures value / radix != 0 ==> Made(v, value / radix, radix, upper, done + [digit])
    ensures value / radix == 0 ==> Reversed(done + [digit]) == if v == 0 then "0" else Magnitude(v, radix, upper)
  {
    hide DigitChar, Magnitude, Reversed, Pow2;
    if v == 0 {
      ZeroDigit(radix, upper);
    } else {
      Pow2Values();
      MagnitudeLength(v, radix, upper, 64);
      MagnitudeSome(value, radix, upper);
      MagnitudeSome(value / radix, radix, upper);
      NextDigit(value, radix, upper, done);
    }
  }

  lemma ZeroDigit(radix: Radix, upper: bool)
    ensures 0 / radix == 0 && Reversed([] + [DigitChar(0 % radix, upper)]) == "0"
  {
  }

  lemma MagnitudeSome(v: nat, radix: Radix, upper: bool)
    ensures v == 0 <==> Magnitude(v, radix, upper) == []
  {
  }

  /** Fills the 64-byte digit buffer, lowest digit first, with at least one digit. */
  method MakeDigits(v: Word64, radix: Radix, upper: bool) returns (digits: array<char>, n: nat)
    ensures fresh(digits) && n <= digits.Length == 64
    ensures Reversed(digits[..n]) == if v == 0 then "0" else Magnitude(v, radix, upper)
  {
    digits := new char[64];
    n := 0;
    var value: nat := v;
    hide Made, Magnitude, Reversed;
    assert digits[..0] == [];
    MadeStarts(v, radix, upper);
    while true
      invariant 0 <= n <= 64 && Made(v, value, radix, upper, digits[..n])
      decreases value
    {
      DivRadix(value, radix);
      var digit := Alphabet(value % radix, upper);
      ghost var done := digits[..n];
      MadeNext(v, value, radix, upper, done, digit);
      digits[n] := digit;
      assert digits[..n + 1] == done + [digit];
      value, n := value / radix, n + 1;
      if value == 0 { break; }
    }
  }

  /** Emits the digits from the highest down. */
  method EmitDigits(out: Output, digits: seq<char>)
    requires out.Valid()
    modifies out`used, out`count, out`failed, out`text, out`steps, out.data
    ensures out.Valid() && out.Emitted(Reversed(digits)) && out.Spent(|digits|)
  {
    var n := |digits|;
    ghost var all := Reversed(digits);
    while n != 0
      invariant 0 <= n <= |digits|
      invariant out.Valid() && out.Emitted(all[..|digits| - n]) && out.Spent(|digits| - n)
    {
      n, out.steps := n - 1, out.steps + 1;
      out.Repeat(digits[n], 1);
      assert old(out.text) + all[..|digits| - n - 1] + Fill(digits[n], 1) == old(out.text) + all[..|digits| - n];
    }
    assert all[..|digits|] == all;
  }

  /** The padding on one side of a field, where that side is the one that gets it. */
  function Pad(chosen: bool, c: char, n: nat): seq<char> { if chosen then Fill(c, n) else "" }

  method EmitPad(out: Output, chosen: bool, c: char, n: nat)
    requires out.Valid()
    modifies out`used, out`count, out`failed, out`text, out`steps, out.data
    ensures out.Valid() && out.Emitted(Pad(chosen, c, n)) && out.Spent(0)
  {
    if chosen { out.Repeat(c, n); }
    assert !chosen ==> out.text + "" == out.text;
  }

  method EmitSign(out: Output, sign: seq<char>)
    requires out.Valid() && |sign| <= 1
    modifies out`used, out`count, out`failed, out`text, out`steps, out.data
    ensures out.Valid() && out.Emitted(sign) && out.Spent(0)
  {
    if sign != [] { out.Repeat(sign[0], 1); }
    assert sign != [] ==> Fill(sign[0], 1) == sign;
    assert sign == [] ==> out.text + sign == out.text;
  }

  lemma PadInPieces(n: Parts, padding: nat, left: bool, zero: bool, width: nat)
    requires padding == Max(width - |n.Body()|, 0)
    ensures Pad(!left && !zero, ' ', padding) + n.sign + n.prefix + Pad(!left && zero, '0', padding)
            + n.digits + Pad(left, ' ', padding) == PadNumber(n, width, left, zero)
  {
    assert Fill(' ', padding) == Fill(' ', width - |n.Body()|);
    assert Fill('0', padding) == Fill('0', width - |n.Body()|);
    hide Fill;
    if left {
    } else if zero {
    } else {
      assert Fill(' ', padding) + n.sign + n.prefix + n.digits == Fill(' ', padding) + n.Body();
    }
  }

  lemma Regroup(t: seq<char>, front: seq<char>, zeroes: seq<char>, digits: seq<char>, back: seq<char>)
    ensures t + front + zeroes + digits + back == t + (front + (zeroes + digits) + back)
  {
  }

  /** The pieces in the order of their emission make up the padded number. */
  lemma PiecesOfNumber(t: seq<char>, n: Parts, zeroes: seq<char>, digits: seq<char>, padding: nat, left: bool,
                       zero: bool, width: nat)
    requires padding == Max(width - |n.Body()|, 0) && n.digits == zeroes + digits
    ensures t + (Pad(!left && !zero, ' ', padding) + n.sign + n.prefix + Pad(!left && zero, '0', padding))
            + zeroes + digits + Pad(left, ' ', padding)
            == t + PadNumber(n, width, left, zero)
  {
    hide Pad, PadNumber;
    PadInPieces(n, padding, left, zero, width);
    Regroup(t, Pad(!left && !zero, ' ', padding) + n.sign + n.prefix + Pad(!left && zero, '0', padding),
            zeroes, digits, Pad(left, ' ', padding));
  }

  /** Everything in front of the digits. */
  method EmitFront(out: Output, sign: seq<char>, prefix: seq<char>, padding: nat, left: bool, zero: bool)
    requires out.Valid() && |sign| <= 1
    modifies out`used, out`count, out`failed, out`text, out`steps, out.data
    ensures out.Valid() && out.Spent(0)
    ensures out.Emitted(Pad(!left && !zero, ' ', padding) + sign + prefix + Pad(!left && zero, '0', padding))
  {
    hide Pad;
    EmitPad(out, !left && !zero, ' ', padding);
    EmitSign(out, sign);
    out.Bytes(prefix, |prefix|);
    assert prefix[..|prefix|] == prefix;
    EmitPad(out, !left && zero, '0', padding);
  }

  /** Emits sign, prefix, zeros and digits with the one padding that the flags select. */
  method EmitNumber(out: Output, sign: seq<char>, prefix: seq<char>, zeroes: nat, digits: seq<char>,
                    width: nat, left: bool, zero: bool)
    requires out.Valid() && |sign| <= 1
    modifies out`used, out`count, out`failed, out`text, out`steps, out.data
    ensures out.Valid() && out.Spent(|digits|)
    ensures out.Emitted(PadNumber(Parts(sign, prefix, Fill('0', zeroes) + Reversed(digits)), width, left, zero))
  {
    ghost var number := Parts(sign, prefix, Fill('0', zeroes) + Reversed(digits));
    var total := |digits| + zeroes + |prefix| + |sign|;
    assert total == |number.Body()|;
    if total > INT_MAX {
      out.failed, out.text := true, out.text + PadNumber(number, width, left, zero);
      return;
    }
    hide Pad, PadNumber;
    var padding := if width > total then width - total else 0;
    EmitFront(out, sign, prefix, padding, left, zero);
    out.Repeat('0', zeroes);
    EmitDigits(out, digits);
    EmitPad(out, left, ' ', padding);
    PiecesOfNumber(old(out.text), number, Fill('0', zeroes), Reversed(digits), padding, left, zero, width);
  }

  lemma PrecisionZeroes(magnitude: seq<char>, precision: Option<nat>, made: seq<char>)
    requires made == if magnitude == [] then (if precision == Some(0) then "" else "0") else magnitude
    ensures AtLeast(magnitude, if precision.Some? then precision.value else 1)
            == Fill('0', Zeroes(made, precision, false)) + made
  {
  }

  /** The digits the code makes, behind the zeroes it counts, are the digits the standard asks for. */
  lemma ZeroesAndDigits(v: nat, radix: Radix, upper: bool, precision: Option<nat>, octalZero: bool, made: seq<char>)
    requires made == if v == 0 then (if precision == Some(0) then "" else "0") else Magnitude(v, radix, upper)
    ensures Digits(v, radix, upper, precision, octalZero) == Fill('0', Zeroes(made, precision, octalZero)) + made
  {
    hide Magnitude, AtLeast;
    MagnitudeSome(v, radix, upper);
    PrecisionZeroes(Magnitude(v, radix, upper), precision, made);
    var zeroes := Zeroes(made, precision, false);
    if zeroes == 0 {
      assert Fill('0', 0) + made == made && Fill('0', 1) == ['0'];
    } else {
      assert (Fill('0', zeroes) + made)[0] == '0';
    }
  }

  function Zeroes(made: seq<char>, precision: Option<nat>, octalZero: bool): nat {
    var zeroes := if precision.Some? && precision.value > |made| then precision.value - |made| else 0;
    if octalZero && zeroes == 0 && (made == [] || made[0] != '0') then 1 else zeroes
  }

  lemma SmallModulus(x: nat, m: nat)
    requires x < m
    ensures x % m == x
  {
    DivUnique(x, m, 0, x);
  }

  lemma FetchBound(args: seq<Arg>, length: Length)
    requires Fetch(args, length).Some?
    ensures Fetch(args, length).value < if FetchesInt(length) then 0x1_0000_0000 else 0x1_0000_0000_0000_0000
  {
  }

  /** A fetched word is narrowed only by the short length modifiers. */
  lemma UnsignedValue(args: seq<Arg>, length: Length)
    requires Fetch(args, length).Some?
    ensures var raw := Fetch(args, length).value;
            && Unsigned(raw, length) ==
               (if length == LChar then raw % 0x100 else if length == LShort then raw % 0x1_0000 else raw)
            && Unsigned(raw, length) < 0x1_0000_0000_0000_0000
  {
    hide Fetch;
    FetchBound(args, length);
    if length != LChar && length != LShort { SmallModulus(Fetch(args, length).value, Modulus(length)); }
  }

  function FetchUnsigned(args: seq<Arg>, length: Length): (v: nat)
    requires Fetch(args, length).Some?
    ensures v == Unsigned(Fetch(args, length).value, length) < 0x1_0000_0000_0000_0000
  {
    UnsignedValue(args, length);
    var raw := Fetch(args, length).value;
    match length
    case LChar => raw % 0x100
    case LShort => raw % 0x1_0000
    case _ => raw
  }

  /** A cast of a word to a signed type of the given modulus. */
  function Narrow(x: nat, modulus: nat): int
    requires modulus > 0
  {
    var low := x % modulus;
    if low >= modulus - low then low - modulus else low
  }

  function FetchSigned(args: seq<Arg>, length: Length): (v: int)
    requires Fetch(args, length).Some?
    ensures v == Signed(Fetch(args, length).value, length)
    ensures -0x8000_0000_0000_0000 <= v < 0x8000_0000_0000_0000
  {
    match length
    case LChar => Narrow(args[0].bits, 0x100)
    case LShort => Narrow(args[0].bits, 0x1_0000)
    case LInt => Narrow(args[0].bits, 0x1_0000_0000)
    case _ => Narrow(args[0].bits64, 0x1_0000_0000_0000_0000)
  }

  /** The digits of a value in the code's order, none for a zero of precision zero. */
  method DigitsOf(value: Word64, radix: Radix, upper: bool, precision: Option<nat>, octalZero: bool)
    returns (digits: seq<char>, zeroes: nat)
    ensures Digits(value, radix, upper, precision, octalZero) == Fill('0', zeroes) + Reversed(digits)
    ensures |digits| <= 64
  {
    hide Digits, Magnitude, Reversed, Fill;
    digits := [];
    if value != 0 || precision != Some(0) {
      var buffer, n := MakeDigits(value, radix, upper);
      digits := buffer[..n];
    }
    zeroes := if precision.Some? && precision.value > |digits| then precision.value - |digits| else 0;
    if octalZero && zeroes == 0 && (|digits| == 0 || digits[|digits| - 1] != '0') { zeroes := 1; }
    ReversedFirst(digits);
    ZeroesAndDigits(value, radix, upper, precision, octalZero, Reversed(digits));
  }

  lemma ReversedFirst(s: seq<char>)
    ensures if s == [] then Reversed(s) == [] else Reversed(s)[0] == s[|s| - 1]
  {
  }

  /** The sign character and magnitude of a 64-bit value, by unsigned negation. */
  method SplitSign(signed: int, flags: Flags) returns (sign: seq<char>, value: Word64)
    requires -0x8000_0000_0000_0000 <= signed < 0x8000_0000_0000_0000
    ensures value == if signed < 0 then -signed else signed
    ensures sign == if signed < 0 then "-" else if flags.plus then "+" else if flags.space then " " else ""
  {
    sign, value := "", signed % 0x1_0000_0000_0000_0000;
    assert value == if signed < 0 then signed + 0x1_0000_0000_0000_0000 else signed;
    if signed < 0 {
      sign := "-";
      value := (0 - value) % 0x1_0000_0000_0000_0000;
    } else if flags.plus { sign := "+"; }
    else if flags.space { sign := " "; }
  }

  predicate IsNumber(kind: Kind) { kind.SignedInt? || kind.UnsignedInt? || kind.Address? }

  function LetterKind(length: Length, c: char): (kind: Kind)
    ensures kind.UnsignedInt?
  {
    UnsignedInt(length, if c == 'u' then 10 else if c == 'o' then 8 else 16, c == 'X')
  }

  /** The kinds that the letter of a conversion other than `s` and `c` can name. */
  lemma KindAt(f: seq<char>, pos: nat, length: Length)
    requires pos < |f| && f[pos] != 's' && f[pos] != 'c'
    ensures var c, kind := f[pos], ParseKind(f, pos, length);
            if c == 'p' then kind == (if length == LInt && !IsAlnum(Peek(f, pos + 1)) then Address else Unsupported)
            else if c == 'd' || c == 'i' then kind == SignedInt(length)
            else if c == 'u' || c == 'o' || c == 'x' || c == 'X' then kind == LetterKind(length, c)
            else kind == Unsupported
  {
    hide IsAlnum;
  }

  // The numbers of the three kinds of integer conversion.

  lemma NumberOfAddress(flags: Flags, asked: Option<nat>, args: seq<Arg>)
    ensures NumberOf(Address, flags, asked, args) ==
            if args == [] || !args[0].Pointer? then None
            else Some(Number("", if flags.alternate then "0x" else "", args[0].address, 16, false,
                             Some(if asked.Some? then asked.value else 16), false))
  {
  }

  lemma NumberOfSigned(length: Length, flags: Flags, asked: Option<nat>, args: seq<Arg>)
    requires NumberOf(SignedInt(length), flags, asked, args).Some?
    ensures Fetch(args, length).Some?
    ensures var v := Signed(Fetch(args, length).value, length);
            var sign := if v < 0 then "-" else if flags.plus then "+" else if flags.space then " " else "";
            NumberOf(SignedInt(length), flags, asked, args) ==
            Some(Number(sign, "", if v < 0 then -v else v, 10, false, asked, false))
  {
    hide Fetch, Signed;
  }

  lemma NumberOfUnsigned(length: Length, c: char, flags: Flags, asked: Option<nat>, args: seq<Arg>)
    requires c == 'u' || c == 'o' || c == 'x' || c == 'X'
    requires NumberOf(LetterKind(length, c), flags, asked, args).Some?
    ensures Fetch(args, length).Some?
    ensures var v := Unsigned(Fetch(args, length).value, length);
            var prefix := if (c == 'x' || c == 'X') && flags.alternate && v != 0 then ['0', c] else "";
            NumberOf(LetterKind(length, c), flags, asked, args) ==
            Some(Number("", prefix, v, LetterKind(length, c).radix, c == 'X', asked, c == 'o' && flags.alternate))
  {
    hide Fetch, Unsigned;
  }

  /** Fetches the integer or address of a conversion with its radix, sign and prefix, and the
      precision it is printed with; refuses every other conversion. */
  method ReadNumber(f: seq<char>, pos: nat, length: Length, flags: Flags, asked: Option<nat>, args: seq<Arg>)
    returns (ok: bool, value: Word64, radix: Radix, sign: seq<char>, prefix: seq<char>, precision: Option<nat>)
    requires pos < |f| && f[pos] != 's' && f[pos] != 'c'
    requires IsNumber(ParseKind(f, pos, length)) ==> NumberOf(ParseKind(f, pos, length), flags, asked, args).Some?
    ensures ok == IsNumber(ParseKind(f, pos, length))
    ensures ok ==> NumberOf(ParseKind(f, pos, length), flags, asked, args) == Some(
                     Number(sign, prefix, value, radix, f[pos] == 'X', precision, f[pos] == 'o' && flags.alternate))
    ensures |sign| <= 1
  {
    hide ParseKind, IsAlnum, Fetch, Signed, Unsigned, FetchSigned, FetchUnsigned, NumberOf;
    KindAt(f, pos, length);
    var conversion := f[pos];
    ok, value, radix, sign, prefix, precision := true, 0, 10, "", "", asked;
    if conversion == 'p' {
      if length != LInt || IsAlnum(Peek(f, pos + 1)) { ok := false; return; }
      NumberOfAddress(flags, asked, args);
      value := args[0].address;
      radix := 16;
      if flags.alternate { prefix := "0x"; }
      if precision.None? { precision := Some(16); }
    } else if conversion == 'd' || conversion == 'i' {
      NumberOfSigned(length, flags, asked, args);
      sign, value := SplitSign(FetchSigned(args, length), flags);
    } else if conversion == 'u' || conversion == 'o' || conversion == 'x' || conversion == 'X' {
      NumberOfUnsigned(length, conversion, flags, asked, args);
      value := FetchUnsigned(args, length);
      if conversion == 'o' { radix := 8; }
      if conversion == 'x' || conversion == 'X' {
        radix := 16;
        if flags.alternate && value != 0 {
          prefix := ['0', conversion];
        }
      }
    } else { ok := false; }
  }

  lemma ConvertsNumber(f: seq<char>, pos: nat, length: Length, flags: Flags, l: Layout, args: seq<Arg>)
    requires pos < |f| && l.Layout? && f[pos] != 's' && f[pos] != 'c'
    ensures var kind := ParseKind(f, pos, length);
            Convert(kind, flags, l, args) ==
            if !IsNumber(kind) then Refused
            else match NumberOf(kind, flags, l.precision, args)
              case None => Stuck
              case Some(n) =>
                Emit(PadNumber(n.Text(), l.width, l.left, flags.zero && n.precision.None?), l.taken + 1, 0, true)
  {
    hide ParseKind, NumberOf, PadNumber, Digits;
    KindAt(f, pos, length);
  }

  method ConvertNumber(out: Output, f: seq<char>, pos: nat, length: Length, flags: Flags, l: Layout, args: seq<Arg>)
    requires out.Valid() && pos < |f| && l.Layout?
    requires f[pos] != 's' && f[pos] != 'c'
    requires Convert(ParseKind(f, pos, length), flags, l, args) != Stuck
    modifies out`used, out`count, out`failed, out`text, out`steps, out.data
    ensures out.Valid() && out.Grown() && out.Spent(128)
    ensures match Convert(ParseKind(f, pos, length), flags, l, args)
            case Emit(t, _, inspected, _) => out.Emitted(t) && inspected == 0
            case _ => out.failed
  {
    hide NumberOf, Digits, PadNumber, ParseKind, Convert;
    ConvertsNumber(f, pos, length, flags, l, args);
    var ok, value, radix, sign, prefix, precision := ReadNumber(f, pos, length, flags, l.precision, args);
    if !ok { out.failed := true; return; }
    var number := Number(sign, prefix, value, radix, f[pos] == 'X', precision, f[pos] == 'o' && flags.alternate);
    PrintNumber(out, number, l.width, l.left, flags.zero && precision.None?);
  }

  method PrintNumber(out: Output, number: Number, width: nat, left: bool, zero: bool)
    requires out.Valid() && |number.sign| <= 1 && number.value < 0x1_0000_0000_0000_0000
    modifies out`used, out`count, out`failed, out`text, out`steps, out.data
    ensures out.Valid() && out.Emitted(PadNumber(number.Text(), width, left, zero)) && out.Spent(128)
  {
    hide Digits, PadNumber, Reversed, Fill;
    var digits, zeroes :=
      DigitsOf(number.value, number.radix, number.upper, number.precision, number.octalZero);
    out.steps := out.steps + |digits|;
    EmitNumber(out, number.sign, number.prefix, zeroes, digits, width, left, zero);
  }

  /** Converts one string or character. */
  method ConvertText(out: Output, f: seq<char>, pos: nat, length: Length, flags: Flags, l: Layout, args: seq<Arg>)
    requires out.Valid() && !out.failed && pos < |f|
    requires l.Layout?
    requires f[pos] == 's' || f[pos] == 'c'
    requires match Convert(ParseKind(f, pos, length), flags, l, args)
             case Stuck => false
             case Refused => true
             case Emit(_, _, inspected, legible) => inspected <= FORMAT_LIMIT - out.scanned ==> legible
    modifies out`used, out`scanned, out`count, out`failed, out`text, out`steps, out.data
    ensures out.Valid() && out.Grown() && out.Spent(128)
    ensures match Convert(ParseKind(f, pos, length), flags, l, args)
            case Emit(t, _, inspected, _) =>
              if inspected > FORMAT_LIMIT - old(out.scanned) then out.failed
              else out.Emitted(t) && out.scanned == old(out.scanned) + inspected
            case _ => out.failed
  {
    hide PadText, Placed, Contents, Inspected;
    if length != LInt { out.failed := true; return; }
    var text, n := [], 1;
    if f[pos] == 'c' {
      text := [(args[0].bits % 256) as char];
    } else {
      text := if args[0].text.Null? then "(null)" + [NUL] else args[0].text.bytes;
      n := ScanText(out, text, l.precision.Some?, if l.precision.Some? then l.precision.value else 0);
    }
    EmitText(out, text, n, l.width, l.left);
    assert f[pos] == 'c' ==> text[..n] == text;
  }

  // ----- one directive

  /** Reads a width; a written one that is too large is only flagged, a `*` of INT_MIN stops at once. */
  method ReadWidth(f: seq<char>, start: nat, left: bool, args: seq<Arg>) returns (ok: bool, l: Layout, pos: nat)
    requires start <= |f|
    requires !SettleWidth(ParseAmount(f, start).0, left, args).NoArgument?
    ensures start <= pos <= |f|
    ensures ok ==> l.Layout? && l == SettleWidth(ParseAmount(f, start).0, left, args) && pos == ParseAmount(f, start).1
    ensures !ok ==> SettleWidth(ParseAmount(f, start).0, left, args).BadWidth?
    ensures ok ==> l.width <= INT_MAX
  {
    ok, pos := true, start;
    if Peek(f, pos) == '*' {
      var value, left' := StarValue(args), left;
      pos := pos + 1;
      if value == INT_MIN { return false, NoArgument, pos; }
      if value < 0 { left', value := true, -value; }
      l := Layout(left', value, None, 1);
    } else {
      var width, failed;
      width, pos, failed := ScanDecimal(f, pos);
      ok, l := !failed, Layout(left, width, None, 0);
    }
  }

  method ReadPrecision(f: seq<char>, start: nat, before: Layout, args: seq<Arg>) returns (ok: bool, l: Layout, pos: nat)
    requires start <= |f| && before.Layout? && before.precision.None?
    requires !SettlePrecision(before, ParsePrecision(f, start).0, args).NoArgument?
    ensures start <= pos <= |f|
    ensures ok ==> l.Layout? && l == SettlePrecision(before, ParsePrecision(f, start).0, args)
    ensures ok ==> pos == ParsePrecision(f, start).1
    ensures !ok ==> SettlePrecision(before, ParsePrecision(f, start).0, args).BadWidth?
    ensures ok ==> l.width == before.width && (l.precision.Some? ==> l.precision.value <= INT_MAX)
  {
    ok, l, pos := true, before, start;
    if Peek(f, pos) == '.' {
      pos := pos + 1;
      if Peek(f, pos) == '*' {
        var value := StarValue(args);
        pos := pos + 1;
        l := l.(taken := l.taken + 1);
        if value >= 0 { l := l.(precision := Some(value)); }
      } else {
        var n, failed;
        n, pos, failed := ScanDecimal(f, pos);
        ok, l := !failed, l.(precision := Some(n));
      }
    }
  }

  // What is known of a directive after each of its parts.

  lemma DirectiveWidth(f: seq<char>, start: nat, args: seq<Arg>)
    requires start <= |f| && Perform(ParseField(f, start).0, args) != Stuck
    ensures var e := SpanEnd(f, start, IsFlag);
            var l := SettleWidth(ParseAmount(f, e).0, FlagsOf(f[start..e]).left, args);
            !l.NoArgument? && (l.BadWidth? ==> Perform(ParseField(f, start).0, args).Refused?)
  {
    hide SpanEnd, FlagsOf, ParseAmount, ParsePrecision, ParseLength, ParseKind, SettlePrecision, Convert;
  }

  lemma DirectivePrecision(f: seq<char>, start: nat, args: seq<Arg>)
    requires start <= |f| && Perform(ParseField(f, start).0, args) != Stuck
    ensures var e := SpanEnd(f, start, IsFlag);
            var (width, j) := ParseAmount(f, e);
            var l := SettleWidth(width, FlagsOf(f[start..e]).left, args);
            l.Layout? ==>
              var l' := SettlePrecision(l, ParsePrecision(f, j).0, args[l.taken..]);
              !l'.NoArgument? && (l'.BadWidth? ==> Perform(ParseField(f, start).0, args).Refused?)
  {
    hide SpanEnd, FlagsOf, ParseAmount, ParsePrecision, ParseLength, ParseKind, Convert;
  }

  lemma DirectiveKind(f: seq<char>, start: nat, args: seq<Arg>)
    requires start <= |f|
    ensures var e := SpanEnd(f, start, IsFlag);
            var flags, (width, j) := FlagsOf(f[start..e]), ParseAmount(f, e);
            var (precision, k) := ParsePrecision(f, j);
            var (length, m) := ParseLength(f, k);
            var l := SettleWidth(width, flags.left, args);
            l.Layout? && SettlePrecision(l, precision, args[l.taken..]).Layout? ==>
              var l', kind := SettlePrecision(l, precision, args[l.taken..]), ParseKind(f, m, length);
              && l'.taken <= |args|
              && Perform(ParseField(f, start).0, args) == Convert(kind, flags, l', args[l'.taken..])
              && (!kind.Unsupported? ==> ParseField(f, start).1 == m + 1)
  {
    hide SpanEnd, FlagsOf, ParseAmount, ParsePrecision, ParseLength, ParseKind, Convert;
  }

  lemma NothingConverts(f: seq<char>, length: Length, flags: Flags, l: Layout, args: seq<Arg>)
    requires l.Layout?
    ensures Convert(ParseKind(f, |f|, length), flags, l, args).Refused?
  {
  }

  /** Parses a directive up to its conversion, taking `*` values from the arguments as they come up. */
  method ReadDirective(f: seq<char>, start: nat, args: seq<Arg>)
    returns (ok: bool, flags: Flags, l: Layout, length: Length, pos: nat)
    requires start <= |f| && NUL !in f
    requires Perform(ParseField(f, start).0, args) != Stuck
    ensures start <= pos <= |f|
    ensures !ok ==> Perform(ParseField(f, start).0, args).Refused?
    ensures ok ==> pos < |f| && l.Layout? && l.taken <= |args|
    ensures ok ==> l.width <= INT_MAX && (l.precision.Some? ==> l.precision.value <= INT_MAX)
    ensures ok ==>
              Perform(ParseField(f, start).0, args) == Convert(ParseKind(f, pos, length), flags, l, args[l.taken..])
    ensures ok && !ParseKind(f, pos, length).Unsupported? ==> ParseField(f, start).1 == pos + 1
  {
    hide Perform, ParseField, SpanEnd, FlagsOf, ParseAmount, ParsePrecision, ParseLength, ParseKind, SettleWidth,
         SettlePrecision, Convert;
    DirectiveWidth(f, start, args);
    flags, pos := ScanFlags(f, start);
    length := LInt;
    ok, l, pos := ReadWidth(f, pos, flags.left, args);
    if !ok { return; }
    DirectivePrecision(f, start, args);
    ok, l, pos := ReadPrecision(f, pos, l, args[l.taken..]);
    if !ok { return; }
    DirectiveKind(f, start, args);
    length, pos := ScanLength(f, pos);
    ok := Peek(f, pos) != NUL;
    if !ok { NothingConverts(f, length, flags, l, args[l.taken..]); }
  }

  lemma SupportedEmits(kind: Kind, flags: Flags, l: Layout, args: seq<Arg>)
    requires l.Layout?
    ensures Convert(kind, flags, l, args).Emit? ==> !kind.Unsupported?
  {
    hide NumberOf, PadNumber, PadText;
  }

  /** Runs one directive from right after its percent sign. */
  method RunField(out: Output, f: seq<char>, start: nat, args: seq<Arg>) returns (pos: nat, taken: nat)
    requires out.Valid() && !out.failed && start <= |f|
    requires NUL !in f
    requires match Perform(ParseField(f, start).0, args)
             case Stuck => false
             case Refused => true
             case Emit(_, _, inspected, legible) => inspected <= FORMAT_LIMIT - out.scanned ==> legible
    modifies out`used, out`scanned, out`count, out`failed, out`text, out`steps, out.data
    ensures out.Valid() && out.Grown() && start <= pos <= |f| && out.Spent(128 + pos - start)
    ensures match Perform(ParseField(f, start).0, args)
            case Emit(t, k, inspected, _) =>
              if inspected > FORMAT_LIMIT - old(out.scanned) then out.failed
              else && out.Emitted(t) && out.scanned == old(out.scanned) + inspected
                   && taken == k && pos == ParseField(f, start).1
            case _ => out.failed
  {
    hide Perform, ParseField, Convert, ParseKind;
    var ok, flags, l, length;
    ok, flags, l, length, pos := ReadDirective(f, start, args);
    out.steps := out.steps + (pos - start);
    if !ok { out.failed := true; return pos, 0; }
    taken := l.taken + 1;
    SupportedEmits(ParseKind(f, pos, length), flags, l, args[l.taken..]);
    if f[pos] == 's' || f[pos] == 'c' {
      ConvertText(out, f, pos, length, flags, l, args[l.taken..]);
    } else {
      ConvertNumber(out, f, pos, length, flags, l, args[l.taken..]);
    }
    pos := pos + 1;
  }

  // ----- the formatter

  /** What is still to come after the directive at `pos` has been performed. */
  ghost function Rest(out: Output, f: seq<char>, pos: nat, args: seq<Arg>): Outcome
    requires pos <= |f| && out.scanned <= FORMAT_LIMIT && |out.text| <= INT_MAX
    reads out
  {
    Run(Parse(f, pos), args, FORMAT_LIMIT - out.scanned, INT_MAX - |out.text|).Prefixed(out.text)
  }

  /** One step of Run, seen from what was already produced. */
  lemma RunStep(d: Directive, ds: seq<Directive>, args: seq<Arg>, budget: nat, room: nat, text: seq<char>)
    requires Run([d] + ds, args, budget, room) != Undefined
    ensures match Perform(d, args)
            case Stuck => false
            case Refused => Run([d] + ds, args, budget, room) == Rejected
            case Emit(t, k, inspected, legible) =>
              && (inspected <= budget ==> legible)
              && Run([d] + ds, args, budget, room).Prefixed(text) ==
                 if inspected > budget || |t| > room then Rejected
                 else Run(ds, args[k..], budget - inspected, room - |t|).Prefixed(text + t)
  {
    hide Perform;
    assert ([d] + ds)[1..] == ds;
    match Perform(d, args)
    case Emit(t, k, inspected, _) =>
      if inspected <= budget && |t| <= room {
        var rest := Run(ds, args[k..], budget - inspected, room - |t|);
        if rest.Rendered? { assert text + (t + rest.text) == text + t + rest.text; }
      }
    case _ =>
  }

  lemma RunPlain(c: char, ds: seq<Directive>, args: seq<Arg>, budget: nat, room: nat, text: seq<char>)
    requires Run([Plain(c)] + ds, args, budget, room) != Undefined
    ensures Run([Plain(c)] + ds, args, budget, room).Prefixed(text) ==
            if room == 0 then Rejected else Run(ds, args, budget, room - 1).Prefixed(text + Fill(c, 1))
  {
    hide Run;
    assert Perform(Plain(c), args) == Emit([c], 0, 0, true);
    hide Perform;
    RunStep(Plain(c), ds, args, budget, room, text);
    assert args[0..] == args && [c] == Fill(c, 1);
  }

  lemma UnsupportedEmitsNothing(d: Directive, args: seq<Arg>)
    requires d.Field? && d.kind.Unsupported?
    ensures !Perform(d, args).Emit?
  {
  }

  lemma RunDirective(f: seq<char>, pos: nat, args: seq<Arg>, budget: nat, room: nat, text: seq<char>)
    requires pos < |f| && f[pos] == '%' && Peek(f, pos + 1) != '%'
    requires Run(Parse(f, pos), args, budget, room) != Undefined
    ensures match Perform(ParseField(f, pos + 1).0, args)
            case Stuck => false
            case Refused => Run(Parse(f, pos), args, budget, room) == Rejected
            case Emit(t, k, inspected, legible) =>
              && (inspected <= budget ==> legible)
              && Run(Parse(f, pos), args, budget, room).Prefixed(text) ==
                 if inspected > budget || |t| > room then Rejected
                 else Run(Parse(f, ParseField(f, pos + 1).1), args[k..], budget - inspected, room - |t|)
                      .Prefixed(text + t)
  {
    hide Perform, Run, ParseField;
    var (d, after) := ParseField(f, pos + 1);
    if d.kind.Unsupported? { UnsupportedEmitsNothing(d, args); }
    var rest := if d.kind.Unsupported? then [] else Parse(f, after);
    assert Parse(f, pos) == [d] + rest;
    RunStep(d, rest, args, budget, room, text);
  }

  /** One turn of the interpreter loop. */
  method RunNext(out: Output, f: seq<char>, start: nat, args: seq<Arg>) returns (pos: nat, taken: nat)
    requires out.Valid() && !out.failed && start < |f| && NUL !in f
    requires Rest(out, f, start, args) != Undefined
    modifies out`used, out`scanned, out`count, out`failed, out`text, out`steps, out.data
    ensures out.Valid() && out.Grown() && start < pos <= |f| && out.Spent(128 + pos - start)
    ensures !out.failed ==> taken <= |args|
    ensures old(Rest(out, f, start, args)) == if out.failed then Rejected else Rest(out, f, pos, args[taken..])
  {
    hide Perform, Run, ParseField, Parse;
    ghost var budget, room := FORMAT_LIMIT - out.scanned, INT_MAX - |out.text|;
    pos, taken := start, 0;
    assert args[0..] == args;
    if f[pos] != '%' {
      FormatSyntax.ParsePlain(f, pos);
      RunPlain(f[pos], Parse(f, pos + 1), args, budget, room, out.text);
      out.Repeat(f[pos], 1);
      pos := pos + 1;
    } else if Peek(f, pos + 1) == '%' {
      FormatSyntax.ParsePercent(f, pos);
      RunPlain('%', Parse(f, pos + 2), args, budget, room, out.text);
      pos := pos + 2;
      out.Repeat('%', 1);
    } else {
      RunDirective(f, pos, args, budget, room, out.text);
      pos, taken := RunField(out, f, pos + 1, args);
    }
  }

  /** The interpreter loop: one pass over the format, performing each directive as it is met. */
  method Interpret(out: Output, f: seq<char>, args: seq<Arg>)
    requires out.Valid() && !out.failed && NUL !in f
    requires Rest(out, f, 0, args) != Undefined
    modifies out`used, out`scanned, out`count, out`failed, out`text, out`steps, out.data
    ensures out.Valid() && out.Grown() && out.Spent(130 * |f|)
    ensures old(Rest(out, f, 0, args)) == if out.failed then Rejected else Rendered(out.text)
  {
    hide Perform, ParseField, Parse, Run;
    var pos: nat, next: nat := 0, 0;
    assert args[0..] == args;
    while Peek(f, pos) != NUL && !out.failed
      invariant out.Valid() && out.Grown() && pos <= |f| && next <= |args| && out.Spent(130 * pos)
      invariant old(Rest(out, f, 0, args)) == if out.failed then Rejected else Rest(out, f, pos, args[next..])
      decreases |f| - pos, !out.failed
    {
      out.steps := out.steps + 1;
      var taken;
      pos, taken := RunNext(out, f, pos, args[next..]);
      if !out.failed {
        assert args[next..][taken..] == args[next + taken..];
        next := next + taken;
      }
    }
    NothingLeft(f, args[next..], FORMAT_LIMIT - out.scanned);
  }

  lemma NothingLeft(f: seq<char>, args: seq<Arg>, budget: nat)
    ensures forall room: nat :: Run(Parse(f, |f|), args, budget, room) == Rendered([])
  {
  }

  /** The buffer holds the longest prefix of the text that fits, terminated, and nothing else changed. */
  twostate predicate Stored(data: array<char>, capacity: nat, text: seq<char>)
    reads data
  {
    var n := Min(|text|, capacity - 1);
    && 0 <= n < data.Length
    && data[..n] == text[..n]
    && data[n] == NUL
    && forall k :: n < k < data.Length ==> data[k] == old(data[k])
  }

  /** Formats into `data`.  The result and what is stored are those of the unbounded meaning
      FormatSpec.Format, cut to the capacity; every failure leaves an empty string. */
  method Vformat(data: array?<char>, capacity: nat, format: CString, args: seq<Arg>) returns (r: int, ghost steps: nat)
    requires data != null && capacity != 0 ==> (if capacity <= FORMAT_LIMIT then capacity else 1) <= data.Length
    requires (capacity == 0 || data != null) && capacity <= FORMAT_LIMIT ==> Format(format, args) != Undefined
    modifies data
    ensures data != null ==> forall k :: capacity <= k < data.Length ==> data[k] == old(data[k])
    ensures (capacity != 0 && data == null) || capacity > FORMAT_LIMIT || Format(format, args).Rejected? ==>
              r == -1 && (capacity != 0 && data != null ==> data[0] == NUL)
    ensures (capacity == 0 || data != null) && capacity <= FORMAT_LIMIT && Format(format, args).Rendered? ==>
              && r == |Format(format, args).text| <= INT_MAX
              && (capacity != 0 ==> Stored(data, capacity, Format(format, args).text))
    ensures steps <= capacity + FORMAT_LIMIT + 130 * (if format.Null? then 0 else NulIndex(format.bytes))
  {
    hide Run, Parse, NulIndex;
    if capacity != 0 && data == null { return -1, 0; }
    if capacity != 0 { data[0] := NUL; }
    if format.Null? || capacity > FORMAT_LIMIT { return -1, 0; }
    var n := 0;
    while n < FORMAT_LIMIT && format.bytes[n] != NUL
      invariant 0 <= n <= NulIndex(format.bytes) && n <= FORMAT_LIMIT
    {
      n := n + 1;
    }
    if n == FORMAT_LIMIT { return -1, n; }
    assert n == NulIndex(format.bytes) < FORMAT_LIMIT;
    var out := new Output(data, capacity, n + 1);
    assert out.text == [] && forall o: Outcome :: o.Prefixed([]) == o;
    Interpret(out, format.bytes[..n], args);
    if capacity != 0 { data[if out.failed then 0 else out.used] := NUL; }
    return if out.failed then -1 else out.count, n + out.steps;
  }
}
