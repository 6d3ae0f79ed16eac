/** The log adapters: format into a 512-byte record, mark truncation or failure, submit. */
module Log {
  import opened FormatSpec
  import opened Powers
  import Formatter
  import FormatSyntax

  const LOG_BYTES: nat := 512
  const MESSAGE: string := "NVIDIA native log: invalid or unsupported format"
  const MARKER: string := " [truncated]"

  const INFO: nat := 0
  const WARN: nat := 1
  const ERROR: nat := 2

  /** The text a record must carry for a given meaning of the formatting call. */
  function RecordText(o: Outcome): (t: seq<char>)
    ensures |t| < LOG_BYTES
  {
    match o
    case Rendered(t) => if |t| < LOG_BYTES then t else t[..LOG_BYTES - 1 - |MARKER|] + MARKER
    case _ => MESSAGE
  }

  /** The bytes hold the text and its terminator. */
  ghost predicate StoredAt(bytes: seq<char>, text: seq<char>) { text + [NUL] <= bytes }

  /** One submission to the log provider: its severity and the bytes the pointer leads to. */
  datatype Record = Record(severity: nat, buffer: seq<char>) {
    ghost predicate Carries(text: seq<char>) { |buffer| == LOG_BYTES && StoredAt(buffer, text) }
  }

  /** In numbers: up to 511 bytes are kept whole, of more the first 499 are kept and marked. */
  lemma RecordTextIs(t: seq<char>)
    ensures RecordText(Rejected) == "NVIDIA native log: invalid or unsupported format"
    ensures RecordText(Rendered(t)) == if |t| <= 511 then t else t[..499] + " [truncated]"
  {
  }

  /** Overwrites the end of a full record with the marker, or the record with the error text. */
  method LogFinish(buffer: array<char>, formatted: int)
    requires buffer.Length == LOG_BYTES
    modifies buffer
    ensures formatted < 0 ==> buffer[..] == MESSAGE + [NUL] + old(buffer[|MESSAGE| + 1..])
    ensures formatted >= LOG_BYTES ==> buffer[..] == old(buffer[..LOG_BYTES - 1 - |MARKER|]) + MARKER + [NUL]
    ensures 0 <= formatted < LOG_BYTES ==> buffer[..] == old(buffer[..])
  {
    if formatted < 0 {
      Overwrite(buffer, 0, MESSAGE + [NUL]);
    } else if formatted >= LOG_BYTES {
      Overwrite(buffer, LOG_BYTES - (|MARKER| + 1), MARKER + [NUL]);
    }
  }

  method Overwrite(buffer: array<char>, start: nat, text: seq<char>)
    requires start + |text| <= buffer.Length
    modifies buffer
    ensures buffer[..] == old(buffer[..start]) + text + old(buffer[start + |text|..])
  {
    for i := 0 to |text|
      invariant buffer[..start] == old(buffer[..start]) && buffer[start..start + i] == text[..i]
      invariant buffer[start + i..] == old(buffer[start + i..])
    {
      ghost var rest := buffer[start + i..];
      buffer[start + i] := text[i];
      assert buffer[start + i + 1..] == rest[1..] == old(buffer[start + i..])[1..];
    }
  }

  /** Formats a record and finishes it: complete, cut and marked, or the error text; always terminated. */
  method BuildRecord(format: CString, args: seq<Arg>) returns (buffer: array<char>, count: int)
    requires Format(format, args) != Undefined
    ensures fresh(buffer) && buffer.Length == LOG_BYTES
    ensures StoredAt(buffer[..], RecordText(Format(format, args)))
    ensures count == if Format(format, args).Rejected? then -1 else |Format(format, args).text|
  {
    hide Format;
    buffer := new char[LOG_BYTES];
    ghost var steps;
    count, steps := Formatter.Vformat(buffer, LOG_BYTES, format, args);
    ghost var outcome, formatted := Format(format, args), buffer[..];
    LogFinish(buffer, count);
    FinishedRecord(outcome, formatted, buffer[..], count);
  }

  ghost predicate StoredPrefix(bytes: seq<char>, text: seq<char>, n: int) {
    0 <= n < |bytes| && n <= |text| && bytes[..n] == text[..n] && bytes[n] == NUL
  }

  /** A formatted and finished buffer holds the text of its record. */
  lemma FinishedRecord(o: Outcome, formatted: seq<char>, finished: seq<char>, count: int)
    requires o != Undefined && |formatted| == |finished| == LOG_BYTES
    requires o.Rejected? ==> count == -1
    requires o.Rendered? ==> count == |o.text| && StoredPrefix(formatted, o.text, Min(|o.text|, LOG_BYTES - 1))
    requires count < 0 ==> finished == MESSAGE + [NUL] + formatted[|MESSAGE| + 1..]
    requires count >= LOG_BYTES ==> finished == formatted[..LOG_BYTES - 1 - |MARKER|] + MARKER + [NUL]
    requires 0 <= count < LOG_BYTES ==> finished == formatted
    ensures StoredAt(finished, RecordText(o))
  {
    if o.Rejected? {
      PrefixOf(MESSAGE + [NUL], formatted[|MESSAGE| + 1..]);
    } else if |o.text| >= LOG_BYTES {
      assert formatted[..LOG_BYTES - 1 - |MARKER|] == o.text[..LOG_BYTES - 1 - |MARKER|];
      PrefixOf(finished, []);
      assert finished + [] == finished;
    }
  }

  lemma PrefixOf(a: seq<char>, b: seq<char>)
    ensures a <= a + b
  {
  }

  /** The RM log interface with its adjustable threshold; `records` is what was submitted so far. */
  class OsLog {
    var debugLevel: Word32
    var records: seq<Record>

    constructor ()
      ensures debugLevel == 0xFFFF_FFFF && records == []
    {
      debugLevel, records := 0xFFFF_FFFF, [];
    }

    method DbgSetLevel(value: Word32)
      modifies this`debugLevel
      ensures debugLevel == value
    {
      debugLevel := value;
    }

    /** Bits 4 and 5 of the debug level hold the least level that is let through. */
    function Threshold(): (t: nat)
      reads this
      ensures 16 * t <= debugLevel % 64 < 16 * t + 16
    {
      debugLevel / 16 % 4
    }

    /** `answer` is what the log provider returns for the record. */
    method NvPrintf(level: Word32, format: CString, args: seq<Arg>, answer: int) returns (r: int)
      requires level >= Threshold() ==> Format(format, args) != Undefined
      modifies this`records
      ensures level < Threshold() ==> r == 0 && records == old(records)
      ensures level >= Threshold() ==>
                && |records| == |old(records)| + 1 && old(records) <= records
                && records[|old(records)|].Carries(RecordText(Format(format, args)))
                && records[|old(records)|].severity ==
                   (if Format(format, args).Rejected? || level >= 4 || level == 2 then ERROR
                    else if level == 3 then WARN else INFO)
                && r == if Format(format, args).Rejected? || answer < 0 then -1 else answer
    {
      if level < Threshold() { return 0; }
      hide Format, RecordText, StoredAt;
      var buffer, count := BuildRecord(format, args);
      records := records + [Record(if count < 0 then ERROR else Severity(level), buffer[..])];
      r := if count < 0 || answer < 0 then -1 else answer;
    }

    method LogError(format: CString, args: seq<Arg>)
      requires Format(format, args) != Undefined
      modifies this`records
      ensures |records| == |old(records)| + 1 && old(records) <= records
      ensures records[|old(records)|].severity == ERROR
      ensures records[|old(records)|].Carries(RecordText(Format(format, args)))
    {
      hide Format, RecordText, StoredAt;
      var buffer, _ := BuildRecord(format, args);
      records := records + [Record(ERROR, buffer[..])];
    }
  }

  function Severity(level: Word32): nat {
    if level >= 4 || level == 2 then ERROR else if level == 3 then WARN else INFO
  }

  // ----- the modeset log

  function Greeting(): (s: string)
    ensures |s| == 16 && '%' !in s && NUL !in s
  {
    "NVIDIA modeset: "
  }

  function ModesetFormat(): (s: string)
    ensures |s| == 20 && NUL !in s
    ensures s[0..16] == Greeting() && s[16] == s[18] == '%' && s[17] == s[19] == 's'
  {
    Greeting() + "%s%s"
  }

  function Plains(s: seq<char>): seq<Directive> { seq(|s|, i requires 0 <= i < |s| => Plain(s[i])) }

  lemma {:induction false} ParsePlains(f: seq<char>, i: nat, j: nat)
    requires i <= j <= |f| && forall k :: i <= k < j ==> f[k] != '%'
    ensures Parse(f, i) == Plains(f[i..j]) + Parse(f, j)
    decreases j - i
  {
    hide Parse;
    if i < j {
      FormatSyntax.ParsePlain(f, i);
      ParsePlains(f, i + 1, j);
      var rest := Plains(f[i + 1..j]);
      assert Plains(f[i..j]) == [Plain(f[i])] + rest;
      assert [Plain(f[i])] + (rest + Parse(f, j)) == [Plain(f[i])] + rest + Parse(f, j);
    } else {
      assert Plains(f[i..j]) == [];
    }
  }

  /** The first step of Run, for a directive whose outcome is known. */
  lemma RunHead(d: Directive, ds: seq<Directive>, args: seq<Arg>, budget: nat, room: nat, step: Step)
    requires Perform(d, args) == step && step.Emit?
    ensures Run([d] + ds, args, budget, room) ==
            if step.inspected > budget then Rejected
            else if !step.legible then Undefined
            else if |step.text| > room then Rejected
            else Run(ds, args[step.taken..], budget - step.inspected, room - |step.text|).Prefixed(step.text)
  {
    hide Perform;
    assert ([d] + ds)[1..] == ds;
  }

  lemma PrefixedTwice(o: Outcome, a: seq<char>, b: seq<char>)
    ensures o.Prefixed(b).Prefixed(a) == o.Prefixed(a + b)
  {
    if o.Rendered? { assert a + (b + o.text) == a + b + o.text; }
  }

  lemma {:induction false} RunPlains(s: seq<char>, ds: seq<Directive>, args: seq<Arg>, budget: nat, room: nat)
    requires |s| <= room
    ensures Run(Plains(s) + ds, args, budget, room) == Run(ds, args, budget, room - |s|).Prefixed(s)
  {
    hide Run;
    if s == [] {
      assert Plains(s) + ds == ds;
      assert Run(ds, args, budget, room).Prefixed([]) == Run(ds, args, budget, room);
    } else {
      var rest := Plains(s[1..]) + ds;
      assert Plains(s) + ds == [Plain(s[0])] + rest;
      assert Perform(Plain(s[0]), args) == Emit([s[0]], 0, 0, true) && args[0..] == args;
      hide Perform;
      RunHead(Plain(s[0]), rest, args, budget, room, Emit([s[0]], 0, 0, true));
      RunPlains(s[1..], ds, args, budget, room - 1);
      assert [s[0]] + s[1..] == s;
      PrefixedTwice(Run(ds, args, budget, room - |s|), [s[0]], s[1..]);
    }
  }

  lemma ParseEnd(f: seq<char>)
    ensures Parse(f, |f|) == []
  {
  }

  const PLAIN_STRING: Directive := Field(Flags(false, false, false, false, false), Literal(0), Absent, String)

  lemma ParsePlainString(f: seq<char>, i: nat)
    requires i + 2 <= |f| && f[i] == '%' && f[i + 1] == 's'
    ensures Parse(f, i) == [PLAIN_STRING] + Parse(f, i + 2)
  {
    var j := i + 1;
    assert f[j..j] == [] && f[j..][0] == 's';
    assert SpanEnd(f, j, IsFlag) == j && SpanEnd(f, j, IsDigit) == j;
    assert ParseAmount(f, j) == (Literal(0), j) && ParsePrecision(f, j) == (Absent, j);
    assert ParseLength(f, j) == (LInt, j) && ParseKind(f, j, LInt) == String;
    hide ParseAmount, ParsePrecision, ParseLength, ParseKind, SpanEnd;
    assert ParseField(f, j) == (PLAIN_STRING, i + 2);
  }

  /** What `%s` does with the bytes at a pointer. */
  function PlainString(bytes: seq<char>): Step {
    var n := NulIndex(bytes);
    Emit(bytes[..n], 1, n + 1, n < |bytes|)
  }

  lemma PerformPlainString(bytes: seq<char>, args: seq<Arg>)
    requires args != [] && args[0] == Text(At(bytes))
    ensures Perform(PLAIN_STRING, args) == PlainString(bytes)
  {
    assert args[0..] == args;
    assert Settle(PLAIN_STRING, args) == Layout(false, 0, None, 0);
    hide Settle, Convert;
    ConvertPlainString(bytes, args);
  }

  lemma ConvertPlainString(bytes: seq<char>, args: seq<Arg>)
    requires args != [] && args[0] == Text(At(bytes))
    ensures Convert(String, PLAIN_STRING.flags, Layout(false, 0, None, 0), args) == PlainString(bytes)
  {
    hide NumberOf, NulIndex;
    var s := bytes[..NulIndex(bytes)];
    assert PadText(s, 0, false) == s by { assert Fill(' ', 0 - |s|) == []; }
  }

  /** The bytes that remain for strings after the modeset format has been scanned. */
  const SCAN_LEFT: nat := FORMAT_LIMIT - 21

  /** A modeset log call means greeting, GPU prefix and message, unless they are too long to scan. */
  function ModesetOutcome(prefix: seq<char>, message: seq<char>): (o: Outcome)
    ensures o != Undefined
  {
    if |prefix| + 1 + |message| + 1 <= SCAN_LEFT then Rendered(Greeting() + (prefix + message)) else Rejected
  }

  function BeforeNul(bytes: seq<char>): seq<char> { bytes[..NulIndex(bytes)] }

  /** Each string ends, or may be read on until the scan limit refuses it. */
  predicate Legible(a: seq<char>, b: seq<char>, budget: nat) {
    var s, t := NulIndex(a), NulIndex(b);
    s + 1 > budget || (s < |a| && (s + 1 + t + 1 > budget || t < |b|))
  }

  lemma ModesetText(prefix: seq<char>, message: seq<char>)
    ensures Format(At(ModesetFormat() + [NUL]), [Text(At(prefix)), Text(At(message))]) ==
            if Legible(prefix, message, SCAN_LEFT) then ModesetOutcome(BeforeNul(prefix), BeforeNul(message))
            else Undefined
  {
    hide ModesetFormat, Greeting, Perform, Parse, Run, NulIndex;
    var args := [Text(At(prefix)), Text(At(message))];
    ModesetParse();
    assert Format(At(ModesetFormat() + [NUL]), args) ==
           Run(Plains(Greeting()) + [PLAIN_STRING, PLAIN_STRING], args, SCAN_LEFT, INT_MAX);
    hide Format, Plains;
    RunPlains(Greeting(), [PLAIN_STRING, PLAIN_STRING], args, SCAN_LEFT, INT_MAX);
    RunStrings(prefix, message, SCAN_LEFT, INT_MAX - 16);
  }

  /** Two `%s` in a row. */
  lemma RunStrings(a: seq<char>, b: seq<char>, budget: nat, room: nat)
    requires budget <= room
    ensures Run([PLAIN_STRING, PLAIN_STRING], [Text(At(a)), Text(At(b))], budget, room) ==
            if !Legible(a, b, budget) then Undefined
            else if NulIndex(a) + 1 + NulIndex(b) + 1 <= budget then Rendered(BeforeNul(a) + BeforeNul(b))
            else Rejected
  {
    var args, s := [Text(At(a)), Text(At(b))], NulIndex(a);
    PerformPlainString(a, args);
    PerformPlainString(b, args[1..]);
    hide Perform, NulIndex, Run;
    assert [PLAIN_STRING] + [PLAIN_STRING] == [PLAIN_STRING, PLAIN_STRING];
    RunHead(PLAIN_STRING, [PLAIN_STRING], args, budget, room, PlainString(a));
    if s < |a| && s + 1 <= budget {
      assert [PLAIN_STRING] + [] == [PLAIN_STRING];
      RunHead(PLAIN_STRING, [], args[1..], budget - s - 1, room - s, PlainString(b));
      RunNothing(args[1..][1..], budget - s - 1, room - s, NulIndex(b));
      assert BeforeNul(b) + [] == BeforeNul(b);
    }
  }

  lemma RunNothing(args: seq<Arg>, budget: nat, room: nat, n: nat)
    ensures n + 1 <= budget && n <= room ==> Run([], args, budget - (n + 1), room - n) == Rendered([])
  {
  }

  /** A string of the caller reads as this text, or is null and stands for the other one. */
  ghost predicate Says(s: CString, otherwise: seq<char>, text: seq<char>) {
    if s.Null? then text == otherwise else text + [NUL] <= s.bytes && NUL !in text
  }

  ghost predicate Unterminated(s: CString) { s.At? && NUL !in s.bytes }

  /** The bytes of a string before its terminator, null counting as empty. */
  function Extent(s: CString): nat { if s.Null? then 0 else NulIndex(s.bytes) }

  lemma SaysBeforeNul(s: CString, otherwise: seq<char>, text: seq<char>, bytes: seq<char>)
    requires NUL !in otherwise && bytes == if s.Null? then otherwise + [NUL] else s.bytes
    ensures Says(s, otherwise, text) ==> NulIndex(bytes) == |text| < |bytes| && BeforeNul(bytes) == text
  {
    if Says(s, otherwise, text) {
      TextBeforeNul(text, bytes);
    }
  }

  lemma TextBeforeNul(text: seq<char>, bytes: seq<char>)
    requires text + [NUL] <= bytes && NUL !in text
    ensures NulIndex(bytes) == |text| < |bytes| && BeforeNul(bytes) == text
  {
    hide NulIndex;
    var n := |text|;
    assert bytes[n] == (text + [NUL])[n] == NUL;
    assert forall k :: 0 <= k < n ==> bytes[k] == (text + [NUL])[k] == text[k] != NUL;
    assert bytes[..n] == (text + [NUL])[..n] == text;
  }

  lemma UnterminatedIndex(s: CString)
    requires s.At?
    ensures Unterminated(s) <==> NulIndex(s.bytes) == |s.bytes|
  {
    hide NulIndex;
  }

  /** A record with the error text. */
  ghost predicate IsError(record: Record) {
    record.severity == 2 && record.Carries("NVIDIA native log: invalid or unsupported format")
  }

  /** Strings that end, or that may be read until the scan limit refuses them. */
  ghost predicate Scannable(gpuPrefix: CString, message: CString) {
    && (Unterminated(gpuPrefix) ==> |gpuPrefix.bytes| + 1 > SCAN_LEFT)
    && (Unterminated(message) ==> Extent(gpuPrefix) + 1 + |message.bytes| + 1 > SCAN_LEFT)
  }

  method NvkmsLog(level: int, gpuPrefix: CString, message: CString) returns (record: Record)
    requires Scannable(gpuPrefix, message)
    ensures forall p, m :: Says(gpuPrefix, "", p) && Says(message, "(null)", m) ==>
              if |p| + |m| + 2 <= SCAN_LEFT then
                && record.Carries(RecordText(Rendered("NVIDIA modeset: " + p + m)))
                && record.severity == if level == 2 then 2 else if level == 1 then 1 else 0
              else IsError(record)
    ensures Unterminated(gpuPrefix) || Unterminated(message) ==> IsError(record)
  {
    hide ModesetFormat, Greeting, Format, RecordText, ModesetOutcome, Legible, BeforeNul, StoredAt, Scannable,
         Says, IsError;
    var prefix := if gpuPrefix.Null? then "" + [NUL] else gpuPrefix.bytes;
    var text := if message.Null? then "(null)" + [NUL] else message.bytes;
    ModesetText(prefix, text);
    ScannableLegible(gpuPrefix, message, prefix, text);
    var buffer, count := BuildRecord(At(ModesetFormat() + [NUL]), [Text(At(prefix)), Text(At(text))]);
    var severity := INFO;
    if level == 1 { severity := WARN; }
    if level == 2 || count < 0 { severity := ERROR; }
    record := Record(severity, buffer[..]);
    forall p, m | Says(gpuPrefix, "", p) && Says(message, "(null)", m)
      ensures if |p| + |m| + 2 <= SCAN_LEFT then
                && record.Carries(RecordText(Rendered("NVIDIA modeset: " + p + m)))
                && record.severity == if level == 2 then 2 else if level == 1 then 1 else 0
              else IsError(record)
    {
      SaysBeforeNul(gpuPrefix, "", p, prefix);
      SaysBeforeNul(message, "(null)", m, text);
      ModesetRecord(p, m, record);
    }
    if Unterminated(gpuPrefix) || Unterminated(message) {
      ModesetUnterminated(gpuPrefix, message, prefix, text, record);
    }
  }

  lemma ScannableLegible(gpuPrefix: CString, message: CString, prefix: seq<char>, text: seq<char>)
    requires Scannable(gpuPrefix, message)
    requires prefix == if gpuPrefix.Null? then "" + [NUL] else gpuPrefix.bytes
    requires text == if message.Null? then "(null)" + [NUL] else message.bytes
    ensures Legible(prefix, text, SCAN_LEFT)
    ensures Unterminated(gpuPrefix) || Unterminated(message) ==> NulIndex(prefix) + NulIndex(text) + 2 > SCAN_LEFT
  {
    hide NulIndex;
    if gpuPrefix.At? { UnterminatedIndex(gpuPrefix); } else { TextBeforeNul("", prefix); }
    if message.At? { UnterminatedIndex(message); } else { TextBeforeNul("(null)", text); }
  }

  lemma RejectedRecord(record: Record)
    ensures record.severity == ERROR && record.Carries(RecordText(Rejected)) ==> IsError(record)
  {
  }

  /** The record of a call whose strings read as p and m. */
  lemma ModesetRecord(p: seq<char>, m: seq<char>, record: Record)
    requires record.Carries(RecordText(ModesetOutcome(p, m)))
    requires ModesetOutcome(p, m).Rejected? ==> record.severity == ERROR
    ensures if |p| + |m| + 2 <= SCAN_LEFT then
              ModesetOutcome(p, m).Rendered? && record.Carries(RecordText(Rendered("NVIDIA modeset: " + p + m)))
            else IsError(record)
  {
    hide RecordText, IsError, StoredAt;
    RejectedRecord(record);
    assert Greeting() + (p + m) == "NVIDIA modeset: " + p + m;
  }

  lemma ModesetUnterminated(gpuPrefix: CString, message: CString, prefix: seq<char>, text: seq<char>, record: Record)
    requires NulIndex(prefix) + NulIndex(text) + 2 > SCAN_LEFT
    requires record.Carries(RecordText(ModesetOutcome(BeforeNul(prefix), BeforeNul(text))))
    requires ModesetOutcome(BeforeNul(prefix), BeforeNul(text)).Rejected? ==> record.severity == ERROR
    ensures IsError(record)
  {
    hide RecordText, NulIndex, IsError, StoredAt;
    RejectedRecord(record);
  }

  lemma ModesetParse()
    ensures NulIndex(ModesetFormat() + [NUL]) == 20 && (ModesetFormat() + [NUL])[..20] == ModesetFormat()
    ensures Parse(ModesetFormat(), 0) == Plains(Greeting()) + [PLAIN_STRING, PLAIN_STRING]
  {
    hide ModesetFormat, Greeting, Parse;
    var f := ModesetFormat();
    assert (f + [NUL])[20] == NUL && (f + [NUL])[..20] == f;
    assert forall k :: 0 <= k < 16 ==> f[k] == f[0..16][k];
    ParsePlains(f, 0, 16);
    ParsePlainString(f, 16);
    ParsePlainString(f, 18);
    ParseEnd(f);
    assert [PLAIN_STRING] + ([PLAIN_STRING] + []) == [PLAIN_STRING, PLAIN_STRING];
  }
}
