/** What the meaning of formats promises: exactly when a call fails, and that measuring first makes
    formatting complete. */
module FormatTheory {
  import opened FormatSpec
  import Formatter

  // ----- exactly when a call fails

  /** A directive that can be carried out: supported, with no written amount above INT_MAX and no
      `*` width of INT_MIN. */
  ghost predicate Acceptable(d: Directive, args: seq<Arg>) {
    d.Field? ==>
      && !d.width.Oversize? && !d.precision.Oversize? && !d.kind.Unsupported?
      && !(d.width.Star? && args != [] && args[0].Int? && StarValue(args) == INT_MIN)
  }

  /** The arguments a directive uses: one for each `*` and one to convert. */
  function Arity(d: Directive): nat {
    if d.Plain? then 0 else (if d.width.Star? then 1 else 0) + (if d.precision.Star? then 1 else 0) + 1
  }

  function Drop(args: seq<Arg>, n: nat): seq<Arg> { if n <= |args| then args[n..] else [] }

  /** The arguments in front of the k-th directive. */
  function ArgsAt(ds: seq<Directive>, args: seq<Arg>, k: nat): seq<Arg>
    requires k <= |ds|
  {
    if k == 0 then args else ArgsAt(ds[1..], Drop(args, Arity(ds[0])), k - 1)
  }

  /** The rendering of one directive, and the string bytes it inspects. */
  function Piece(d: Directive, args: seq<Arg>): seq<char> {
    var s := Perform(d, args);
    if s.Emit? then s.text else []
  }

  function Cost(d: Directive, args: seq<Arg>): nat {
    var s := Perform(d, args);
    if s.Emit? then s.inspected else 0
  }

  /** The unbounded rendering: every directive's text over its own arguments, in order. */
  function FullText(ds: seq<Directive>, args: seq<Arg>): seq<char> {
    if ds == [] then [] else Piece(ds[0], args) + FullText(ds[1..], Drop(args, Arity(ds[0])))
  }

  function ScanCost(ds: seq<Directive>, args: seq<Arg>): nat {
    if ds == [] then 0 else Cost(ds[0], args) + ScanCost(ds[1..], Drop(args, Arity(ds[0])))
  }

  lemma RefusedExactly(d: Directive, args: seq<Arg>)
    requires Perform(d, args) != Stuck
    ensures Perform(d, args).Refused? <==> !Acceptable(d, args)
    ensures Perform(d, args).Emit? ==> Perform(d, args).taken == Arity(d)
  {
    hide PadText, PadNumber, Placed, Contents, Inspected, NumberOf, Signed;
  }

  ghost predicate AllAcceptable(ds: seq<Directive>, args: seq<Arg>) {
    forall k :: 0 <= k < |ds| ==> Acceptable(ds[k], ArgsAt(ds, args, k))
  }

  lemma AllAcceptableStep(ds: seq<Directive>, args: seq<Arg>)
    requires ds != []
    ensures AllAcceptable(ds, args) <==>
            Acceptable(ds[0], args) && AllAcceptable(ds[1..], Drop(args, Arity(ds[0])))
  {
    hide Acceptable, Arity, Drop;
    var rest := Drop(args, Arity(ds[0]));
    assert forall k :: 0 <= k < |ds[1..]| ==> ArgsAt(ds, args, k + 1) == ArgsAt(ds[1..], rest, k);
    if AllAcceptable(ds, args) {
      assert Acceptable(ds[0], ArgsAt(ds, args, 0));
      forall k | 0 <= k < |ds[1..]| ensures Acceptable(ds[1..][k], ArgsAt(ds[1..], rest, k)) {
        assert Acceptable(ds[k + 1], ArgsAt(ds, args, k + 1));
      }
    }
    if Acceptable(ds[0], args) && AllAcceptable(ds[1..], rest) {
      forall k | 0 <= k < |ds| ensures Acceptable(ds[k], ArgsAt(ds, args, k)) {
        if k > 0 { assert Acceptable(ds[1..][k - 1], ArgsAt(ds[1..], rest, k - 1)); }
      }
    }
  }

  /** Stepwise performance with a scan budget and an output limit succeeds exactly when every
      directive is acceptable and the totals fit, and then yields the unbounded rendering. */
  lemma {:induction false} RunExact(ds: seq<Directive>, args: seq<Arg>, budget: nat, room: nat)
    requires Run(ds, args, budget, room) != Undefined
    ensures Run(ds, args, budget, room) ==
            if AllAcceptable(ds, args) && ScanCost(ds, args) <= budget && |FullText(ds, args)| <= room
            then Rendered(FullText(ds, args)) else Rejected
  {
    hide Perform, Acceptable, Arity;
    if ds == [] {
      assert AllAcceptable(ds, args);
    } else {
      var step := Perform(ds[0], args);
      RefusedExactly(ds[0], args);
      AllAcceptableStep(ds, args);
      hide AllAcceptable;
      if step.Emit? && step.inspected <= budget && |step.text| <= room {
        var rest := args[step.taken..];
        assert Drop(args, Arity(ds[0])) == rest;
        RunExact(ds[1..], rest, budget - step.inspected, room - |step.text|);
      }
    }
  }

  /** A call that honours the argument contract fails exactly when the format is missing or too
      long, a directive is not acceptable, the scan limit is passed, or the text is too long. */
  lemma FailsExactly(format: CString, args: seq<Arg>)
    requires Format(format, args) != Undefined
    ensures Format(format, args).Rejected? <==>
            || format.Null?
            || NulIndex(format.bytes) >= 65536
            || var n := NulIndex(format.bytes);
               var ds := Parse(format.bytes[..n], 0);
               || (exists k :: 0 <= k < |ds| && !Acceptable(ds[k], ArgsAt(ds, args, k)))
               || n + 1 + ScanCost(ds, args) > 65536
               || |FullText(ds, args)| > 0x7FFF_FFFF
    ensures Format(format, args).Rendered? ==>
            Format(format, args).text == FullText(Parse(format.bytes[..NulIndex(format.bytes)], 0), args)
  {
    hide Parse, Run, Acceptable;
    if !format.Null? && NulIndex(format.bytes) < FORMAT_LIMIT {
      var n := NulIndex(format.bytes);
      RunExact(Parse(format.bytes[..n], 0), args, FORMAT_LIMIT - (n + 1), INT_MAX);
    }
  }

  // ----- measuring first

  /** Measuring with no buffer and formatting again with one more byte yields the whole text. */
  method MeasureThenFormat(format: CString, args: seq<Arg>) returns (data: array<char>, r: int)
    requires Format(format, args).Rendered? && |Format(format, args).text| < FORMAT_LIMIT
    ensures fresh(data) && r == |Format(format, args).text| == data.Length - 1
    ensures data[..] == Format(format, args).text + [NUL]
  {
    hide Format;
    ghost var steps;
    r, steps := Formatter.Vformat(null, 0, format, args);
    data := new char[r + 1];
    ghost var text := Format(format, args).text;
    r, steps := Formatter.Vformat(data, r + 1, format, args);
    assert text[..|text|] == text;
  }
}
