/** The RM and NVKMS semaphore adapters over a counted permit object owned by the kernel.

    The provider is known only by its contract: an accepted acquire takes one permit, an accepted
    release adds one, an accepted free ends the object, and a refusal, with any other code, changes
    nothing.  A blocking acquire without a permit is a step that is not enabled. */
module Semaphores {
  import opened Powers

  // ----- status codes and outcomes

  const OK: int := 0
  const RETRY: int := 1
  const CONTEXT: int := 2

  const FAULT_FREE: nat := 1
  const FAULT_DOWN: nat := 2
  const FAULT_UP: nat := 3

  datatype Status = NvOk | TimeoutRetry | InvalidRequest | InvalidState | InvalidArgument | NoMemory

  /** What a caller sees: a status, a plain return, or nothing ever again after a native fault. */
  datatype Outcome = Status(status: Status) | Return | Fault(operation: nat, result: int) {
    predicate Succeeded() { this == Status(NvOk) || this == Return }
  }

  function StatusOf(result: int): Status {
    if result == OK then NvOk
    else if result == RETRY then TimeoutRetry
    else if result == CONTEXT then InvalidRequest
    else InvalidState
  }

  // ----- the calls as one table

  datatype Call =
    | OsAcquireSemaphore | OsAcquireMutex | OsCondAcquireSemaphore | OsCondAcquireMutex | SemaDown
    | OsReleaseSemaphore | OsReleaseMutex | SemaUp
  {
    predicate IsRelease() { OsReleaseSemaphore? || OsReleaseMutex? || SemaUp? }

    /** Acquires of the RM interface, except the conditional semaphore one, insist on a context that
        may sleep before they reach the provider. */
    predicate NeedsSleep() { OsAcquireSemaphore? || OsAcquireMutex? || OsCondAcquireMutex? }
  }

  /** The provider is reached in this context (bit 1 of the flags: sleepable). */
  predicate Reaches(call: Call, flags: nat) { call.NeedsSleep() ==> flags / 2 % 2 == 1 }

  /** What the caller of an adapter sees when the provider answers `verdict`. */
  function Visible(call: Call, flags: nat, verdict: int): Outcome {
    if !Reaches(call, flags) then Status(InvalidRequest)
    else match call
      case SemaDown => if verdict == OK then Return else Fault(FAULT_DOWN, verdict)
      case SemaUp => if verdict == OK then Return else Fault(FAULT_UP, verdict)
      case OsReleaseMutex => if verdict == OK then Return else Fault(FAULT_UP, verdict)
      case _ => Status(StatusOf(verdict))
  }

  /** The outcome in the words of the interface: the acquires and the release with a status report the
      provider's answers 0, 1 and 2 by their own codes and every other one as a bad state, and refuse a
      context without bit 1 as a bad request, where they look at it; the other calls return or fault. */
  ghost predicate Reported(call: Call, flags: nat, verdict: int, o: Outcome) {
    var kept := flags / 2 % 2 == 0 && (call.OsAcquireSemaphore? || call.OsAcquireMutex? || call.OsCondAcquireMutex?);
    match call
    case SemaDown => o == if verdict == 0 then Return else Fault(2, verdict)
    case SemaUp => o == if verdict == 0 then Return else Fault(3, verdict)
    case OsReleaseMutex => o == if verdict == 0 then Return else Fault(3, verdict)
    case _ =>
      && o.Status?
      && (o.status == NvOk <==> !kept && verdict == 0)
      && (o.status == TimeoutRetry <==> !kept && verdict == 1)
      && (o.status == InvalidRequest <==> kept || verdict == 2)
      && (o.status == InvalidState <==> !kept && verdict != 0 && verdict != 1 && verdict != 2)
  }

  /** The permits after a call of which the caller saw this outcome. */
  function CountAfter(count: nat, call: Call, outcome: Outcome): int {
    if !outcome.Succeeded() then count else if call.IsRelease() then count + 1 else count - 1
  }

  /** The provider may answer so: it can only hand out a permit that is there. */
  predicate MayAnswer(count: nat, call: Call, flags: nat, verdict: int) {
    Reaches(call, flags) && verdict == OK ==> call.IsRelease() || count > 0
  }

  /** Destruction: what the caller sees, and when the provider may accept. */
  function FreeSeen(verdict: int): Outcome { if verdict == OK then Return else Fault(FAULT_FREE, verdict) }
  predicate MayFree(waiting: bool, verdict: int) { verdict == OK ==> !waiting }

  // ----- the adapters

  /** The kernel's object, with the provider operations; `verdict` is the provider's decision. */
  class Semaphore {
    var live: bool
    var count: nat

    constructor (initial: Word32)
      ensures live && count == initial
    {
      live, count := true, initial;
    }

    method Acquire(verdict: int) returns (result: int)
      requires live && (verdict == OK ==> count > 0)
      modifies this`count
      ensures result == verdict && count == if verdict == OK then old(count) - 1 else old(count)
    {
      if verdict == OK { count := count - 1; }
      return verdict;
    }

    method Release(verdict: int) returns (result: int)
      requires live
      modifies this`count
      ensures result == verdict && count == if verdict == OK then old(count) + 1 else old(count)
    {
      if verdict == OK { count := count + 1; }
      return verdict;
    }

    method Free(verdict: int) returns (result: int)
      requires live
      modifies this`live
      ensures result == verdict && live == (verdict != OK)
    {
      if verdict == OK { live := false; }
      return verdict;
    }
  }

  /** Creation of a mutex: one permit, unless the caller gave no place for it or memory is short. */
  method AllocMutex(out: bool, memory: bool) returns (status: Status, sema: Semaphore?)
    ensures status == if !out then InvalidArgument else if !memory then NoMemory else NvOk
    ensures sema != null <==> status == NvOk
    ensures sema != null ==> fresh(sema) && sema.live && sema.count == 1 == NEW_MUTEX.count
  {
    sema := null;
    if !out { return InvalidArgument, null; }
    if memory { sema := new Semaphore(1); }
    status := if sema != null then NvOk else NoMemory;
  }

  /** Every adapter does what the table says: outcome for the caller, and permits left behind. */
  method Adapter(call: Call, s: Semaphore, flags: nat, verdict: int) returns (o: Outcome)
    requires s.live && MayAnswer(s.count, call, flags, verdict)
    modifies s`count
    ensures o == Visible(call, flags, verdict) && Reported(call, flags, verdict, o)
    ensures s.count == CountAfter(old(s.count), call, o)
  {
    match call {
      case OsAcquireSemaphore => o := AcquireSemaphore(s, flags, verdict);
      case OsAcquireMutex => o := AcquireSemaphore(s, flags, verdict);
      case OsCondAcquireSemaphore => o := CondAcquireSemaphore(s, verdict);
      case OsCondAcquireMutex =>
        if flags / 2 % 2 != 1 { return Status(InvalidRequest); }
        o := CondAcquireSemaphore(s, verdict);
      case SemaDown =>
        var result := s.Acquire(verdict);
        if result != OK { return Fault(FAULT_DOWN, result); }
        o := Return;
      case OsReleaseSemaphore =>
        var result := s.Release(verdict);
        o := Status(StatusOf(result));
      case OsReleaseMutex => o := Up(s, verdict);
      case SemaUp => o := Up(s, verdict);
    }
  }

  method AcquireSemaphore(s: Semaphore, flags: nat, verdict: int) returns (o: Outcome)
    requires s.live && MayAnswer(s.count, OsAcquireSemaphore, flags, verdict)
    modifies s`count
    ensures o == Visible(OsAcquireSemaphore, flags, verdict) && Reported(OsAcquireSemaphore, flags, verdict, o)
    ensures s.count == CountAfter(old(s.count), OsAcquireSemaphore, o)
  {
    if flags / 2 % 2 != 1 { return Status(InvalidRequest); }
    var result := s.Acquire(verdict);
    o := Status(StatusOf(result));
  }

  method CondAcquireSemaphore(s: Semaphore, verdict: int) returns (o: Outcome)
    requires s.live && MayAnswer(s.count, OsCondAcquireSemaphore, 0, verdict)
    modifies s`count
    ensures o == Visible(OsCondAcquireSemaphore, 0, verdict) && Reported(OsCondAcquireSemaphore, 0, verdict, o)
    ensures s.count == CountAfter(old(s.count), OsCondAcquireSemaphore, o)
  {
    var result := s.Acquire(verdict);
    o := Status(StatusOf(result));
  }

  method Up(s: Semaphore, verdict: int) returns (o: Outcome)
    requires s.live
    modifies s`count
    ensures o == Visible(SemaUp, 0, verdict) && Reported(SemaUp, 0, verdict, o)
    ensures s.count == CountAfter(old(s.count), SemaUp, o)
  {
    var result := s.Release(verdict);
    if result != OK { return Fault(FAULT_UP, result); }
    o := Return;
  }

  /** Destruction: a refused free leaves the object live and its caller gone. */
  method SemaFree(s: Semaphore, verdict: int) returns (o: Outcome)
    requires s.live
    modifies s`live
    ensures o == FreeSeen(verdict) == if verdict == 0 then Return else Fault(1, verdict)
    ensures s.live <==> o.Fault?
  {
    var result := s.Free(verdict);
    if result != OK { return Fault(FAULT_FREE, result); }
    o := Return;
  }

  // ----- the self-test of the adapters

  /** A provider that grants every permit there is, and otherwise tells a trying caller to come back. */
  function Honest(count: nat, call: Call): int { if call.IsRelease() || count > 0 then OK else RETRY }

  /** One adapter call under such a provider. */
  method Ask(call: Call, s: Semaphore, flags: nat) returns (o: Outcome)
    requires s.live && flags / 2 % 2 == 1
    modifies s`count
    ensures Reported(call, flags, if call.IsRelease() || old(s.count) > 0 then 0 else 1, o)
    ensures s.count == if call.IsRelease() then old(s.count) + 1 else if old(s.count) > 0 then old(s.count) - 1 else 0
  {
    o := Adapter(call, s, flags, Honest(s.count, call));
  }

  /** Of two conditional acquires of a free mutex the first succeeds and the second is told to retry. */
  method TryTwice(mutex: Semaphore, flags: nat) returns (first: Outcome, second: Outcome)
    requires mutex.live && mutex.count == 1 && flags / 2 % 2 == 1
    modifies mutex`count
    ensures first == Status(NvOk) && second == Status(TimeoutRetry) && mutex.count == 0
  {
    first := Ask(OsCondAcquireMutex, mutex, flags);
    second := Ask(OsCondAcquireMutex, mutex, flags);
  }

  /** The self-test run by one task, with memory for its objects: it returns 0, or minus the line of the
      check that failed.  All its checks hold, provided the context may sleep and is no interrupt. */
  method ProbeHealthy(flags: nat) returns (r: int)
    ensures r == if flags / 2 % 2 == 1 && flags % 2 == 0 then 0 else -10
  {
    if !(flags / 2 % 2 == 1 && flags % 2 == 0) { return -10; }
    var status, none := AllocMutex(false, true);
    if status != InvalidArgument { return -11; }
    var mutex: Semaphore?;
    status, mutex := AllocMutex(true, true);
    if status != NvOk { return -12; }
    var o, second := TryTwice(mutex, flags);
    if o != Status(NvOk) { return -13; }
    if second != Status(TimeoutRetry) { return -14; }
    o := Ask(OsReleaseMutex, mutex, flags);
    o := Ask(OsAcquireMutex, mutex, flags);
    if o != Status(NvOk) { return -16; }
    o := Ask(OsReleaseMutex, mutex, flags);
    o := SemaFree(mutex, OK);
    r := ProbeCounted(flags);
  }

  method ProbeCounted(flags: nat) returns (r: int)
    requires flags / 2 % 2 == 1
    ensures r == 0
  {
    var two := new Semaphore(2);
    var o := Ask(OsCondAcquireSemaphore, two, flags);
    if o != Status(NvOk) { return -23; }
    o := Ask(OsAcquireSemaphore, two, flags);
    if o != Status(NvOk) { return -24; }
    o := Ask(OsCondAcquireSemaphore, two, flags);
    if o != Status(TimeoutRetry) { return -25; }
    o := Ask(OsReleaseSemaphore, two, flags);
    if o != Status(NvOk) { return -26; }
    o := Ask(OsAcquireSemaphore, two, flags);
    if o != Status(NvOk) { return -27; }
    o := SemaFree(two, OK);
    var one := new Semaphore(1);
    o := Ask(SemaDown, one, flags);
    o := Ask(SemaUp, one, flags);
    o := Ask(SemaDown, one, flags);
    o := Ask(SemaUp, one, flags);
    assert o == Return;
    o := SemaFree(one, OK);
    return 0;
  }

  // ----- every interleaving

  type Task = nat

  /** One adapter call of some task, with its context and the provider's answer. */
  datatype Event = Event(task: Task, call: Call, flags: nat, verdict: int) {
    function Seen(): Outcome { Visible(call, flags, verdict) }
  }

  /** The permits, the tasks that left through a fault, and those that hold a permit. */
  datatype World = World(count: nat, gone: set<Task>, holders: set<Task>)

  predicate Enabled(w: World, e: Event) {
    e.task !in w.gone && MayAnswer(w.count, e.call, e.flags, e.verdict)
  }

  function After(w: World, e: Event): World
    requires Enabled(w, e)
  {
    var seen := e.Seen();
    World(CountAfter(w.count, e.call, seen),
          if seen.Fault? then w.gone + {e.task} else w.gone,
          if !seen.Succeeded() then w.holders
          else if e.call.IsRelease() then w.holders - {e.task}
          else w.holders + {e.task})
  }

  /** A run: every event is enabled where it happens. */
  ghost predicate IsRun(w: World, es: seq<Event>)
    decreases es
  {
    es == [] || (Enabled(w, es[0]) && IsRun(After(w, es[0]), es[1..]))
  }

  ghost function Final(w: World, es: seq<Event>): World
    requires IsRun(w, es)
    decreases es
  {
    if es == [] then w else Final(After(w, es[0]), es[1..])
  }

  /** How many of the calls, of the kind asked for, their callers saw succeed. */
  ghost function Successes(es: seq<Event>, releases: bool): nat {
    if es == [] then 0
    else
      (if es[0].call.IsRelease() == releases && es[0].Seen().Succeeded() then 1 else 0)
      + Successes(es[1..], releases)
  }

  /** Over every interleaving the permits are the initial ones plus the releases minus the acquires
      that their callers saw succeed: no refused or faulted call grants or loses one. */
  lemma {:induction false} PermitsConserved(w: World, es: seq<Event>)
    requires IsRun(w, es)
    ensures Final(w, es).count == w.count + Successes(es, true) - Successes(es, false)
    decreases es
  {
    if es != [] { PermitsConserved(After(w, es[0]), es[1..]); }
  }

  /** The adapters themselves, called as in a run on one object, show their callers the outcomes of the
      run and leave its permits: the initial ones plus the successful releases minus the acquires. */
  method Play(s: Semaphore, w: World, es: seq<Event>) returns (seen: seq<Outcome>)
    requires s.live && s.count == w.count && IsRun(w, es)
    modifies s`count
    ensures |seen| == |es| && forall k :: 0 <= k < |es| ==> seen[k] == es[k].Seen()
    ensures forall k :: 0 <= k < |es| ==> Reported(es[k].call, es[k].flags, es[k].verdict, seen[k])
    ensures s.count == Final(w, es).count == old(s.count) + Successes(es, true) - Successes(es, false)
  {
    hide Visible, Reported, MayAnswer, Successes;
    seen := [];
    ghost var now := w;
    for i := 0 to |es|
      invariant |seen| == i && forall k :: 0 <= k < i ==> seen[k] == es[k].Seen()
      invariant forall k :: 0 <= k < i ==> Reported(es[k].call, es[k].flags, es[k].verdict, seen[k])
      invariant s.count == now.count
      invariant IsRun(now, es[i..]) && Final(now, es[i..]) == Final(w, es)
    {
      ghost var rest := es[i..];
      assert rest[0] == es[i] && rest[1..] == es[i + 1..];
      var o := Adapter(es[i].call, s, es[i].flags, es[i].verdict);
      seen := seen + [o];
      now := After(now, es[i]);
    }
    PermitsConserved(w, es);
  }

  /** A task that left through a fault takes no further step. */
  lemma {:induction false} FaultsAreFinal(w: World, es: seq<Event>, k: nat)
    requires IsRun(w, es) && k < |es|
    ensures es[k].task !in w.gone
    ensures es[k].Seen().Fault? ==> forall j :: k < j < |es| ==> es[j].task != es[k].task
    decreases es
  {
    if k > 0 {
      FaultsAreFinal(After(w, es[0]), es[1..], k - 1);
    } else if es[0].Seen().Fault? {
      var rest := es[1..];
      forall j | 0 < j < |es| ensures es[j].task != es[0].task {
        FaultsAreFinal(After(w, es[0]), rest, j - 1);
        assert es[j] == rest[j - 1];
      }
    }
  }

  /** The lock discipline: whoever releases with success is a holder. */
  ghost predicate Disciplined(w: World, es: seq<Event>)
    requires IsRun(w, es)
    decreases es
  {
    es == [] || (
      && (es[0].call.IsRelease() && es[0].Seen().Succeeded() ==> es[0].task in w.holders)
      && Disciplined(After(w, es[0]), es[1..]))
  }

  /** The one permit of a mutex is either free or with exactly one task. */
  ghost predicate OnePermit(w: World) { w.count + |w.holders| == 1 }

  ghost predicate AlwaysOnePermit(w: World, es: seq<Event>)
    requires IsRun(w, es)
    decreases es
  {
    OnePermit(w) && (es == [] || AlwaysOnePermit(After(w, es[0]), es[1..]))
  }

  const NEW_MUTEX: World := World(1, {}, {})

  lemma HoldersStep(w: World, e: Event)
    requires Enabled(w, e) && OnePermit(w)
    ensures OnePermit(After(w, e)) <==> (e.call.IsRelease() && e.Seen().Succeeded() ==> e.task in w.holders)
  {
    if e.Seen().Succeeded() {
      if e.call.IsRelease() {
        assert e.task in w.holders ==> |w.holders - {e.task}| == |w.holders| - 1;
        assert e.task !in w.holders ==> w.holders - {e.task} == w.holders;
      } else {
        assert w.count == 1 && w.holders == {};
        assert |{e.task}| == 1;
      }
    }
  }

  /** Across blocking and conditional acquires, refusals and faults, a mutex is at every moment free or
      held by exactly one task, if and only if every successful release is made by a holder. */
  lemma {:induction false} ExclusiveExactly(w: World, es: seq<Event>)
    requires IsRun(w, es) && OnePermit(w)
    ensures AlwaysOnePermit(w, es) <==> Disciplined(w, es)
    ensures AlwaysOnePermit(w, es) ==> OnePermit(Final(w, es))
    decreases es
  {
    if es != [] {
      var w' := After(w, es[0]);
      HoldersStep(w, es[0]);
      if OnePermit(w') { ExclusiveExactly(w', es[1..]); }
    }
  }

  lemma MutualExclusion(es: seq<Event>, a: Task, b: Task)
    requires IsRun(NEW_MUTEX, es) && Disciplined(NEW_MUTEX, es)
    requires a in Final(NEW_MUTEX, es).holders && b in Final(NEW_MUTEX, es).holders
    ensures a == b && Final(NEW_MUTEX, es).count == 0
  {
    ExclusiveExactly(NEW_MUTEX, es);
    var h := Final(NEW_MUTEX, es).holders;
    if a != b {
      assert {a, b} <= h;
      CardinalityGrows({a, b}, h);
    }
    CardinalityGrows({a}, h);
  }

  lemma CardinalityGrows(a: set<Task>, b: set<Task>)
    requires a <= b
    ensures |a| <= |b|
  {
    assert b == a + (b - a);
  }

  /** Without the discipline exclusion fails: a release by a task that holds nothing lets two in. */
  lemma UndisciplinedFails()
    ensures exists es: seq<Event> :: IsRun(NEW_MUTEX, es) && |Final(NEW_MUTEX, es).holders| == 2
  {
    var e1 := Event(1, OsAcquireMutex, 2, OK);
    var e2 := Event(2, OsReleaseMutex, 2, OK);
    var e3 := Event(3, OsAcquireMutex, 2, OK);
    var es := [e1, e2, e3];
    var w1 := After(NEW_MUTEX, e1);
    assert w1 == World(0, {}, {1});
    var w2 := After(w1, e2);
    assert w2 == World(1, {}, {1} - {2}) && {1} - {2} == {1};
    var w3 := After(w2, e3);
    assert w3.holders == {1} + {3} == {1, 3};
    assert es[1..] == [e2, e3] && [e2, e3][1..] == [e3] && [e3][1..] == [];
    assert IsRun(w3, []) && Final(w3, []) == w3;
    assert IsRun(w2, [e3]) && Final(w2, [e3]) == w3;
    assert IsRun(w1, [e2, e3]) && Final(w1, [e2, e3]) == w3;
    assert IsRun(NEW_MUTEX, es) && Final(NEW_MUTEX, es) == w3;
    assert |{1, 3}| == 2;
  }
}
