/** The semaphore probe: four callbacks of a driver run as interleaved tasks after setup, and the owner
    that frees their memory at the end.  Each provider call and each atomic store is one step; provider
    calls go through the NVKMS adapters of module Semaphores. */
module Probe {
  import opened Semaphores

  // ----- state

  datatype Waiter = WIdle | WEnrolled | WGranted | WRetired | WGone
  datatype Faulter = FIdle | FFreed | FRetired | FGone
  datatype Permitter = PIdle | PRaised | PRetired | PGone
  datatype Cleaner = CIdle | CChecked | CFreed | CRetired | CFailed | CGone

  /** The kernel's semaphore, the probe record and its memory block, and how far each callback has come.
      `ups` counts the releases the provider accepted. */
  datatype State = State(
    live: bool, count: nat, ups: nat,
    memory: bool, field: bool, afterFault: bool, afterWait: bool, permitSent: bool,
    waiter: Waiter, faulter: Faulter, permitter: Permitter, cleaner: Cleaner)

  /** What setup leaves: memory and a semaphore without permits. */
  const START: State :=
    State(true, 0, 0, true, true, false, false, false, WIdle, FIdle, PIdle, CIdle)

  // ----- steps

  /** `verdict` is the provider's answer, `intact` the result of comparing the memory, and `freed` that
      of the owner's free, which may be tried again. */
  datatype Action =
    | Enroll | Down(verdict: int) | StoreAfterWait
    | FaultFree(verdict: int) | StoreAfterFault
    | Raise(verdict: int) | StorePermitSent
    | CheckMemory(intact: bool) | CleanFree(verdict: int) | ClearField
    | FreeMemory(freed: bool)

  /** Steps that hand the semaphore to the provider, and steps that need the memory. */
  predicate UsesSemaphore(a: Action) { a.Enroll? || a.Down? || a.FaultFree? || a.Raise? || a.CleanFree? }
  predicate UsesMemory(a: Action) { a.CheckMemory? || a.FreeMemory? }

  /** A callback can take this step, and the provider may answer so: a permit is granted only if there
      is one, and an object with an enrolled waiter is not destroyed. */
  predicate Can(s: State, a: Action) {
    match a
    case Enroll => s.waiter == WIdle
    case Down(verdict) => s.waiter == WEnrolled && MayAnswer(s.count, SemaDown, 0, verdict)
    case StoreAfterWait => s.waiter == WGranted
    case FaultFree(verdict) => s.faulter == FIdle && MayFree(s.waiter == WEnrolled, verdict)
    case StoreAfterFault => s.faulter == FFreed
    case Raise(verdict) => s.permitter == PIdle && MayAnswer(s.count, SemaUp, 0, verdict)
    case StorePermitSent => s.permitter == PRaised
    case CheckMemory(_) => s.cleaner == CIdle
    case CleanFree(verdict) => s.cleaner == CChecked && MayFree(s.waiter == WEnrolled, verdict)
    case ClearField => s.cleaner == CFreed
    case FreeMemory(_) => true
  }

  /** A fault ends the callback in place of its next store. */
  function Do(s: State, a: Action): State
    requires Can(s, a)
  {
    match a
    case Enroll => s.(waiter := WEnrolled)
    case Down(verdict) =>
      var seen := Visible(SemaDown, 0, verdict);
      s.(waiter := if seen.Fault? then WGone else WGranted, count := CountAfter(s.count, SemaDown, seen))
    case StoreAfterWait => s.(waiter := WRetired, afterWait := true)
    case FaultFree(verdict) =>
      if FreeSeen(verdict).Fault? then s.(faulter := FGone) else s.(faulter := FFreed, live := false)
    case StoreAfterFault => s.(faulter := FRetired, afterFault := true)
    case Raise(verdict) =>
      var seen := Visible(SemaUp, 0, verdict);
      s.(permitter := if seen.Fault? then PGone else PRaised, count := CountAfter(s.count, SemaUp, seen),
         ups := CountAfter(s.ups, SemaUp, seen))
    case StorePermitSent => s.(permitter := PRetired, permitSent := true)
    case CheckMemory(intact) => s.(cleaner := if intact then CChecked else CFailed)
    case CleanFree(verdict) =>
      if FreeSeen(verdict).Fault? then s.(cleaner := CGone) else s.(cleaner := CFreed, live := false)
    case ClearField => s.(cleaner := CRetired, field := false)
    case FreeMemory(freed) => s.(memory := s.memory && !freed)
  }

  predicate WaiterEnded(s: State) { s.waiter == WRetired || s.waiter == WGone }

  /** The owner's schedule: the fault callback calls the provider only while the waiter is enrolled,
      cleanup only once the waiter has ended and no release is still to come, and the owner frees the
      memory once, after cleanup has retired. */
  predicate Scheduled(s: State, a: Action) {
    match a
    case FaultFree(_) => s.waiter == WEnrolled
    case CheckMemory(_) => WaiterEnded(s) && s.permitter != PIdle
    case FreeMemory(_) => s.cleaner == CRetired && s.memory
    case _ => true
  }

  ghost predicate IsRun(s: State, actions: seq<Action>, scheduled: bool)
    decreases actions
  {
    actions == [] || (
      && Can(s, actions[0]) && (scheduled ==> Scheduled(s, actions[0]))
      && IsRun(Do(s, actions[0]), actions[1..], scheduled))
  }

  ghost function Final(s: State, actions: seq<Action>, scheduled: bool): State
    requires IsRun(s, actions, scheduled)
    decreases actions
  {
    if actions == [] then s else Final(Do(s, actions[0]), actions[1..], scheduled)
  }

  /** What every step keeps, every run keeps. */
  ghost predicate Kept(p: State -> bool, scheduled: bool) {
    forall s, a :: Can(s, a) && (scheduled ==> Scheduled(s, a)) && p(s) ==> p(Do(s, a))
  }

  lemma {:induction false} RunKeeps(p: State -> bool, s: State, actions: seq<Action>, scheduled: bool)
    requires IsRun(s, actions, scheduled) && Kept(p, scheduled) && p(s)
    ensures p(Final(s, actions, scheduled))
    decreases actions
  {
    hide Can, Do, Scheduled;
    if actions != [] { RunKeeps(p, Do(s, actions[0]), actions[1..], scheduled); }
  }

  // ----- what every scheduled run keeps

  predicate Inv(s: State) {
    && !s.afterFault && (s.faulter == FIdle || s.faulter == FGone)
    && (!s.memory ==> s.cleaner == CRetired)
    && (s.live <==> s.cleaner != CFreed && s.cleaner != CRetired)
    && (s.field <==> s.cleaner != CRetired)
    && (s.cleaner != CIdle ==> WaiterEnded(s) && s.permitter != PIdle)
    && s.count + (if s.waiter == WGranted || s.waiter == WRetired then 1 else 0) == s.ups
    && s.ups == (if s.permitter == PRaised || s.permitter == PRetired then 1 else 0)
    && (s.afterWait <==> s.waiter == WRetired)
    && (s.permitSent <==> s.permitter == PRetired)
  }

  lemma InvStep(s: State, a: Action)
    requires Inv(s) && Can(s, a) && Scheduled(s, a)
    ensures Inv(Do(s, a))
  {
  }

  lemma InvKept()
    ensures Kept(Inv, true)
  {
    hide Inv, Can, Do, Scheduled;
    forall s, a | Can(s, a) && Scheduled(s, a) && Inv(s) ensures Inv(Do(s, a)) { InvStep(s, a); }
  }

  lemma InvRun(s: State, actions: seq<Action>)
    requires Inv(s) && IsRun(s, actions, true)
    ensures Inv(Final(s, actions, true))
  {
    hide *;
    InvKept();
    RunKeeps(Inv, s, actions, true);
  }

  /** In every scheduled interleaving: the store after the refused free is never reached; the semaphore
      stays until cleanup's free is accepted, and the memory even until cleanup has retired and no
      semaphore is left; the waiter passes only with a permit really released. */
  lemma ProbeSafe(actions: seq<Action>)
    requires IsRun(START, actions, true)
    ensures var s := Final(START, actions, true);
            && !s.afterFault
            && (s.live <==> s.cleaner != CFreed && s.cleaner != CRetired)
            && (!s.memory ==> s.cleaner == CRetired && !s.live && !s.field && WaiterEnded(s))
            && (s.afterWait ==> s.ups == 1)
            && (s.field <==> s.cleaner != CRetired)
  {
    InvRun(START, actions);
  }

  /** No step of a scheduled interleaving uses a semaphore or a memory block that is gone. */
  lemma {:induction false} NoUseAfterFree(s: State, actions: seq<Action>, a: Action)
    requires Inv(s) && IsRun(s, actions, true)
    requires var t := Final(s, actions, true); Can(t, a) && Scheduled(t, a)
    ensures UsesSemaphore(a) ==> Final(s, actions, true).live
    ensures UsesMemory(a) ==> Final(s, actions, true).memory
  {
    InvRun(s, actions);
  }

  // ----- the memory decides

  lemma CleanerStep(s: State, a: Action)
    requires Can(s, a)
    ensures s.cleaner == CFailed ==> !a.CleanFree? && Do(s, a).cleaner == CFailed
    ensures s.cleaner == CIdle ==>
              && !a.CleanFree?
              && Do(s, a).cleaner == (match a
                                      case CheckMemory(intact) => if intact then CChecked else CFailed
                                      case _ => CIdle)
  {
  }

  lemma {:induction false} FailedNeverFrees(s: State, actions: seq<Action>, scheduled: bool, k: nat)
    requires IsRun(s, actions, scheduled) && s.cleaner == CFailed && k < |actions|
    ensures !actions[k].CleanFree?
    decreases actions
  {
    CleanerStep(s, actions[0]);
    hide Can, Do, Scheduled;
    if k > 0 { FailedNeverFrees(Do(s, actions[0]), actions[1..], scheduled, k - 1); }
  }

  /** Cleanup hands the semaphore to the provider only after it has found the memory intact. */
  lemma {:induction false} FreesOnlyIntact(s: State, actions: seq<Action>, scheduled: bool, k: nat)
    requires IsRun(s, actions, scheduled) && s.cleaner == CIdle && k < |actions| && actions[k].CleanFree?
    ensures exists j :: 0 <= j < k && actions[j] == CheckMemory(true)
    decreases actions
  {
    CleanerStep(s, actions[0]);
    hide Can, Do, Scheduled;
    var t, rest := Do(s, actions[0]), actions[1..];
    if t.cleaner == CFailed {
      FailedNeverFrees(t, rest, scheduled, k - 1);
    } else if t.cleaner == CIdle {
      FreesOnlyIntact(t, rest, scheduled, k - 1);
      var j :| 0 <= j < k - 1 && rest[j] == CheckMemory(true);
      assert actions[j + 1] == CheckMemory(true);
    } else {
      assert actions[0] == CheckMemory(true);
    }
  }

  // ----- building runs

  ghost predicate Leads(s: State, t: State, scheduled: bool) {
    exists actions :: IsRun(s, actions, scheduled) && Final(s, actions, scheduled) == t
  }

  lemma LeadsNowhere(s: State, scheduled: bool)
    ensures Leads(s, s, scheduled)
  {
    assert IsRun(s, [], scheduled) && Final(s, [], scheduled) == s;
  }

  lemma LeadsOn(s: State, a: Action, t: State, scheduled: bool)
    requires Can(s, a) && (scheduled ==> Scheduled(s, a)) && Leads(Do(s, a), t, scheduled)
    ensures Leads(s, t, scheduled)
  {
    hide Can, Do, Scheduled;
    var rest :| IsRun(Do(s, a), rest, scheduled) && Final(Do(s, a), rest, scheduled) == t;
    RunCons(s, a, rest, scheduled);
  }

  lemma RunCons(s: State, a: Action, rest: seq<Action>, scheduled: bool)
    requires Can(s, a) && (scheduled ==> Scheduled(s, a)) && IsRun(Do(s, a), rest, scheduled)
    ensures IsRun(s, [a] + rest, scheduled) && Final(s, [a] + rest, scheduled) == Final(Do(s, a), rest, scheduled)
  {
    hide Can, Do, Scheduled;
    assert ([a] + rest)[1..] == rest;
  }

  // ----- the limits of the claims

  /** The waiter may pass before the sender has stored that it sent the permit. */
  lemma WaitMayOvertake()
    ensures exists t :: Leads(START, t, true) && t.afterWait && !t.permitSent
  {
    hide Leads;
    var s1 := Do(START, Enroll);
    var s2 := Do(s1, FaultFree(RETRY));
    var s3 := Do(s2, Raise(OK));
    var s4 := Do(s3, Down(OK));
    var t := Do(s4, StoreAfterWait);
    assert t.afterWait && !t.permitSent;
    LeadsNowhere(t, true);
    LeadsOn(s4, StoreAfterWait, t, true);
    LeadsOn(s3, Down(OK), t, true);
    LeadsOn(s2, Raise(OK), t, true);
    LeadsOn(s1, FaultFree(RETRY), t, true);
    LeadsOn(START, Enroll, t, true);
  }

  /** The fault callback has left through its fault; its store, if made, was its last step. */
  predicate FaultGone(s: State) { s.faulter == FGone && !s.afterFault }
  predicate StoreIsLast(s: State) { s.afterFault ==> s.faulter == FRetired }

  lemma FaulterStep(s: State, a: Action)
    requires Can(s, a)
    ensures (FaultGone(s) ==> FaultGone(Do(s, a))) && (StoreIsLast(s) ==> StoreIsLast(Do(s, a)))
  {
  }

  lemma FaulterKept()
    ensures Kept(FaultGone, false) && Kept(StoreIsLast, false)
  {
    hide Can, Do, FaultGone, StoreIsLast;
    forall s, a | Can(s, a) ensures FaultGone(s) ==> FaultGone(Do(s, a)) { FaulterStep(s, a); }
    forall s, a | Can(s, a) ensures StoreIsLast(s) ==> StoreIsLast(Do(s, a)) { FaulterStep(s, a); }
  }

  /** No continuation, scheduled or not, reaches the store after the fault callback's free. */
  ghost predicate NeverStores(s: State) {
    forall t :: Leads(s, t, false) ==> !t.afterFault
  }

  lemma GoneForGood(s: State)
    requires FaultGone(s)
    ensures NeverStores(s)
  {
    FaulterKept();
    hide Kept, IsRun, Final;
    forall t | Leads(s, t, false) ensures !t.afterFault {
      var actions :| IsRun(s, actions, false) && Final(s, actions, false) == t;
      RunKeeps(FaultGone, s, actions, false);
    }
  }

  lemma FreedMayStore(s: State)
    requires s.faulter == FFreed
    ensures !NeverStores(s)
  {
    var t := Do(s, StoreAfterFault);
    assert t.afterFault;
    hide Leads;
    LeadsNowhere(t, false);
    LeadsOn(s, StoreAfterFault, t, false);
  }

  /** The fault callback about to call the provider: its store stays out of reach for every answer and
      in every continuation if and only if the waiter is enrolled at that moment. */
  lemma FaultGuardExactly(s: State)
    requires s.faulter == FIdle && !s.afterFault
    ensures s.waiter == WEnrolled <==>
            forall verdict :: Can(s, FaultFree(verdict)) ==> NeverStores(Do(s, FaultFree(verdict)))
  {
    hide NeverStores;
    if s.waiter == WEnrolled {
      forall verdict | Can(s, FaultFree(verdict)) ensures NeverStores(Do(s, FaultFree(verdict))) {
        GoneForGood(Do(s, FaultFree(verdict)));
      }
    } else {
      assert Can(s, FaultFree(OK));
      FreedMayStore(Do(s, FaultFree(OK)));
    }
  }

  /** So it is wherever an interleaving of the probe, scheduled or not, has led to that moment. */
  lemma FaultGuardReached(actions: seq<Action>)
    requires IsRun(START, actions, false) && Final(START, actions, false).faulter == FIdle
    ensures var s := Final(START, actions, false);
            s.waiter == WEnrolled <==>
            forall verdict :: Can(s, FaultFree(verdict)) ==> NeverStores(Do(s, FaultFree(verdict)))
  {
    FaulterKept();
    hide IsRun, Final, Can, Do, NeverStores, Kept;
    RunKeeps(StoreIsLast, START, actions, false);
    FaultGuardExactly(Final(START, actions, false));
  }

  /** Without the owner's schedule the free can succeed under a waiter that comes later, which then
      waits on a semaphore that is gone. */
  lemma UnscheduledFails()
    ensures exists t :: Leads(START, t, false) && t.afterFault && !t.live && Can(t, Enroll)
  {
    hide Leads;
    var s1 := Do(START, FaultFree(OK));
    var t := Do(s1, StoreAfterFault);
    assert t.afterFault && !t.live && Can(t, Enroll);
    LeadsNowhere(t, false);
    LeadsOn(s1, StoreAfterFault, t, false);
    LeadsOn(START, FaultFree(OK), t, false);
  }

  // ----- quiescence

  /** Every callback but cleanup is through with the semaphore. */
  predicate Quiesced(s: State) {
    s.waiter != WIdle && s.waiter != WEnrolled && s.faulter != FIdle && s.permitter != PIdle
  }

  predicate Quiet(s: State) { Quiesced(s) && s.cleaner != CIdle && s.cleaner != CChecked }

  lemma QuietStep(s: State, a: Action)
    requires Can(s, a) && Quiet(s)
    ensures Quiet(Do(s, a))
  {
  }

  lemma QuietKept()
    ensures Kept(Quiet, false)
  {
    hide Can, Do, Quiet;
    forall s, a | Can(s, a) && Quiet(s) ensures Quiet(Do(s, a)) { QuietStep(s, a); }
  }

  /** No continuation, scheduled or not, hands the semaphore to the provider again. */
  ghost predicate NeverUsed(s: State) {
    forall t, a :: Leads(s, t, false) && Can(t, a) ==> !UsesSemaphore(a)
  }

  lemma QuietNeverUses(s: State)
    requires Quiet(s)
    ensures NeverUsed(s)
  {
    QuietKept();
    hide Kept, IsRun, Final;
    forall t, a | Leads(s, t, false) && Can(t, a) ensures !UsesSemaphore(a) {
      var actions :| IsRun(s, actions, false) && Final(s, actions, false) == t;
      RunKeeps(Quiet, s, actions, false);
    }
  }

  /** Cleanup's accepted free leaves no use of a dead semaphore, in whatever order the callbacks go on,
      if and only if all of them have made their calls: the caller has to quiesce all users first. */
  lemma QuiesceExactly(s: State)
    requires Can(s, CleanFree(OK))
    ensures Quiesced(s) <==> NeverUsed(Do(s, CleanFree(OK)))
  {
    var t := Do(s, CleanFree(OK));
    if Quiesced(s) {
      QuietNeverUses(t);
    } else {
      LeadsNowhere(t, false);
      hide Leads;
      var a := if t.waiter == WIdle then Enroll else if t.faulter == FIdle then FaultFree(RETRY) else Raise(RETRY);
      assert Can(t, a) && UsesSemaphore(a);
    }
  }
}
