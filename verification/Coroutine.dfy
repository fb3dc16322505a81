/** The suspend/done handshake of leaf coroutine promises, as a state machine over the atomic steps
    of the threads that take part. */
module Coroutine {
  import opened Options

  /** The two events of a promise: its awaiter suspends, and its operation is done. */
  datatype Event = Suspend | Done

  /** How far the thread of an event has come: before the event, about to exchange the flag, and then
      either finished (it exchanged first) or on its way to resume the caller and delete the promise. */
  datatype Phase = Idle | Ready | First | Second | Resuming | Returned | Finished
  {
    predicate Exchanged()
    {
      !Idle? && !Ready?
    }

    /** It exchanged second. */
    predicate Last()
    {
      Exchanged() && !First?
    }

    predicate HasResumed()
    {
      Resuming? || HasReturned()
    }

    predicate HasReturned()
    {
      Returned? || Finished?
    }
  }

  /** `caller` is the coroutine that awaits; `joined` says that the awaiter is a joining thread; `read` is
      what the awaiter has got. */
  datatype Promise = Promise(flag: bool, caller: Option<nat>, value: Option<int>, suspend: Phase, done: Phase,
                             resumed: nat, deleted: nat, joined: bool, read: Option<int>)
  {
    function At(e: Event): Phase
    {
      if e.Suspend? then suspend else done
    }

    function Move(e: Event, to: Phase): Promise
    {
      if e.Suspend? then this.(suspend := to) else this.(done := to)
    }
  }

  const FRESH := Promise(false, None, None, Idle, Idle, 0, 0, false, None)

  /** `waiting` maps each suspended coroutine to the promise it waits for; `bad` records a use of a
      deleted promise, a second deletion, a read of an unset value, or the resumption of a coroutine
      that does not wait for the promise. */
  datatype System = System(promises: map<nat, Promise>, waiting: map<nat, nat>, bad: bool)

  datatype Step =
    | Create(p: nat)
    | Await(p: nat, c: nat)
    | Join(p: nat)
    | Complete(p: nat, v: int)
    | Exchange(p: nat, e: Event)
    | Resume(p: nat, e: Event)
    | ReadValue(p: nat, e: Event)
    | Delete(p: nat, e: Event)

  /** The order of steps within each thread; nothing here looks at the safety of a step. A joining thread
      reads the value and then suspends; it has waited for the callback that sets the value. */
  predicate CanMove(pr: Promise, step: Step)
  {
    match step
    case Create(_) => false
    case Await(_, _) => pr.suspend.Idle?
    case Join(_) => pr.suspend.Idle? && pr.value.Some?
    case Complete(_, _) => pr.done.Idle?
    case Exchange(_, e) => pr.At(e).Ready?
    case Resume(_, e) => pr.At(e).Second?
    case ReadValue(_, e) => pr.At(e).Resuming?
    case Delete(_, e) => pr.At(e).Returned?
  }

  predicate Enabled(s: System, step: Step)
  {
    if step.Create? then step.p !in s.promises
    else
      && step.p in s.promises && CanMove(s.promises[step.p], step)
      && (step.Await? ==> step.c !in s.waiting)
  }

  /** What a step does to its promise. */
  function Moved(pr: Promise, step: Step): Promise
  {
    match step
    case Create(_) => FRESH
    case Await(_, c) => pr.(caller := Some(c), suspend := Ready)
    case Join(_) => pr.(suspend := Ready, joined := true, read := pr.value)
    case Complete(_, v) => pr.(value := Some(v), done := Ready)
    case Exchange(_, e) => pr.Move(e, if pr.flag then Second else First).(flag := true)
    case Resume(_, e) =>
      if pr.caller.None? then pr.Move(e, Returned) else pr.Move(e, Resuming).(resumed := pr.resumed + 1)
    case ReadValue(_, e) => pr.Move(e, Returned).(read := pr.value)
    case Delete(_, e) => pr.Move(e, Finished).(deleted := pr.deleted + 1)
  }

  function WaitingAfter(waiting: map<nat, nat>, pr: Promise, step: Step): map<nat, nat>
  {
    if step.Await? then waiting[step.c := step.p]
    else if step.Resume? && pr.caller.Some? then waiting - {pr.caller.value}
    else waiting
  }

  predicate SafeStep(waiting: map<nat, nat>, pr: Promise, step: Step)
  {
    && pr.deleted == 0
    && (step.Join? || step.ReadValue? ==> pr.value.Some?)
    && (step.Resume? && pr.caller.Some? ==> pr.caller.value in waiting && waiting[pr.caller.value] == step.p)
  }

  function Next(s: System, step: Step): System
    requires Enabled(s, step)
  {
    if step.Create? then s.(promises := s.promises[step.p := FRESH])
    else
      var pr := s.promises[step.p];
      System(s.promises[step.p := Moved(pr, step)], WaitingAfter(s.waiting, pr, step),
             s.bad || !SafeStep(s.waiting, pr, step))
  }

  predicate Init(s: System)
  {
    s == System(map[], map[], false)
  }

  predicate IsRun(s: System, steps: seq<Step>)
    decreases |steps|
  {
    steps != [] ==> Enabled(s, steps[0]) && IsRun(Next(s, steps[0]), steps[1..])
  }

  function After(s: System, steps: seq<Step>): System
    requires IsRun(s, steps)
    decreases |steps|
  {
    if steps == [] then s else After(Next(s, steps[0]), steps[1..])
  }

  /* ---------------------------------------------------------------- the invariant */

  /** Exactly one of two threads that have both exchanged is the last one. */
  predicate OneLast(pr: Promise)
  {
    && pr.flag == (pr.suspend.Exchanged() || pr.done.Exchanged())
    && (pr.suspend.Last() ==> pr.done.First?)
    && (pr.done.Last() ==> pr.suspend.First?)
    && (pr.suspend.First? ==> !pr.done.First?)
  }

  predicate HasResumed(pr: Promise)
  {
    pr.suspend.HasResumed() || pr.done.HasResumed()
  }

  /** A joining thread reads before it suspends, a coroutine when it has been resumed. */
  predicate HasRead(pr: Promise)
  {
    pr.joined || (pr.caller.Some? && (pr.suspend.HasReturned() || pr.done.HasReturned()))
  }

  predicate PromiseInv(pr: Promise)
  {
    && OneLast(pr)
    && pr.resumed == (if pr.caller.Some? && HasResumed(pr) then 1 else 0)
    && pr.deleted == (if pr.suspend.Finished? || pr.done.Finished? then 1 else 0)
    && (pr.caller.Some? || pr.joined <==> !pr.suspend.Idle?)
    && !(pr.caller.Some? && pr.joined)
    && (pr.value.Some? <==> !pr.done.Idle?)
    && (pr.suspend.Resuming? || pr.done.Resuming? ==> pr.caller.Some?)
    && pr.read == (if HasRead(pr) then pr.value else None)
    && (HasRead(pr) ==> pr.value.Some?)
  }

  /** A coroutine is suspended on a promise exactly while it is that promise's unresumed caller. */
  predicate Waits(s: System, p: nat, c: nat)
  {
    p in s.promises && s.promises[p].caller == Some(c) && !HasResumed(s.promises[p])
  }

  ghost predicate Inv(s: System)
  {
    && !s.bad
    && (forall p :: p in s.promises ==> PromiseInv(s.promises[p]))
    && (forall p, c :: Waits(s, p, c) <==> c in s.waiting && s.waiting[c] == p)
  }

  lemma {:induction false} PromiseKeeps(pr: Promise, step: Step)
    requires PromiseInv(pr) && CanMove(pr, step)
    ensures PromiseInv(Moved(pr, step)) && pr.deleted == 0
    ensures step.ReadValue? ==> pr.value.Some?
  {
  }

  /** The promise a step works on: the step is safe and keeps the promise's own invariant. */
  lemma {:induction false} LocalStep(s: System, step: Step)
    requires Inv(s) && Enabled(s, step)
    ensures !Next(s, step).bad
    ensures step.p in Next(s, step).promises && PromiseInv(Next(s, step).promises[step.p])
  {
    if step.Create? {
      assert PromiseInv(FRESH);
    } else {
      var pr := s.promises[step.p];
      PromiseKeeps(pr, step);
      hide PromiseInv, Moved;
      if step.Resume? && pr.caller.Some? {
        UnresumedWaits(s, step);
      }
    }
  }

  lemma UnresumedWaits(s: System, step: Step)
    requires Inv(s) && Enabled(s, step) && step.Resume? && s.promises[step.p].caller.Some?
    ensures var c := s.promises[step.p].caller.value; c in s.waiting && s.waiting[c] == step.p
  {
    assert PromiseInv(s.promises[step.p]) && Waits(s, step.p, s.promises[step.p].caller.value);
  }

  lemma {:induction false} WaitingStep(s: System, step: Step, r: nat, c: nat)
    requires Inv(s) && Enabled(s, step)
    ensures var s' := Next(s, step); Waits(s', r, c) <==> c in s'.waiting && s'.waiting[c] == r
  {
    var s', p := Next(s, step), step.p;
    assert Waits(s, r, c) <==> c in s.waiting && s.waiting[c] == r;
    if p in s.promises {
      var pr := s.promises[p];
      assert PromiseInv(pr);
      if pr.caller.Some? {
        assert Waits(s, p, pr.caller.value) <==> pr.caller.value in s.waiting && s.waiting[pr.caller.value] == p;
      }
    }
    if r != p {
      assert r in s'.promises <==> r in s.promises;
      assert r in s.promises ==> s'.promises[r] == s.promises[r];
    }
  }

  /** Every step of every thread keeps the invariant. */
  lemma {:induction false} StepKeeps(s: System, step: Step)
    requires Inv(s) && Enabled(s, step)
    ensures Inv(Next(s, step))
  {
    LocalStep(s, step);
    var s', p := Next(s, step), step.p;
    assert forall r :: r in s'.promises && r != p ==> r in s.promises && s'.promises[r] == s.promises[r];
    forall r, c
      ensures Waits(s', r, c) <==> c in s'.waiting && s'.waiting[c] == r
    {
      WaitingStep(s, step, r, c);
    }
  }

  lemma {:induction false} RunKeeps(s: System, steps: seq<Step>)
    requires Inv(s) && IsRun(s, steps)
    ensures Inv(After(s, steps))
    decreases |steps|
  {
    if steps != [] {
      StepKeeps(s, steps[0]);
      RunKeeps(Next(s, steps[0]), steps[1..]);
    }
  }

  /* ---------------------------------------------------------------- safety */

  /** Safety of every interleaving over any number of promises: no step uses a deleted promise, reads an
      unset value or resumes a coroutine that is not waiting; nothing is resumed or deleted twice, and
      neither happens before both events have. */
  lemma {:induction false} HandshakeSafe(s0: System, steps: seq<Step>, p: nat)
    requires Init(s0) && IsRun(s0, steps)
    ensures var s := After(s0, steps);
            && !s.bad
            && (p in s.promises ==>
                  var pr := s.promises[p];
                  && pr.resumed <= 1 && pr.deleted <= 1
                  && (pr.resumed + pr.deleted > 0 ==> pr.suspend.Exchanged() && pr.done.Exchanged()))
  {
    assert Inv(s0);
    RunKeeps(s0, steps);
    assert p in After(s0, steps).promises ==> PromiseInv(After(s0, steps).promises[p]);
  }

  /* ---------------------------------------------------------------- what is read */

  /** The values that the steps of a run complete promise `p` with. */
  function Completed(steps: seq<Step>, p: nat): (vs: seq<int>)
  {
    if steps == [] then [] else Completion(steps[0], p) + Completed(steps[1..], p)
  }

  function Completion(step: Step, p: nat): (vs: seq<int>)
  {
    if step.Complete? && step.p == p then [step.v] else []
  }

  /** The coroutines that the steps of a run suspend on promise `p`. */
  function Awaited(steps: seq<Step>, p: nat): (cs: seq<nat>)
  {
    if steps == [] then [] else Awaiting(steps[0], p) + Awaited(steps[1..], p)
  }

  function Awaiting(step: Step, p: nat): (cs: seq<nat>)
  {
    if step.Await? && step.p == p then [step.c] else []
  }

  function ValueAt(s: System, p: nat): seq<int>
  {
    if p in s.promises && s.promises[p].value.Some? then [s.promises[p].value.value] else []
  }

  function CallerAt(s: System, p: nat): seq<nat>
  {
    if p in s.promises && s.promises[p].caller.Some? then [s.promises[p].caller.value] else []
  }

  /** Value and caller of a promise are set once and then stay. */
  lemma {:induction false} SetOnce(pr: Promise, step: Step)
    requires PromiseInv(pr) && CanMove(pr, step)
    ensures if step.Complete? then pr.value.None? && Moved(pr, step).value == Some(step.v)
            else Moved(pr, step).value == pr.value
    ensures if step.Await? then pr.caller.None? && Moved(pr, step).caller == Some(step.c)
            else Moved(pr, step).caller == pr.caller
  {
  }

  lemma {:induction false} HistoryStep(s: System, step: Step, p: nat)
    requires Inv(s) && Enabled(s, step)
    ensures ValueAt(Next(s, step), p) == ValueAt(s, p) + Completion(step, p)
    ensures CallerAt(Next(s, step), p) == CallerAt(s, p) + Awaiting(step, p)
  {
    hide PromiseInv, Moved, CanMove, Waits;
    if !step.Create? {
      SetOnce(s.promises[step.p], step);
    }
  }

  lemma Associative<T>(u: seq<T>, v: seq<T>, w: seq<T>)
    ensures u + v + w == u + (v + w)
  {
  }

  lemma {:induction false} History(s: System, steps: seq<Step>, p: nat)
    requires Inv(s) && IsRun(s, steps)
    ensures ValueAt(After(s, steps), p) == ValueAt(s, p) + Completed(steps, p)
    ensures CallerAt(After(s, steps), p) == CallerAt(s, p) + Awaited(steps, p)
    decreases |steps|
  {
    hide Inv, Next, Enabled, ValueAt, CallerAt, Completion, Awaiting;
    if steps != [] {
      var step, rest := steps[0], steps[1..];
      StepKeeps(s, step);
      HistoryStep(s, step, p);
      History(Next(s, step), rest, p);
      Associative(ValueAt(s, p), Completion(step, p), Completed(rest, p));
      Associative(CallerAt(s, p), Awaiting(step, p), Awaited(rest, p));
    }
  }

  /** In every run a promise is completed at most once and awaited at most once, and what its awaiter has
      read is the value it was completed with. */
  lemma {:induction false} AwaiterReadsValue(s0: System, steps: seq<Step>, p: nat)
    requires Init(s0) && IsRun(s0, steps) && p in After(s0, steps).promises
    ensures var pr := After(s0, steps).promises[p];
            && |Completed(steps, p)| <= 1 && |Awaited(steps, p)| <= 1
            && (pr.caller.Some? <==> Awaited(steps, p) != [])
            && (pr.caller.Some? ==> Awaited(steps, p) == [pr.caller.value])
            && (pr.read.Some? <==> HasRead(pr))
            && (pr.read.Some? ==> Completed(steps, p) == [pr.read.value])
  {
    assert Inv(s0);
    RunKeeps(s0, steps);
    History(s0, steps, p);
    assert PromiseInv(After(s0, steps).promises[p]);
  }

  /* ---------------------------------------------------------------- completion */

  /** Steps that the threads of a promise still have to take, at most. */
  function Work(pr: Promise): nat
  {
    Before(pr.suspend) + Before(pr.done) +
    if pr.suspend.Finished? || pr.done.Finished? then 0
    else if pr.suspend.Returned? || pr.done.Returned? then 1
    else if pr.suspend.Resuming? || pr.done.Resuming? then 2
    else 3
  }

  function Before(phase: Phase): nat
  {
    if phase.Idle? then 2 else if phase.Ready? then 1 else 0
  }

  lemma {:induction false} StepWorks(s: System, step: Step)
    requires Inv(s) && Enabled(s, step) && !step.Create?
    ensures Work(Next(s, step).promises[step.p]) < Work(s.promises[step.p])
  {
    assert PromiseInv(s.promises[step.p]);
  }

  /** The thread that goes on, once both events have started. */
  function Remaining(p: nat, pr: Promise): Step
  {
    if pr.suspend.Ready? then Exchange(p, Suspend)
    else if pr.done.Ready? then Exchange(p, Done)
    else
      var e := if pr.suspend.Last() then Suspend else Done;
      if pr.At(e).Second? then Resume(p, e)
      else if pr.At(e).Resuming? then ReadValue(p, e)
      else Delete(p, e)
  }

  lemma {:induction false} PromiseProgress(p: nat, pr: Promise)
    requires PromiseInv(pr) && !pr.suspend.Idle? && !pr.done.Idle?
    ensures Remaining(p, pr).p == p && !Remaining(p, pr).Create? && !Remaining(p, pr).Await?
    ensures if pr.deleted == 0 then CanMove(pr, Remaining(p, pr))
            else pr.deleted == 1 && HasRead(pr) && HasResumed(pr) && pr.resumed == (if pr.caller.Some? then 1 else 0)
  {
  }

  lemma {:induction false} Progress(s: System, p: nat)
    requires Inv(s) && p in s.promises && !s.promises[p].suspend.Idle? && !s.promises[p].done.Idle?
    ensures var pr := s.promises[p];
            && ((exists step: Step :: step.p == p && Enabled(s, step)) <==> pr.deleted == 0)
            && (pr.deleted == 1 ==>
                  && HasRead(pr) && pr.resumed == (if pr.caller.Some? then 1 else 0)
                  && (pr.caller.Some? ==> pr.caller.value in s.waiting ==> s.waiting[pr.caller.value] != p))
  {
    hide PromiseInv, CanMove, HasRead, Remaining, HasResumed;
    var pr := s.promises[p];
    PromiseProgress(p, pr);
    if pr.deleted == 0 {
      assert Enabled(s, Remaining(p, pr));
    } else {
      if step: Step :| step.p == p && Enabled(s, step) {
        PromiseKeeps(pr, step);
        assert false;
      }
      assert pr.caller.Some? ==> !Waits(s, p, pr.caller.value);
    }
  }

  /** No handshake gets stuck: after both events have started, some thread can go on exactly until the
      promise is deleted, and then its awaiter has read the value it was completed with, and a caller has
      been resumed once and waits no longer. */
  lemma {:induction false} HandshakeCompletes(s0: System, steps: seq<Step>, p: nat)
    requires Init(s0) && IsRun(s0, steps)
    requires p in After(s0, steps).promises
    requires !After(s0, steps).promises[p].suspend.Idle? && !After(s0, steps).promises[p].done.Idle?
    ensures var s := After(s0, steps);
            var pr := s.promises[p];
            && ((exists step: Step :: step.p == p && Enabled(s, step)) <==> pr.deleted == 0)
            && (pr.deleted == 1 ==>
                  && pr.read.Some? && Completed(steps, p) == [pr.read.value]
                  && pr.resumed == (if pr.caller.Some? then 1 else 0)
                  && (pr.caller.Some? ==> pr.caller.value in s.waiting ==> s.waiting[pr.caller.value] != p))
  {
    assert Inv(s0);
    RunKeeps(s0, steps);
    AwaiterReadsValue(s0, steps, p);
    hide After, IsRun, PromiseInv, CanMove, HasRead, Completed, Awaited, Remaining, HasResumed;
    var s := After(s0, steps);
    Progress(s, p);
  }

  function StepsOn(steps: seq<Step>, p: nat): nat
  {
    if steps == [] then 0 else (if steps[0].p == p && !steps[0].Create? then 1 else 0) + StepsOn(steps[1..], p)
  }

  function WorkAt(s: System, p: nat): nat
  {
    if p in s.promises then Work(s.promises[p]) else 7
  }

  lemma {:induction false} WorkBoundsRun(s: System, steps: seq<Step>, p: nat)
    requires Inv(s) && IsRun(s, steps)
    ensures StepsOn(steps, p) + WorkAt(After(s, steps), p) <= WorkAt(s, p)
    decreases |steps|
  {
    if steps != [] {
      var step := steps[0];
      StepKeeps(s, step);
      WorkBoundsRun(Next(s, step), steps[1..], p);
      if !step.Create? {
        StepWorks(s, step);
      }
    }
  }

  /** A handshake is over after at most seven steps of its threads, in any run. */
  lemma {:induction false} HandshakeBounded(s0: System, steps: seq<Step>, p: nat)
    requires Init(s0) && IsRun(s0, steps)
    ensures StepsOn(steps, p) <= 7
    ensures StepsOn(steps, p) == 7 ==> p in After(s0, steps).promises && After(s0, steps).promises[p].deleted == 1
  {
    assert Inv(s0);
    WorkBoundsRun(s0, steps, p);
    RunKeeps(s0, steps);
    if StepsOn(steps, p) == 7 {
      assert PromiseInv(After(s0, steps).promises[p]);
    }
  }
}
