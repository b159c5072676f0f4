/** Closing the client while calls are in flight: Close holds the mutex around a compare-and-swap of the
    closed flag and the closing of the store; other calls check their input, then load the flag, then
    ask the store, without the mutex. */
module CloseProtocol {
  import opened Prelude

  datatype Reply = Rejected | Refused | Served

  /** Where a thread is. Calls are numbered; valid says whether the call's input passes validation. */
  datatype Pc =
    | Idle
    | Checking(call: nat)
    | Asking(call: nat)
    | Locking
    | Swapping
    | Shutting
    | Unlocking
    | Closed

  datatype Event = Swapped | StoreClosed | Asked(call: nat)

  /** checkedAt: how much had happened when the call loaded the closed flag. */
  datatype Call = Call(thread: nat, valid: bool, checkedAt: Option<nat>, asked: nat, reply: Option<Reply>)

  datatype Sys = Sys(closed: bool, mutex: Option<nat>, threads: map<nat, Pc>, calls: seq<Call>, log: seq<Event>)

  datatype Step = Invoke(thread: nat, valid: bool) | InvokeClose(thread: nat) | Act(thread: nat)

  const START := Sys(false, None, map[], [], [])

  function PcOf(s: Sys, t: nat): Pc {
    if t in s.threads then s.threads[t] else Idle
  }

  function Goto(s: Sys, t: nat, pc: Pc): Sys {
    s.(threads := s.threads[t := pc])
  }

  function Next(s: Sys, step: Step): Sys {
    match step
    case Invoke(t, valid) =>
      if PcOf(s, t).Idle?
      then Goto(s.(calls := s.calls + [Call(t, valid, None, 0, None)]), t, Checking(|s.calls|))
      else s
    case InvokeClose(t) => if PcOf(s, t).Idle? then Goto(s, t, Locking) else s
    case Act(t) => (
      match PcOf(s, t)
      case Idle => s
      case Checking(c) => if c < |s.calls| then Check(s, t, c) else s
      case Asking(c) =>
        if c < |s.calls| then
          var served := s.calls[c].(asked := s.calls[c].asked + 1, reply := Some(Served));
          Goto(s.(log := s.log + [Asked(c)], calls := s.calls[c := served]), t, Idle)
        else s
      case Locking => if s.mutex.None? then Goto(s.(mutex := Some(t)), t, Swapping) else s
      case Swapping =>
        if s.closed then Goto(s, t, Unlocking)
        else Goto(s.(closed := true, log := s.log + [Swapped]), t, Shutting)
      case Shutting => Goto(s.(log := s.log + [StoreClosed]), t, Unlocking)
      case Unlocking => Goto(s.(mutex := None), t, Closed)
      case Closed => Goto(s, t, Idle))
  }

  /** Input first, then the closed flag. */
  function Check(s: Sys, t: nat, c: nat): Sys
    requires c < |s.calls|
  {
    var call := s.calls[c];
    if !call.valid then Goto(s.(calls := s.calls[c := call.(reply := Some(Rejected))]), t, Idle)
    else if s.closed then
      Goto(s.(calls := s.calls[c := call.(checkedAt := Some(|s.log|), reply := Some(Refused))]), t, Idle)
    else Goto(s.(calls := s.calls[c := call.(checkedAt := Some(|s.log|))]), t, Asking(c))
  }

  function Run(steps: seq<Step>): Sys {
    if steps == [] then START else Next(Run(steps[..|steps| - 1]), steps[|steps| - 1])
  }

  function Count(log: seq<Event>, e: Event): nat {
    if log == [] then 0 else Count(log[..|log| - 1], e) + if log[|log| - 1] == e then 1 else 0
  }

  lemma {:induction false} CountIn(log: seq<Event>, e: Event)
    ensures Count(log, e) > 0 <==> e in log
  {
    if log != [] {
      CountIn(log[..|log| - 1], e);
      assert log == log[..|log| - 1] + [log[|log| - 1]];
    }
  }

  // ----- The invariant -----

  predicate HoldsMutex(pc: Pc) {
    pc.Swapping? || pc.Shutting? || pc.Unlocking?
  }

  /** A call is refused exactly if the swap came before its check, and then it never asks the store. */
  ghost predicate CallOk(log: seq<Event>, call: Call) {
    && call.asked <= 1
    && (call.asked == 1 ==> call.reply == Some(Served))
    && (call.reply == Some(Served) ==> call.asked == 1 && call.checkedAt.Some?)
    && (call.reply == Some(Rejected) ==> !call.valid)
    && (!call.valid ==> call.checkedAt.None? && call.asked == 0)
    && (match call.checkedAt
        case None => call.reply != Some(Refused)
        case Some(p) => p <= |log| && (call.reply == Some(Refused) <==> Swapped in log[..p]))
  }

  /** Thread t is working on the call; checked says whether it is past the check. */
  predicate InFlight(call: Call, t: nat, checked: bool) {
    call.thread == t && call.reply.None? && call.checkedAt.Some? == checked && (checked ==> call.valid)
  }

  ghost predicate ThreadOk(s: Sys, t: nat)
    requires t in s.threads
  {
    var pc := s.threads[t];
    && (HoldsMutex(pc) ==> s.mutex == Some(t))
    && (pc.Shutting? ==> Count(s.log, Swapped) == 1 && Count(s.log, StoreClosed) == 0)
    && (pc.Unlocking? || pc.Closed? ==> Count(s.log, StoreClosed) == 1)
    && (pc.Checking? || pc.Asking? ==> pc.call < |s.calls| && InFlight(s.calls[pc.call], t, pc.Asking?))
  }

  ghost predicate Inv(s: Sys) {
    && Count(s.log, Swapped) == (if s.closed then 1 else 0)
    && Count(s.log, StoreClosed) <= Count(s.log, Swapped)
    && (Count(s.log, StoreClosed) < Count(s.log, Swapped) ==>
          s.mutex.Some? && s.mutex.value in s.threads && s.threads[s.mutex.value].Shutting?)
    && (s.mutex.Some? ==> s.mutex.value in s.threads && HoldsMutex(s.threads[s.mutex.value]))
    && (forall t :: t in s.threads ==> ThreadOk(s, t))
    && (forall c :: 0 <= c < |s.calls| ==> CallOk(s.log, s.calls[c]))
  }

  lemma CallLater(log: seq<Event>, e: Event, call: Call)
    requires CallOk(log, call)
    ensures CallOk(log + [e], call)
  {
    if call.checkedAt.Some? {
      assert (log + [e])[..call.checkedAt.value] == log[..call.checkedAt.value];
    }
  }

  /** Thread t moves without an event. */
  lemma QuietKeeps(s: Sys, n: Sys, t: nat)
    requires Inv(s) && n.log == s.log && n.closed == s.closed
    requires n.threads.Keys == s.threads.Keys + {t} && ThreadOk(n, t)
    requires forall u :: u in s.threads && u != t ==> n.threads[u] == s.threads[u] && ThreadOk(n, u)
    requires n.mutex.Some? ==> n.mutex.value in n.threads && HoldsMutex(n.threads[n.mutex.value])
    requires PcOf(s, t).Shutting? ==> n.threads[t].Shutting? && n.mutex == s.mutex
    requires forall c :: 0 <= c < |n.calls| ==> CallOk(n.log, n.calls[c])
    requires s.mutex.Some? && s.mutex.value != t ==> n.mutex == s.mutex
    ensures Inv(n)
  {
  }

  lemma CheckKeeps(s: Sys, t: nat, c: nat)
    requires Inv(s) && PcOf(s, t) == Checking(c)
    ensures c < |s.calls| && Inv(Check(s, t, c))
  {
    hide Count;
    assert ThreadOk(s, t);
    var n := Check(s, t, c);
    assert s.log[..|s.log|] == s.log;
    CountIn(s.log, Swapped);
    forall u | u in s.threads && u != t ensures ThreadOk(n, u) { assert ThreadOk(s, u); }
    forall d | 0 <= d < |n.calls| ensures CallOk(n.log, n.calls[d]) { assert CallOk(s.log, s.calls[d]); }
    QuietKeeps(s, n, t);
  }

  /** Thread t does something visible: e, and its own call becomes call. */
  lemma EventKeeps(s: Sys, e: Event)
    requires Inv(s)
    ensures forall c :: 0 <= c < |s.calls| ==> CallOk(s.log + [e], s.calls[c])
    ensures Count(s.log + [e], Swapped) == Count(s.log, Swapped) + (if e == Swapped then 1 else 0)
    ensures Count(s.log + [e], StoreClosed) == Count(s.log, StoreClosed) + (if e == StoreClosed then 1 else 0)
  {
    assert (s.log + [e])[..|s.log|] == s.log;
    forall c | 0 <= c < |s.calls| ensures CallOk(s.log + [e], s.calls[c]) {
      CallLater(s.log, e, s.calls[c]);
    }
  }

  lemma AskKeeps(s: Sys, t: nat)
    requires Inv(s) && PcOf(s, t).Asking?
    ensures Inv(Next(s, Act(t)))
  {
    hide Count;
    var n, c := Next(s, Act(t)), PcOf(s, t).call;
    assert ThreadOk(s, t);
    EventKeeps(s, Asked(c));
    assert CallOk(s.log, s.calls[c]) && s.calls[c].asked == 0;
    forall u | u in n.threads ensures ThreadOk(n, u) { assert ThreadOk(s, u); }
  }

  lemma CloseKeeps(s: Sys, t: nat)
    requires Inv(s) && (PcOf(s, t).Swapping? || PcOf(s, t).Shutting?)
    ensures Inv(Next(s, Act(t)))
  {
    var n := Next(s, Act(t));
    assert ThreadOk(s, t);
    EventKeeps(s, Swapped);
    EventKeeps(s, StoreClosed);
    forall u | u in n.threads ensures ThreadOk(n, u) { assert ThreadOk(s, u); }
  }

  lemma ActKeeps(s: Sys, t: nat)
    requires Inv(s)
    ensures Inv(Next(s, Act(t)))
  {
    if t in s.threads {
      var n := Next(s, Act(t));
      assert ThreadOk(s, t);
      match s.threads[t]
      case Checking(c) => CheckKeeps(s, t, c);
      case Asking(c) => AskKeeps(s, t);
      case Swapping => CloseKeeps(s, t);
      case Shutting => CloseKeeps(s, t);
      case _ => forall u | u in n.threads ensures ThreadOk(n, u) { assert ThreadOk(s, u); }
    }
  }

  lemma NextKeeps(s: Sys, step: Step)
    requires Inv(s)
    ensures Inv(Next(s, step))
  {
    hide Count;
    var n := Next(s, step);
    match step
    case Act(t) => ActKeeps(s, t);
    case _ => forall u | u in n.threads ensures ThreadOk(n, u) { assert u in s.threads ==> ThreadOk(s, u); }
  }

  lemma {:induction false} RunKeeps(steps: seq<Step>)
    ensures Inv(Run(steps))
  {
    if steps != [] {
      RunKeeps(steps[..|steps| - 1]);
      NextKeeps(Run(steps[..|steps| - 1]), steps[|steps| - 1]);
    }
  }

  /** Over every interleaving of Close calls and other calls, one compare-and-swap wins, the store is
      closed at most once, and whoever gets out of Close does so after that. */
  lemma ClosedOnce(steps: seq<Step>, t: nat)
    ensures var s := Run(steps);
      && Count(s.log, Swapped) <= 1 && Count(s.log, StoreClosed) <= Count(s.log, Swapped)
      && (PcOf(s, t).Closed? ==> Count(s.log, StoreClosed) == 1)
  {
    RunKeeps(steps);
    if t in Run(steps).threads {
      assert ThreadOk(Run(steps), t);
    }
  }

  /** A call whose check ran after the winning swap is refused and never asks the store; one whose check
      ran before is not refused. Invalid input is rejected as such, closed or not, without the store. */
  lemma RefusedIffCheckedAfterSwap(steps: seq<Step>, c: nat)
    requires c < |Run(steps).calls|
    ensures var s := Run(steps);
      var call := s.calls[c];
      && (match call.checkedAt
          case None => call.reply != Some(Refused) && call.reply != Some(Served) && call.asked == 0
          case Some(p) =>
            && call.valid && p <= |s.log|
            && (Swapped in s.log[..p] ==> call.reply == Some(Refused) && call.asked == 0)
            && (Swapped !in s.log[..p] ==> call.reply != Some(Refused)))
      && (call.reply == Some(Rejected) ==> !call.valid)
  {
    RunKeeps(steps);
    assert CallOk(Run(steps).log, Run(steps).calls[c]);
  }

  // ----- Who may still ask the store once the client is closed -----

  /** A call without a reply is in the hands of its thread, which is where the call's check says. */
  ghost predicate Carried(s: Sys) {
    forall c :: 0 <= c < |s.calls| && s.calls[c].reply.None? ==>
      PcOf(s, s.calls[c].thread) == if s.calls[c].checkedAt.Some? then Asking(c) else Checking(c)
  }

  lemma NextCarries(s: Sys, step: Step)
    requires Inv(s) && Carried(s)
    ensures Carried(Next(s, step))
  {
    hide CallOk, Count, HoldsMutex;
    var t, n := step.thread, Next(s, step);
    assert t in s.threads ==> ThreadOk(s, t);
    forall c | 0 <= c < |n.calls| && n.calls[c].reply.None?
      ensures PcOf(n, n.calls[c].thread) == if n.calls[c].checkedAt.Some? then Asking(c) else Checking(c)
    {
      assert c < |s.calls| ==> s.calls[c].reply.None? && n.calls[c].thread == s.calls[c].thread;
    }
  }

  lemma {:induction false} RunCarries(steps: seq<Step>)
    ensures Carried(Run(steps))
  {
    if steps != [] {
      RunKeeps(steps[..|steps| - 1]);
      RunCarries(steps[..|steps| - 1]);
      NextCarries(Run(steps[..|steps| - 1]), steps[|steps| - 1]);
    }
  }

  function Continue(s: Sys, steps: seq<Step>): Sys {
    if steps == [] then s else Next(Continue(s, steps[..|steps| - 1]), steps[|steps| - 1])
  }

  lemma {:induction false} ContinueRun(before: seq<Step>, after: seq<Step>)
    ensures Run(before + after) == Continue(Run(before), after)
  {
    if after == [] {
      assert before + after == before;
    } else {
      var init := after[..|after| - 1];
      assert (before + after)[..|before + after| - 1] == before + init;
      ContinueRun(before, init);
    }
  }

  /** n comes after the closed state s: it only adds to the log, and whoever asks in n, or has asked since,
      was about to ask in s. */
  ghost predicate Follows(s: Sys, n: Sys) {
    && n.closed && |s.log| <= |n.log| && n.log[..|s.log|] == s.log
    && (forall t :: t in n.threads && n.threads[t].Asking? ==> t in s.threads && s.threads[t] == n.threads[t])
    && (forall i :: |s.log| <= i < |n.log| && n.log[i].Asked? ==> AboutToAsk(s, n.log[i].call))
  }

  ghost predicate AboutToAsk(s: Sys, c: nat) {
    exists t :: t in s.threads && s.threads[t] == Asking(c)
  }

  lemma {:induction false} ContinueFollows(s: Sys, steps: seq<Step>)
    requires Inv(s) && s.closed
    ensures Follows(s, Continue(s, steps))
  {
    if steps != [] {
      var m, step := Continue(s, steps[..|steps| - 1]), steps[|steps| - 1];
      ContinueFollows(s, steps[..|steps| - 1]);
      var n := Next(m, step);
      assert |m.log| <= |n.log| && n.log[..|m.log|] == m.log;
      assert n.log[..|s.log|] == m.log[..|s.log|];
      forall i | |s.log| <= i < |n.log| && n.log[i].Asked? ensures AboutToAsk(s, n.log[i].call) {
        assert i < |m.log| ==> n.log[i] == m.log[i];
      }
    }
  }

  /** The store was asked for call c in the part of the run that follows `before`. */
  ghost predicate AskedIn(before: seq<Step>, after: seq<Step>, c: nat) {
    exists i :: |Run(before).log| <= i < |Run(before + after).log| && Run(before + after).log[i] == Asked(c)
  }

  /** The call is past its check and has no reply. */
  ghost predicate PastCheck(s: Sys, c: nat) {
    c < |s.calls| && s.calls[c].checkedAt.Some? && s.calls[c].reply.None?
  }

  lemma AsksNext(before: seq<Step>, c: nat)
    requires PastCheck(Run(before), c)
    ensures AskedIn(before, [Act(Run(before).calls[c].thread)], c)
  {
    hide Run;
    var s := Run(before);
    var t := s.calls[c].thread;
    RunCarries(before);
    ContinueRun(before, [Act(t)]);
    assert [Act(t)][..0] == [] && Continue(s, [Act(t)]) == Next(s, Act(t));
    assert Run(before + [Act(t)]).log[|s.log|] == Asked(c);
  }

  lemma AskedOnlyIf(before: seq<Step>, after: seq<Step>, c: nat)
    requires Run(before).closed && AskedIn(before, after, c)
    ensures PastCheck(Run(before), c)
  {
    hide Run, Continue;
    var s := Run(before);
    RunKeeps(before);
    ContinueRun(before, after);
    ContinueFollows(s, after);
    var i :| |s.log| <= i < |Run(before + after).log| && Run(before + after).log[i] == Asked(c);
    var t :| t in s.threads && s.threads[t] == Asking(c);
    assert ThreadOk(s, t);
  }

  /** Once the client is closed the store is asked on behalf of exactly those calls that were past their
      check, and without a reply, at that time: each of them may still ask, and no other call ever can. */
  lemma AskedLateIff(before: seq<Step>, c: nat)
    requires Run(before).closed
    ensures (exists after :: AskedIn(before, after, c)) <==> PastCheck(Run(before), c)
  {
    hide Run, AskedIn;
    if PastCheck(Run(before), c) {
      AsksNext(before, c);
    }
    forall after | AskedIn(before, after, c) ensures PastCheck(Run(before), c) {
      AskedOnlyIf(before, after, c);
    }
  }

  /** So if no call was in flight when the client was closed, the store is never asked again, whatever
      calls are made later. */
  lemma QuietCloseIsFinal(before: seq<Step>, after: seq<Step>, c: nat)
    requires Run(before).closed && forall d :: 0 <= d < |Run(before).calls| ==> Run(before).calls[d].reply.Some?
    ensures !AskedIn(before, after, c)
  {
    hide Run, AskedIn;
    AskedLateIff(before, c);
  }

  lemma OneStep(steps: seq<Step>, i: nat)
    requires i < |steps|
    ensures Run(steps[..i + 1]) == Next(Run(steps[..i]), steps[i])
  {
    assert steps[..i + 1][..i] == steps[..i];
  }

  function LateCall(): seq<Step> {
    [Invoke(1, true), Act(1), InvokeClose(2), Act(2), Act(2), Act(2), Act(1)]
  }

  lemma LateCallChecked()
    ensures Run(LateCall()[..2]) == Sys(false, None, map[1 := Asking(0)], [Call(1, true, Some(0), 0, None)], [])
  {
    OneStep(LateCall(), 0);
    OneStep(LateCall(), 1);
  }

  lemma LateCallSwapping()
    ensures Run(LateCall()[..4]) ==
      Sys(false, Some(2), map[1 := Asking(0), 2 := Swapping], [Call(1, true, Some(0), 0, None)], [])
  {
    hide Run;
    LateCallChecked();
    OneStep(LateCall(), 2);
    OneStep(LateCall(), 3);
  }

  lemma LateCallClosed()
    ensures var s := Run(LateCall()[..6]);
      s.log == [Swapped, StoreClosed] && PcOf(s, 1) == Asking(0) && |s.calls| == 1
  {
    hide Run;
    LateCallSwapping();
    OneStep(LateCall(), 4);
    assert Run(LateCall()[..5]) ==
      Sys(true, Some(2), map[1 := Asking(0), 2 := Shutting], [Call(1, true, Some(0), 0, None)], [Swapped]);
    OneStep(LateCall(), 5);
  }

  /** A call that checked in time may still ask the store after the store was closed. */
  lemma LateCallWitness()
    ensures Run(LateCall()).log == [Swapped, StoreClosed, Asked(0)]
  {
    LateCallClosed();
    OneStep(LateCall(), 6);
    assert LateCall()[..7] == LateCall();
  }
}
