/** The pulse handshake of the context hub: the state monitor asks CHRE for a pulse and
    waits on a condition variable; whoever handles the PulseResponse sets the flag under
    the mutex and then notifies. The mutex, sleeping, spurious wake-ups and timeouts are
    spelt out, and every step is atomic. */
module PulseHandshake {

  datatype Thread = Nobody | Waiter | Notifier(n: nat)

  /** Where waitChreBackOnline is. It holds the mutex in Resetting, Asked and Rechecking. */
  datatype WaiterPc =
    | Outside
    | Resetting                    // the flag is reset, the request is not sent yet
    | Asked                        // the request was handed to sendMessage
    | Sleeping
    | Woken(timedOut: bool)        // needs the mutex back
    | Rechecking(timedOut: bool)
    | Returned(online: bool, timedOut: bool)

  /** Where notifyChreBackOnline is. */
  datatype NotifierPc = Away | Locked | FlagSet

  datatype System = System(
    mutex: Thread,
    isChreBackOnline: bool,
    waiter: WaiterPc,
    notifiers: map<nat, NotifierPc>,
    responses: nat)  // PulseResponses handled since the waiter's last reset
  {
    function At(n: nat): NotifierPc {
      if n in notifiers then notifiers[n] else Away
    }
  }

  datatype Step = WaiterStep | NotifierStep(n: nat) | TimeoutExpires | SpuriousWakeup

  const START := System(Nobody, false, Outside, map[], 0)

  /** The test of wait_for's predicate with the mutex held. */
  function Test(s: System, timedOut: bool): System {
    if s.isChreBackOnline || timedOut then
      s.(mutex := Nobody, waiter := Returned(s.isChreBackOnline, timedOut))
    else
      s.(mutex := Nobody, waiter := Sleeping)
  }

  function WaiterNext(s: System): System {
    match s.waiter
    case Outside | Returned(_, _) =>
      if s.mutex.Nobody? then s.(mutex := Waiter, isChreBackOnline := false, responses := 0, waiter := Resetting) else s
    case Resetting => s.(waiter := Asked)
    case Asked => Test(s, false)
    case Sleeping => s
    case Woken(timedOut) => if s.mutex.Nobody? then s.(mutex := Waiter, waiter := Rechecking(timedOut)) else s
    case Rechecking(timedOut) => Test(s, timedOut)
  }

  function NotifierNext(s: System, n: nat): System {
    match s.At(n)
    case Away => if s.mutex.Nobody? then s.(mutex := Notifier(n), notifiers := s.notifiers[n := Locked]) else s
    case Locked =>
      s.(isChreBackOnline := true, responses := s.responses + 1, mutex := Nobody,
         notifiers := s.notifiers[n := FlagSet])
    case FlagSet =>
      s.(waiter := if s.waiter.Sleeping? then Woken(false) else s.waiter, notifiers := s.notifiers[n := Away])
  }

  function Next(s: System, step: Step): System {
    match step
    case WaiterStep => WaiterNext(s)
    case NotifierStep(n) => NotifierNext(s, n)
    case TimeoutExpires => if s.waiter.Sleeping? then s.(waiter := Woken(true)) else s
    case SpuriousWakeup => if s.waiter.Sleeping? then s.(waiter := Woken(false)) else s
  }

  function Run(s: System, steps: seq<Step>): System {
    if steps == [] then s else Next(Run(s, steps[..|steps| - 1]), steps[|steps| - 1])
  }

  predicate HoldsMutex(w: WaiterPc) {
    w.Resetting? || w.Asked? || w.Rechecking?
  }

  /** Between its reset and its return. */
  predicate InWindow(w: WaiterPc) {
    !w.Outside? && !w.Returned?
  }

  ghost predicate Inv(s: System) {
    && (s.mutex == Waiter <==> HoldsMutex(s.waiter))
    && (forall n :: s.mutex == Notifier(n) <==> s.At(n) == Locked)
    && (s.waiter.Resetting? || s.waiter.Asked? ==> !s.isChreBackOnline)
    && (InWindow(s.waiter) ==> (s.isChreBackOnline <==> 0 < s.responses))
    && (s.waiter.Sleeping? && s.isChreBackOnline ==> exists n :: s.At(n) == FlagSet)
    && (s.waiter.Returned? && !s.waiter.online ==> s.waiter.timedOut)
  }

  lemma {:induction false} StepKeepsInv(s: System, step: Step)
    requires Inv(s)
    ensures Inv(Next(s, step))
  {
    var t := Next(s, step);
    match step
    case NotifierStep(n) =>
      assert forall m :: m != n ==> t.At(m) == s.At(m);
      assert s.At(n) == Locked ==> t.At(n) == FlagSet;
    case _ =>
      assert forall m :: t.At(m) == s.At(m);
  }

  lemma {:induction false} RunKeepsInv(steps: seq<Step>)
    ensures Inv(Run(START, steps))
  {
    if steps != [] {
      RunKeepsInv(steps[..|steps| - 1]);
      StepKeepsInv(Run(START, steps[..|steps| - 1]), steps[|steps| - 1]);
    }
  }

  /** The wait ends only by a timeout or with the flag set, and it reports the flag exactly
      when a PulseResponse was handled since its own reset: none is missed. */
  lemma {:induction false} ReturnsExactly(steps: seq<Step>)
    requires InWindow(Run(START, steps).waiter) && Next(Run(START, steps), WaiterStep).waiter.Returned?
    ensures var s := Run(START, steps); var r := Next(s, WaiterStep).waiter;
      && (r.online <==> 0 < s.responses)
      && (r.online || r.timedOut)
  {
    RunKeepsInv(steps);
  }

  /** No lost wake-up: while the waiter sleeps, a response that has been handled still has
      its notification ahead, and that notification wakes the waiter. */
  lemma {:induction false} NoLostWakeup(steps: seq<Step>) returns (n: nat)
    requires Run(START, steps).waiter.Sleeping? && 0 < Run(START, steps).responses
    ensures var s := Run(START, steps);
      s.At(n) == FlagSet && Next(s, NotifierStep(n)).waiter == Woken(false)
  {
    RunKeepsInv(steps);
    n :| Run(START, steps).At(n) == FlagSet;
  }

  /** Nothing can be handled between the reset and the start of the wait: the mutex is
      held throughout, so a response that comes early waits for the mutex and is handled
      inside the window. */
  lemma {:induction false} NoResponseBeforeTheWait(steps: seq<Step>, n: nat)
    requires Run(START, steps).waiter.Resetting? || Run(START, steps).waiter.Asked?
    ensures var s := Run(START, steps);
      s.responses == 0 && s.At(n) != Locked && Next(s, NotifierStep(n)).responses == 0
  {
    RunKeepsInv(steps);
  }

  /** A woken waiter that gets the mutex while the flag is set returns online at once. */
  lemma {:induction false} WokenWaiterReturns(steps: seq<Step>)
    requires var s := Run(START, steps); s.waiter.Woken? && s.mutex == Nobody && 0 < s.responses
    ensures var s := Next(Next(Run(START, steps), WaiterStep), WaiterStep);
      s.waiter.Returned? && s.waiter.online && s.mutex == Nobody
  {
    RunKeepsInv(steps);
  }

  /** A waiter that finds the mutex free asks for a pulse and goes to sleep: the reset, the
      request and the wait are three of its steps. */
  lemma {:induction false} WaiterFallsAsleep(steps: seq<Step>)
    requires var s := Run(START, steps); !InWindow(s.waiter) && s.mutex == Nobody
    ensures var s := Run(START, steps);
      var a := Next(s, WaiterStep); var b := Next(a, WaiterStep); var c := Next(b, WaiterStep);
      && a.waiter == Resetting && a.mutex == Waiter && !a.isChreBackOnline
      && b == a.(waiter := Asked)
      && c.waiter == Sleeping && c.mutex == Nobody && c.responses == 0 && c.notifiers == s.notifiers
  {
    RunKeepsInv(steps);
  }

  /** A handler that finds the mutex free sets the flag and counts its response in two steps,
      and the third one wakes a waiter that sleeps. */
  lemma {:induction false} HandlerCompletes(steps: seq<Step>, n: nat)
    requires var s := Run(START, steps); s.At(n) == Away && s.mutex == Nobody
    ensures var s := Run(START, steps);
      var a := Next(s, NotifierStep(n)); var b := Next(a, NotifierStep(n)); var c := Next(b, NotifierStep(n));
      && a.mutex == Notifier(n) && a.waiter == b.waiter == s.waiter
      && b.isChreBackOnline && b.responses == s.responses + 1 && b.mutex == Nobody
      && c.At(n) == Away && c.waiter == (if s.waiter == Sleeping then Woken(false) else s.waiter)
  {
    RunKeepsInv(steps);
  }

  /** The wait ends with the timeout, and reports what the flag then is; a wake-up for no
      reason puts the waiter back to sleep unless the flag is set. */
  lemma {:induction false} SleepEnds(steps: seq<Step>)
    requires var s := Run(START, steps); s.waiter == Sleeping && s.mutex == Nobody
    ensures var s := Run(START, steps);
      var late := Next(Next(Next(s, TimeoutExpires), WaiterStep), WaiterStep);
      var early := Next(Next(Next(s, SpuriousWakeup), WaiterStep), WaiterStep);
      && late == s.(waiter := Returned(s.isChreBackOnline, true))
      && early == s.(waiter := if s.isChreBackOnline then Returned(true, false) else Sleeping)
  {
    RunKeepsInv(steps);
  }

  // The monitor that waits: an edge detector over the sampled CHRE state.

  const SCP_CHRE_UNINIT := 0
  const SCP_CHRE_STOP := 1
  const SCP_CHRE_START := 2

  datatype Callback = None | Restarted | Disconnected

  function Edge(current: int, next: int): Callback {
    if current == SCP_CHRE_STOP && next == SCP_CHRE_START then Restarted
    else if current == SCP_CHRE_START && next == SCP_CHRE_STOP then Disconnected
    else None
  }

  /** The callback of each sample in turn; the state before the first one is UNINIT. */
  function Callbacks(samples: seq<int>): (cs: seq<Callback>)
    ensures |cs| == |samples|
  {
    seq(|samples|, i requires 0 <= i < |samples| =>
      Edge(if i == 0 then SCP_CHRE_UNINIT else samples[i - 1], samples[i]))
  }

  /** In the driver's numbers: a restart is 1 and then 2, a disconnection 2 and then 1, and
      the first sample has no callback. */
  lemma {:induction false} CallbackAt(samples: seq<int>, i: nat)
    requires i < |samples|
    ensures Callbacks(samples)[i] == Restarted <==> 0 < i && samples[i - 1] == 1 && samples[i] == 2
    ensures Callbacks(samples)[i] == Disconnected <==> 0 < i && samples[i - 1] == 2 && samples[i] == 1
  {
  }

  /** chreStateMonitorTask over the samples that ioctl delivers. */
  class StateMonitor {
    var chreCurrentState: int

    constructor ()
      ensures chreCurrentState == SCP_CHRE_UNINIT
    {
      chreCurrentState := SCP_CHRE_UNINIT;
    }

    method Watch(samples: seq<int>) returns (callbacks: seq<Callback>)
      requires chreCurrentState == SCP_CHRE_UNINIT
      modifies this
      ensures callbacks == Callbacks(samples)
      ensures samples != [] ==> chreCurrentState == samples[|samples| - 1]
    {
      callbacks := [];
      for i := 0 to |samples|
        invariant chreCurrentState == if i == 0 then SCP_CHRE_UNINIT else samples[i - 1]
        invariant callbacks == Callbacks(samples)[..i]
      {
        var chreNextState := samples[i];
        var c := None;
        if chreCurrentState == SCP_CHRE_STOP && chreNextState == SCP_CHRE_START {
          c := Restarted;
        } else if chreCurrentState == SCP_CHRE_START && chreNextState == SCP_CHRE_STOP {
          c := Disconnected;
        }
        callbacks := callbacks + [c];
        chreCurrentState := chreNextState;
      }
    }
  }

  predicate OnOff(state: int) {
    state == SCP_CHRE_STOP || state == SCP_CHRE_START
  }

  /** What a change away from this state should lead to. */
  function ChangeFrom(state: int): Callback {
    if state == SCP_CHRE_START then Disconnected else Restarted
  }

  /** Sample j is the next of STOP and START after sample i, and the other one. */
  predicate Change(samples: seq<int>, i: nat, j: nat) {
    && i < j < |samples| && OnOff(samples[i]) && OnOff(samples[j]) && samples[i] != samples[j]
    && forall k :: i < k < j ==> !OnOff(samples[k])
  }

  /** A change is reported exactly if no other state is sampled on the way: then by the
      right callback at once, and otherwise never. */
  lemma {:induction false} ChangeReportedIff(samples: seq<int>, i: nat, j: nat)
    requires Change(samples, i, j)
    ensures (exists k :: i < k <= j && Callbacks(samples)[k] != None) <==> j == i + 1
    ensures j == i + 1 ==> Callbacks(samples)[j] == ChangeFrom(samples[i])
  {
    if j == i + 1 {
      assert Callbacks(samples)[j] != None;
    } else {
      forall k | i < k <= j
        ensures Callbacks(samples)[k] == None
      {
        assert !OnOff(samples[i + 1]) && !OnOff(samples[j - 1]);
      }
    }
  }

  /** The last of STOP and START among the first n samples. */
  function LastOnOff(samples: seq<int>, n: nat): (r: int)
    requires n <= |samples|
    ensures r == SCP_CHRE_UNINIT || OnOff(r)
  {
    if n == 0 then SCP_CHRE_UNINIT
    else if OnOff(samples[n - 1]) then samples[n - 1] else LastOnOff(samples, n - 1)
  }

  /** Sample j ends a change. */
  predicate Ends(samples: seq<int>, j: nat)
    requires j < |samples|
  {
    OnOff(samples[j]) && OnOff(LastOnOff(samples, j)) && samples[j] != LastOnOff(samples, j)
  }

  /** Sample j ends a change that the monitor does not see. */
  predicate EndsHidden(samples: seq<int>, j: nat)
    requires j < |samples|
  {
    Ends(samples, j) && !OnOff(samples[j - 1])
  }

  lemma {:induction false} LastOnOffIs(samples: seq<int>, n: nat) returns (i: nat)
    requires n <= |samples| && OnOff(LastOnOff(samples, n))
    ensures i < n && samples[i] == LastOnOff(samples, n) && forall k :: i < k < n ==> !OnOff(samples[k])
  {
    if OnOff(samples[n - 1]) {
      i := n - 1;
    } else {
      i := LastOnOffIs(samples, n - 1);
    }
  }

  /** Ending a change is ending the change from some earlier sample. */
  lemma {:induction false} EndsIff(samples: seq<int>, j: nat)
    requires j < |samples|
    ensures Ends(samples, j) <==> exists i: nat :: Change(samples, i, j)
    ensures Callbacks(samples)[j] != None <==> Ends(samples, j) && !EndsHidden(samples, j)
  {
    if Ends(samples, j) {
      var i := LastOnOffIs(samples, j);
      assert Change(samples, i, j);
    }
    forall i: nat | Change(samples, i, j)
      ensures LastOnOff(samples, j) == samples[i]
    {
      Between(samples, i, j);
    }
  }

  lemma {:induction false} Between(samples: seq<int>, i: nat, n: nat)
    requires i < n <= |samples| && OnOff(samples[i]) && forall k :: i < k < n ==> !OnOff(samples[k])
    ensures LastOnOff(samples, n) == samples[i]
  {
    if i < n - 1 {
      Between(samples, i, n - 1);
    }
  }

  /** The changes that end between samples i and j, and those of them that are hidden. */
  function Changes(samples: seq<int>, i: nat, j: nat): nat
    requires j <= |samples|
  {
    if j <= i + 1 then 0 else Changes(samples, i, j - 1) + if Ends(samples, j - 1) then 1 else 0
  }

  function HiddenChanges(samples: seq<int>, i: nat, j: nat): (r: nat)
    requires j <= |samples|
    ensures r <= Changes(samples, i, j)
  {
    if j <= i + 1 then 0 else HiddenChanges(samples, i, j - 1) + if EndsHidden(samples, j - 1) then 1 else 0
  }

  /** After an even number of changes the state is as it was. */
  lemma {:induction false} ParityTellsState(samples: seq<int>, i: nat, n: nat)
    requires i < n <= |samples| && OnOff(samples[i])
    ensures OnOff(LastOnOff(samples, n))
    ensures LastOnOff(samples, n) == samples[i] <==> Changes(samples, i, n) % 2 == 0
  {
    if i < n - 1 {
      ParityTellsState(samples, i, n - 1);
    }
  }

  /** The monitor is silent exactly if every change is hidden. */
  lemma {:induction false} SilentIff(samples: seq<int>, i: nat, j: nat)
    requires i < j <= |samples|
    ensures (forall k :: i < k < j ==> Callbacks(samples)[k] == None) <==>
            HiddenChanges(samples, i, j) == Changes(samples, i, j)
  {
    if i + 1 < j {
      SilentIff(samples, i, j - 1);
      EndsIff(samples, j - 1);
    }
  }

  /** Two callbacks are equal exactly if an odd number of changes lies between them. */
  lemma {:induction false} CallbacksEqualIff(samples: seq<int>, i: nat, j: nat)
    requires i < j < |samples| && Callbacks(samples)[i] != None && Callbacks(samples)[j] != None
    ensures Callbacks(samples)[i] == Callbacks(samples)[j] <==> Changes(samples, i, j) % 2 == 1
  {
    ParityTellsState(samples, i, j);
    assert LastOnOff(samples, j) == samples[j - 1];
  }

  /** So restarts and disconnections alternate exactly as far as changes are not hidden: two
      neighbouring callbacks are equal exactly if an odd number of hidden changes lies
      between them. */
  lemma {:induction false} NeighboursEqualIff(samples: seq<int>, i: nat, j: nat)
    requires i < j < |samples| && Callbacks(samples)[i] != None && Callbacks(samples)[j] != None
    requires forall k :: i < k < j ==> Callbacks(samples)[k] == None
    ensures Callbacks(samples)[i] == Callbacks(samples)[j] <==> HiddenChanges(samples, i, j) % 2 == 1
  {
    CallbacksEqualIff(samples, i, j);
    SilentIff(samples, i, j);
  }

  predicate AllOnOff(samples: seq<int>, i: nat, j: nat) {
    forall k :: i <= k < j && k < |samples| ==> OnOff(samples[k])
  }

  /** In particular, while only STOP and START are sampled, a change of state leaves its
      callback, */
  lemma {:induction false} ChangeIsReported(samples: seq<int>, i: nat, j: nat)
    requires i < j < |samples| && AllOnOff(samples, i, j + 1) && samples[i] != samples[j]
    ensures exists k :: i < k <= j && Callbacks(samples)[k] == ChangeFrom(samples[i])
  {
    if samples[j - 1] == samples[i] {
      ChangeReportedIff(samples, j - 1, j);
    } else {
      ChangeIsReported(samples, i, j - 1);
    }
  }

  /** and equal callbacks have another one between them. */
  lemma {:induction false} CallbacksAlternate(samples: seq<int>, i: nat, j: nat)
    requires i < j < |samples| && AllOnOff(samples, i, j)
    requires Callbacks(samples)[i] == Callbacks(samples)[j] != None
    ensures exists k :: i < k < j && Callbacks(samples)[k] != None && Callbacks(samples)[k] != Callbacks(samples)[i]
  {
    ChangeIsReported(samples, i, j - 1);
  }

  /** The smallest run with a hidden change: CHRE is sampled as UNINIT on its way down, so
      two restarts follow each other with no disconnection reported. */
  lemma {:induction false} UninitHidesADisconnection()
    ensures Callbacks([SCP_CHRE_STOP, SCP_CHRE_START, SCP_CHRE_UNINIT, SCP_CHRE_STOP, SCP_CHRE_START])
         == [None, Restarted, None, None, Restarted]
  {
  }
}
