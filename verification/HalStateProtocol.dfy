/** The open/close protocol of the Bluetooth HAL. Any number of binder threads call
    `initialize`, `close` and `send`. The mutex guards only the single accesses to mState, so it
    is the value of mState that keeps the threads apart.

    A thread is at a program counter between two atomic steps. A step is a critical
    section on mStateMutex or one access to the global vendor interface pointer. */
module HalStateProtocol {

  type Tid = nat

  datatype HalState = READY | INITIALIZING | ONE_CLIENT | CLOSING

  datatype Pc =
    | Outside
    | Refused          // initialize saw another state than READY: it calls close next
    | BeforeOpen       // in initialize: before VendorInterface::Initialize
    | Opening          // in VendorInterface::Initialize: the interface exists, Open runs
    | OpenFailed       // in initialize: before Shutdown
    | OpenFailedInside // in initialize: inside Shutdown
    | OpenGivenUp      // in initialize: before the state goes back to READY
    | Opened           // in initialize: before the state becomes ONE_CLIENT
    | BeforeShutdown   // in close: before Shutdown
    | InsideShutdown   // in close: inside Shutdown
    | AfterShutdown    // in close: before the state goes back to READY
    | Sending(interface: nat)  // in send: the call on the interface that get() has returned

  /** What happens to the vendor interface, and what must never happen. */
  datatype Event = Created | Deleted | NoVendorInterface | NoPreviousShutdown

  datatype System = System(mState: HalState, vendor: bool, pcs: map<Tid, Pc>, log: seq<Event>)
  {
    function At(t: Tid): Pc {
      if t in pcs then pcs[t] else Outside
    }

    function Goto(t: Tid, pc: Pc): System {
      this.(pcs := pcs[t := pc])
    }

    /** What get() returns: each interface is named by the length of the log at its creation,
        and 0 is the null pointer. */
    function Current(): nat {
      if vendor then |log| else 0
    }

    function Note(e: Event): System {
      this.(log := log + [e])
    }
  }

  /** What a thread outside decides to call, and how Open ends. */
  datatype Choice = CallInitialize | CallClose | CallSend | OpenSucceeds | OpenFails

  const START := System(READY, false, map[], [])

  /** The next atomic step of thread t. */
  function Next(s: System, t: Tid, c: Choice): System {
    match s.At(t)
    case Outside =>
      if c.CallInitialize? then
        if s.mState == READY then s.(mState := INITIALIZING).Goto(t, BeforeOpen) else s.Goto(t, Refused)
      else if c.CallClose? then EnterClose(s, t)
      else if c.CallSend? then s.Goto(t, Sending(s.Current()))
      else s
    case Refused => EnterClose(s, t)
    case BeforeOpen =>
      if s.vendor then s.Note(NoPreviousShutdown).Goto(t, OpenFailed)
      else s.(vendor := true).Note(Created).Goto(t, Opening)
    case Opening => s.Goto(t, if c.OpenSucceeds? then Opened else OpenFailed)
    case OpenFailed => EnterShutdown(s, t, OpenFailedInside)
    case OpenFailedInside => s.(vendor := false).Note(Deleted).Goto(t, OpenGivenUp)
    case OpenGivenUp => s.(mState := READY).Goto(t, Outside)
    case Opened => s.(mState := ONE_CLIENT).Goto(t, Outside)
    case BeforeShutdown => EnterShutdown(s, t, InsideShutdown)
    case InsideShutdown => s.(vendor := false).Note(Deleted).Goto(t, AfterShutdown)
    case AfterShutdown => s.(mState := READY).Goto(t, Outside)
    case Sending(_) => s.Goto(t, Outside)
  }

  /** The critical section at the start of close. */
  function EnterClose(s: System, t: Tid): System {
    if s.mState != ONE_CLIENT then s.Goto(t, Outside) else s.(mState := CLOSING).Goto(t, BeforeShutdown)
  }

  /** LOG_ALWAYS_FATAL_IF at the start of Shutdown. */
  function EnterShutdown(s: System, t: Tid, inside: Pc): System {
    if !s.vendor then s.Note(NoVendorInterface) else s.Goto(t, inside)
  }

  function Run(s: System, schedule: seq<(Tid, Choice)>): System {
    if schedule == [] then s
    else
      var last := schedule[|schedule| - 1];
      Next(Run(s, schedule[..|schedule| - 1]), last.0, last.1)
  }

  predicate InInitialize(pc: Pc) {
    pc in {BeforeOpen, Opening, OpenFailed, OpenFailedInside, OpenGivenUp, Opened}
  }

  predicate InClose(pc: Pc) {
    pc in {BeforeShutdown, InsideShutdown, AfterShutdown}
  }

  /** The thread is between VendorInterface::Initialize or Shutdown and its end. */
  predicate TouchesVendor(pc: Pc) {
    InInitialize(pc) || InClose(pc)
  }

  /** The vendor interface exists exactly at these points of the thread that owns it. */
  predicate VendorAt(pc: Pc) {
    pc in {Opening, OpenFailed, OpenFailedInside, Opened, BeforeShutdown, InsideShutdown}
  }

  ghost predicate Exclusive(s: System) {
    forall t, u :: TouchesVendor(s.At(t)) && TouchesVendor(s.At(u)) ==> t == u
  }

  /** Creations and deletions alternate, and nothing else is in the log. */
  predicate Alternates(log: seq<Event>, vendor: bool) {
    && (forall i :: 0 <= i < |log| ==> log[i] == if i % 2 == 0 then Created else Deleted)
    && vendor == (|log| % 2 == 1)
  }

  /** The thread that initialize or close has let in, if there is one. */
  datatype Owner = Nobody | Somebody(t: Tid)

  ghost predicate Inv(s: System, o: Owner) {
    Alternates(s.log, s.vendor) && Owned(s, o)
  }

  /** The owner alone is inside, and mState and the interface are as its place demands. */
  ghost predicate Owned(s: System, o: Owner) {
    && (forall t :: TouchesVendor(s.At(t)) <==> o == Somebody(t))
    && match o {
         case Nobody => s.mState == (if s.vendor then ONE_CLIENT else READY)
         case Somebody(t) =>
           && s.mState == (if InInitialize(s.At(t)) then INITIALIZING else CLOSING)
           && s.vendor == VendorAt(s.At(t))
       }
  }

  function NextOwner(s: System, o: Owner, t: Tid, c: Choice): Owner {
    if TouchesVendor(Next(s, t, c).At(t)) then Somebody(t)
    else if o == Somebody(t) then Nobody
    else o
  }

  /** A step by the owner. */
  lemma {:induction false} OwnerStep(s: System, t: Tid, c: Choice)
    requires Owned(s, Somebody(t))
    ensures Owned(Next(s, t, c), NextOwner(s, Somebody(t), t, c))
  {
    assert forall u :: u != t ==> Next(s, t, c).At(u) == s.At(u);
  }

  /** A step by any other thread, which may become the owner. */
  lemma {:induction false} OtherStep(s: System, o: Owner, t: Tid, c: Choice)
    requires Owned(s, o) && !TouchesVendor(s.At(t))
    ensures Owned(Next(s, t, c), NextOwner(s, o, t, c))
  {
    assert forall u :: u != t ==> Next(s, t, c).At(u) == s.At(u);
    if o.Somebody? {
      assert TouchesVendor(s.At(o.t));
    }
  }

  lemma {:induction false} StepKeepsOwned(s: System, o: Owner, t: Tid, c: Choice)
    requires Owned(s, o)
    ensures Owned(Next(s, t, c), NextOwner(s, o, t, c))
  {
    if TouchesVendor(s.At(t)) {
      OwnerStep(s, t, c);
    } else {
      OtherStep(s, o, t, c);
    }
  }

  /** A step logs nothing, or a creation when there is no interface, or a deletion. */
  lemma {:induction false} StepLogs(s: System, o: Owner, t: Tid, c: Choice)
    requires Owned(s, o)
    ensures var n := Next(s, t, c);
      || (n.log == s.log && n.vendor == s.vendor)
      || (n.log == s.log + [Created] && !s.vendor && n.vendor)
      || (n.log == s.log + [Deleted] && s.vendor && !n.vendor)
  {
    if o.Somebody? && o.t != t {
      assert !TouchesVendor(s.At(t));
    }
  }

  lemma {:induction false} StepKeepsInv(s: System, o: Owner, t: Tid, c: Choice)
    requires Inv(s, o)
    ensures Inv(Next(s, t, c), NextOwner(s, o, t, c))
  {
    StepKeepsOwned(s, o, t, c);
    StepLogs(s, o, t, c);
  }

  lemma {:induction false} RunKeepsInv(schedule: seq<(Tid, Choice)>) returns (o: Owner)
    ensures Inv(Run(START, schedule), o)
  {
    if schedule == [] {
      o := Nobody;
    } else {
      var before := RunKeepsInv(schedule[..|schedule| - 1]);
      var s, last := Run(START, schedule[..|schedule| - 1]), schedule[|schedule| - 1];
      StepKeepsInv(s, before, last.0, last.1);
      o := NextOwner(s, before, last.0, last.1);
    }
  }

  /** Any number of threads, any interleaving: at most one thread is inside
      VendorInterface::Initialize or Shutdown, mState tells whether the interface exists,
      the interface is created and deleted in turn, and neither impossible branch is ever
      taken. */
  lemma {:induction false} MutualExclusion(schedule: seq<(Tid, Choice)>)
    ensures var s := Run(START, schedule);
      && Exclusive(s)
      && (s.mState == READY ==> !s.vendor)
      && (s.mState == ONE_CLIENT ==> s.vendor)
      && NoVendorInterface !in s.log && NoPreviousShutdown !in s.log
      && Alternates(s.log, s.vendor)
  {
    var o := RunKeepsInv(schedule);
  }

  /** mState is INITIALIZING or CLOSING exactly while some thread is on its way through
      initialize or close. */
  lemma {:induction false} StateTellsOwner(schedule: seq<(Tid, Choice)>)
    ensures var s := Run(START, schedule);
      && (s.mState == INITIALIZING <==> exists t :: InInitialize(s.At(t)))
      && (s.mState == CLOSING <==> exists t :: InClose(s.At(t)))
  {
    var o := RunKeepsInv(schedule);
    var s := Run(START, schedule);
    if o.Somebody? {
      assert TouchesVendor(s.At(o.t));
    }
  }

  /** How many steps the owner has left at most. */
  function Remaining(pc: Pc): nat {
    match pc
    case Outside | Refused | Sending(_) => 0
    case OpenGivenUp | Opened | AfterShutdown => 1
    case OpenFailedInside | InsideShutdown => 2
    case OpenFailed | BeforeShutdown => 3
    case Opening => 4
    case BeforeOpen => 5
  }

  /** No deadlock: in every reachable state the owner can step, every step brings it nearer
      to its end, and its end leaves READY or ONE_CLIENT. */
  lemma {:induction false} OwnerAdvances(schedule: seq<(Tid, Choice)>, t: Tid, c: Choice)
    requires TouchesVendor(Run(START, schedule).At(t))
    ensures var s := Run(START, schedule); var n := Next(s, t, c);
      && Remaining(n.At(t)) < Remaining(s.At(t))
      && (Remaining(n.At(t)) == 0 ==> n.mState in {READY, ONE_CLIENT})
  {
    var o := RunKeepsInv(schedule);
  }

  lemma {:induction false} StepOfOther(s: System, o: Owner, t: Tid, u: Tid, c: Choice)
    requires Owned(s, o) && TouchesVendor(s.At(t)) && u != t
    ensures var n := Next(s, u, c);
      n.At(t) == s.At(t) && n.mState == s.mState && n.vendor == s.vendor && n.log == s.log
  {
    assert !TouchesVendor(s.At(u));
  }

  /** No interference: while one thread is the owner, the steps of the others change
      neither mState nor the vendor interface nor where the owner is. */
  lemma {:induction false} OthersWait(schedule: seq<(Tid, Choice)>, t: Tid, u: Tid, c: Choice)
    requires TouchesVendor(Run(START, schedule).At(t)) && u != t
    ensures var s := Run(START, schedule); var n := Next(s, u, c);
      n.At(t) == s.At(t) && n.mState == s.mState && n.vendor == s.vendor && n.log == s.log
  {
    var o := RunKeepsInv(schedule);
    StepOfOther(Run(START, schedule), o, t, u, c);
  }

  /** get() finds an interface exactly in ONE_CLIENT, and at some points of the thread that is
      on its way through initialize or close. */
  lemma {:induction false} GetFindsIff(schedule: seq<(Tid, Choice)>)
    ensures var s := Run(START, schedule);
      s.Current() != 0 <==> s.mState == ONE_CLIENT || exists t :: VendorAt(s.At(t))
  {
    var o := RunKeepsInv(schedule);
    var s := Run(START, schedule);
    if o.Somebody? {
      assert TouchesVendor(s.At(o.t));
    }
  }

  /** The interface that thread t has in hand is still there. */
  predicate Meets(s: System, t: Tid) {
    s.At(t).Sending? && s.At(t).interface != 0 && s.At(t).interface == s.Current()
  }

  /** The next step of thread t deletes the interface. */
  predicate Deletes(s: System, t: Tid) {
    s.At(t) in {InsideShutdown, OpenFailedInside}
  }

  /** A step between the two halves of the send of thread t. */
  lemma {:induction false} StepOfSend(s: System, o: Owner, t: Tid, u: Tid, c: Choice)
    requires Inv(s, o) && s.At(t).Sending? && s.At(t).interface <= |s.log| && u != t
    ensures var n := Next(s, u, c);
      && n.At(t) == s.At(t) && n.At(t).interface <= |n.log|
      && (Meets(n, t) <==> Meets(s, t) && !Deletes(s, u))
  {
    StepLogs(s, o, u, c);
    StepKeepsInv(s, o, u, c);
    assert TouchesVendor(s.At(u)) ==> o == Somebody(u);
  }

  /** Some step of the schedule deletes the interface. */
  predicate DeletedDuring(s: System, schedule: seq<(Tid, Choice)>) {
    if schedule == [] then false
    else
      var before := schedule[..|schedule| - 1];
      DeletedDuring(s, before) || Deletes(Run(s, before), schedule[|schedule| - 1].0)
  }

  /** The steps `between` of other threads, from where the send of thread t has called get(). */
  lemma {:induction false} BetweenGetAndCall(s: System, o: Owner, t: Tid, between: seq<(Tid, Choice)>)
    returns (o': Owner)
    requires Inv(s, o) && s.At(t) == Sending(s.Current())
    requires forall step :: step in between ==> step.0 != t
    ensures Inv(Run(s, between), o')
    ensures var b := Run(s, between);
      && b.At(t) == s.At(t) && b.At(t).interface <= |b.log|
      && (Meets(b, t) <==> s.vendor && !DeletedDuring(s, between))
  {
    if between == [] {
      o' := o;
    } else {
      var before, last := between[..|between| - 1], between[|between| - 1];
      assert last in between;
      var was := BetweenGetAndCall(s, o, t, before);
      var a := Run(s, before);
      StepKeepsInv(a, was, last.0, last.1);
      StepOfSend(a, was, t, last.0, last.1);
      o' := NextOwner(a, was, last.0, last.1);
    }
  }

  /** In any run, a send meets a live interface exactly if get() has found one and no other
      thread has deleted it before the call. */
  lemma {:induction false} SendMeetsIff(schedule: seq<(Tid, Choice)>, t: Tid, between: seq<(Tid, Choice)>)
    requires Run(START, schedule).At(t) == Outside
    requires forall step :: step in between ==> step.0 != t
    ensures var a := Run(START, schedule); var got := Next(a, t, CallSend);
      Meets(Run(got, between), t) <==> a.vendor && !DeletedDuring(got, between)
  {
    var o := RunKeepsInv(schedule);
    var a := Run(START, schedule);
    StepKeepsInv(a, o, t, CallSend);
    var _ := BetweenGetAndCall(Next(a, t, CallSend), NextOwner(a, o, t, CallSend), t, between);
  }

  /** n more steps of one thread with nobody in between. */
  function Drive(s: System, t: Tid, c: Choice, n: nat): System
    decreases n
  {
    if n == 0 then s else Drive(Next(s, t, c), t, c, n - 1)
  }

  /** A test of mState before get() would not help: whenever a client is connected, a thread
      outside may close between the get() and the call of another one. */
  lemma {:induction false} ClosedWhileSending(schedule: seq<(Tid, Choice)>, t: Tid, u: Tid, c: Choice)
    requires var s := Run(START, schedule);
      s.mState == ONE_CLIENT && s.At(t) == Outside && s.At(u) == Outside && t != u
    ensures var got := Next(Run(START, schedule), t, CallSend);
      Meets(got, t) && !Meets(Drive(Next(got, u, CallClose), u, c, 2), t)
  {
    var o := RunKeepsInv(schedule);
    var got := Next(Run(START, schedule), t, CallSend);
    var s1 := Next(got, u, CallClose);
    var s2 := Next(s1, u, c);
    var s3 := Next(s2, u, c);
    assert Drive(s1, u, c, 2) == Drive(s2, u, c, 1) == Drive(s3, u, c, 0);
  }

  /** The HAL as one client sees it: the same code without interleaving. */
  class BluetoothHci {
    var mState: HalState
    var vendor: bool
    ghost var visited: seq<HalState>  // the values that mState has taken

    ghost predicate Settled()
      reads this
    {
      mState == if vendor then ONE_CLIENT else READY
    }

    constructor ()
      ensures Settled() && mState == READY && visited == []
    {
      mState, vendor, visited := READY, false, [];
    }

    /** A critical section on mStateMutex that sets the state. */
    method SetState(state: HalState)
      modifies `mState, `visited
      ensures mState == state && visited == old(visited) + [state]
    {
      mState := state;
      visited := visited + [state];
    }

    /** VendorInterface::Initialize; Open leaves the interface behind even when it fails. */
    method VendorInitialize(opens: bool) returns (rc: bool)
      modifies `vendor
      ensures vendor && rc == (!old(vendor) && opens)
    {
      if vendor {
        return false;
      }
      vendor := true;
      return opens;
    }

    method Shutdown()
      requires vendor
      modifies `vendor
      ensures !vendor
    {
      vendor := false;
    }

    method Close()
      requires Settled()
      modifies this
      ensures Settled() && mState == READY
      ensures visited == old(visited) + if old(mState) == ONE_CLIENT then [CLOSING, READY] else []
    {
      if mState != ONE_CLIENT {
        return;
      }
      SetState(CLOSING);
      Shutdown();
      SetState(READY);
    }

    /** initialize. A second client is refused, and costs the first one its session. */
    method Initialize(opens: bool) returns (answer: Answer)
      requires Settled()
      modifies this
      ensures Settled()
      ensures answer == if old(mState) != READY then AlreadyInitialized else if opens then Accepted else BadValue
      ensures mState == ONE_CLIENT <==> answer == Accepted
      ensures visited == old(visited) + match answer {
          case Accepted => [INITIALIZING, ONE_CLIENT]
          case BadValue => [INITIALIZING, READY]
          case AlreadyInitialized => [CLOSING, READY]
        }
    {
      var oldState := READY;
      if mState != READY {
        oldState := mState;
      } else {
        SetState(INITIALIZING);
      }
      if oldState != READY {
        Close();
        return AlreadyInitialized;
      }
      var rc := VendorInitialize(opens);
      if !rc {
        Shutdown();
        SetState(READY);
        return BadValue;
      }
      SetState(ONE_CLIENT);
      return Accepted;
    }
  }

  datatype Answer = Accepted | BadValue | AlreadyInitialized

  /** The atomic steps of initialize, taken without interleaving, do what Initialize does. */
  lemma {:induction false} SoloInitialize(s: System, t: Tid, opens: bool)
    requires Inv(s, Nobody) && s.At(t) == Outside
    ensures var e := Drive(Next(s, t, CallInitialize), t, if opens then OpenSucceeds else OpenFails, 5);
      && e.At(t) == Outside
      && e.mState == (if s.mState == READY && opens then ONE_CLIENT else READY)
      && e.vendor == (e.mState == ONE_CLIENT)
  {
    var c := if opens then OpenSucceeds else OpenFails;
    var s1 := Next(s, t, CallInitialize);
    var s2 := Next(s1, t, c);
    var s3 := Next(s2, t, c);
    var s4 := Next(s3, t, c);
    assert Drive(s1, t, c, 5) == Drive(s4, t, c, 2);
    var s5 := Next(s4, t, c);
    var s6 := Next(s5, t, c);
    assert Drive(s4, t, c, 2) == Drive(s5, t, c, 1) == Drive(s6, t, c, 0);
  }

  /** The atomic steps of close, taken without interleaving, do what Close does. */
  lemma {:induction false} SoloClose(s: System, t: Tid, c: Choice)
    requires Inv(s, Nobody) && s.At(t) == Outside && (c.OpenSucceeds? || c.OpenFails?)
    ensures var e := Drive(Next(s, t, CallClose), t, c, 3);
      e.At(t) == Outside && e.mState == READY && !e.vendor
  {
    var s1 := Next(s, t, CallClose);
    var s2 := Next(s1, t, c);
    var s3 := Next(s2, t, c);
    var s4 := Next(s3, t, c);
    assert Drive(s1, t, c, 3) == Drive(s2, t, c, 2) == Drive(s3, t, c, 1) == Drive(s4, t, c, 0);
  }
}
