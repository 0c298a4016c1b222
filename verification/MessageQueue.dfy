/** The queue between the context hub HAL and CHRE: any number of threads call
    sendMessage, one sender thread waits, takes the front, writes it to the device and
    pops it. Each of these is a critical section of its own, and the write is none. */
module MessageQueue {

  import opened Wrappers

  const MAX_QUEUE_SIZE := 64
  const MAX_PAYLOAD_BYTES := 0x8000

  /** A message, with the thread that sends it. */
  datatype Message = Message(producer: nat, payload: seq<Byte>)

  predicate Sendable(m: Message) {
    0 < |m.payload| <= MAX_PAYLOAD_BYTES
  }

  /** Where the sender is in its loop; `message` is what front has returned. */
  datatype Sender =
    | Waits                      // before waitForMessage
    | Woken                      // before front
    | Holds(message: Message)    // before write
    | Wrote(message: Message)    // before pop

  datatype Call = Call(message: Message, accepted: bool)

  datatype System = System(
    queue: seq<Message>,
    sender: Sender,
    calls: seq<Call>,         // the calls of sendMessage and their answers
    written: seq<Message>,    // what was handed to write, whether or not write succeeded
    popped: seq<Message>)

  datatype Step = Produce(message: Message) | SenderStep

  const START := System([], Waits, [], [], [])

  function Next(s: System, step: Step): System {
    match step
    case Produce(m) =>
      var ok := Sendable(m) && |s.queue| < MAX_QUEUE_SIZE;
      s.(calls := s.calls + [Call(m, ok)], queue := if ok then s.queue + [m] else s.queue)
    case SenderStep =>
      match s.sender
      case Waits => if s.queue != [] then s.(sender := Woken) else s
      case Woken => if s.queue != [] then s.(sender := Holds(s.queue[0])) else s
      case Holds(m) => s.(sender := Wrote(m), written := s.written + [m])
      case Wrote(m) =>
        if s.queue != [] then s.(sender := Waits, popped := s.popped + [s.queue[0]], queue := s.queue[1..]) else s
  }

  function Run(s: System, steps: seq<Step>): System {
    if steps == [] then s else Next(Run(s, steps[..|steps| - 1]), steps[|steps| - 1])
  }

  /** The messages that sendMessage has accepted, in order. */
  function Accepted(calls: seq<Call>): seq<Message> {
    if calls == [] then []
    else Accepted(calls[..|calls| - 1]) + if calls[|calls| - 1].accepted then [calls[|calls| - 1].message] else []
  }

  function InFlight(s: System): seq<Message> {
    if s.sender.Holds? then [s.sender.message] else []
  }

  /** The messages that no write has been started for. */
  function Queued(s: System): seq<Message> {
    if (s.sender.Holds? || s.sender.Wrote?) && s.queue != [] then s.queue[1..] else s.queue
  }

  ghost predicate Inv(s: System) {
    && |s.queue| <= MAX_QUEUE_SIZE
    && Accepted(s.calls) == s.popped + s.queue
    && match s.sender {
         case Waits => s.written == s.popped
         case Woken => s.written == s.popped && s.queue != []
         case Holds(m) => s.written == s.popped && s.queue != [] && s.queue[0] == m
         case Wrote(m) => s.written == s.popped + [m] && s.queue != [] && s.queue[0] == m
       }
  }

  lemma {:induction false} StepKeepsInv(s: System, step: Step)
    requires Inv(s)
    ensures Inv(Next(s, step))
  {
    match step
    case Produce(m) =>
      var calls := Next(s, step).calls;
      assert calls[..|calls| - 1] == s.calls;
      assert s.popped + (s.queue + [m]) == (s.popped + s.queue) + [m];
    case SenderStep =>
      if s.sender.Wrote? {
        assert s.popped + s.queue == (s.popped + [s.queue[0]]) + s.queue[1..];
      }
  }

  lemma {:induction false} RunKeepsInv(steps: seq<Step>)
    ensures Inv(Run(START, steps))
  {
    if steps != [] {
      RunKeepsInv(steps[..|steps| - 1]);
      StepKeepsInv(Run(START, steps[..|steps| - 1]), steps[|steps| - 1]);
    }
  }

  lemma {:induction false} HeadFirst(p: seq<Message>, q: seq<Message>)
    ensures p + [] + q == p + q && (q != [] ==> p + [q[0]] + [] + q[1..] == p + [q[0]] + q[1..] == p + q)
  {
  }

  /** In every interleaving nothing accepted is lost, repeated or reordered: the accepted
      messages are those written, then the one in flight, then those still queued; and
      the queue stays within its bound. */
  lemma {:induction false} DeliveredInOrder(steps: seq<Step>)
    ensures var s := Run(START, steps);
      && Accepted(s.calls) == s.written + InFlight(s) + Queued(s)
      && |s.queue| <= 64
  {
    RunKeepsInv(steps);
    var s := Run(START, steps);
    HeadFirst(s.popped, s.queue);
  }

  /** The element that pop removes is the one that front has returned and write has sent. */
  lemma {:induction false} PopsWhatFrontReturned(steps: seq<Step>)
    requires Run(START, steps).sender.Wrote?
    ensures var s := Run(START, steps); var n := Next(s, SenderStep);
      && n.popped == s.popped + [s.sender.message] == s.written
      && s.queue == [s.sender.message] + n.queue
  {
    RunKeepsInv(steps);
  }

  /** A message is refused exactly when it is empty or longer than 32768 bytes, or the queue
      holds 64, and a refused message changes nothing else. */
  lemma {:induction false} RefusedChangesNothing(steps: seq<Step>, m: Message)
    ensures var s := Run(START, steps); var n := Next(s, Produce(m));
      && n == s.(calls := n.calls, queue := n.queue)
      && (n.queue == s.queue <==> !n.calls[|s.calls|].accepted)
      && (n.calls[|s.calls|].accepted <==> m.payload != [] && |m.payload| <= 32768 && |s.queue| != 64)
  {
    RunKeepsInv(steps);
    assert |Run(START, steps).queue + [m]| != |Run(START, steps).queue|;
  }

  /** The messages of one producer among others. */
  function Of(p: nat, ms: seq<Message>): (r: seq<Message>)
    ensures forall m :: m in r <==> m in ms && m.producer == p
  {
    if ms == [] then [] else Of(p, ms[..|ms| - 1]) + if ms[|ms| - 1].producer == p then [ms[|ms| - 1]] else []
  }

  lemma {:induction false} OfConcat(p: nat, a: seq<Message>, b: seq<Message>)
    ensures Of(p, a + b) == Of(p, a) + Of(p, b)
  {
    if b == [] {
      assert a + b == a;
    } else {
      OfConcat(p, a, b[..|b| - 1]);
      assert (a + b)[..|a + b| - 1] == a + b[..|b| - 1];
    }
  }

  /** For each producer the device is handed its accepted messages in the order of its
      calls, whatever the others do. */
  lemma {:induction false} ProducerOrderKept(steps: seq<Step>, p: nat)
    ensures var s := Run(START, steps); Of(p, s.written) <= Of(p, Accepted(s.calls))
  {
    var s := Run(START, steps);
    DeliveredInOrder(steps);
    OfConcat(p, s.written + InFlight(s), Queued(s));
    OfConcat(p, s.written, InFlight(s));
  }

  /** The sender's steps until the next pop. */
  function Distance(sender: Sender): nat {
    match sender
    case Waits => 4
    case Woken => 3
    case Holds(_) => 2
    case Wrote(_) => 1
  }

  /** No stall: with a message in the queue every step of the sender brings it nearer to a
      pop, no producer's step takes it back, and a queue that the sender has seen filled
      is not empty when it calls front or pop. */
  lemma {:induction false} SenderAdvances(steps: seq<Step>, m: Message)
    ensures var s := Run(START, steps); var n := Next(s, SenderStep);
      && (s.queue != [] ==>
            Distance(n.sender) == Distance(s.sender) - 1 || (s.sender.Wrote? && |n.popped| == |s.popped| + 1))
      && (!s.sender.Waits? ==> s.queue != [])
      && Next(s, Produce(m)).sender == s.sender
  {
    RunKeepsInv(steps);
  }

  /** n steps of the sender with no producer in between. */
  function Drive(s: System, n: nat): System {
    if n == 0 then s else Next(Drive(s, n - 1), SenderStep)
  }

  /** The queue with the two sides that use it. The ghost fields are what the transition
      system says beside the queue; every method is proved to be its step. */
  class SynchronousMessageQueue {
    var mQueue: seq<Message>
    ghost var sender: Sender
    ghost var calls: seq<Call>
    ghost var written: seq<Message>
    ghost var popped: seq<Message>

    ghost function View(): System
      reads this
    {
      System(mQueue, sender, calls, written, popped)
    }

    constructor ()
      ensures View() == START
    {
      mQueue, sender, calls, written, popped := [], Waits, [], [], [];
    }

    method Emplace(m: Message) returns (ok: bool)
      modifies `mQueue
      ensures ok <==> |old(mQueue)| < 64
      ensures mQueue == if ok then old(mQueue) + [m] else old(mQueue)
    {
      if |mQueue| >= MAX_QUEUE_SIZE {
        return false;
      }
      mQueue := mQueue + [m];
      return true;
    }

    /** sendMessage is the step of a producer. */
    method SendMessage(m: Message) returns (ok: bool)
      requires Inv(View())
      modifies this
      ensures Inv(View()) && View() == Next(old(View()), Produce(m))
      ensures calls == old(calls) + [Call(m, ok)]
      ensures ok <==> m.payload != [] && |m.payload| <= 32768 && |old(mQueue)| < 64
      ensures mQueue == if ok then old(mQueue) + [m] else old(mQueue)
    {
      StepKeepsInv(View(), Produce(m));
      if |m.payload| <= 0 || |m.payload| > MAX_PAYLOAD_BYTES {
        ok := false;
      } else {
        ok := Emplace(m);
      }
      calls := calls + [Call(m, ok)];
    }

    /** waitForMessage lets the sender go on only when the queue is not empty. */
    method WaitForMessage() returns (goesOn: bool)
      requires Inv(View()) && sender.Waits?
      modifies `sender
      ensures Inv(View()) && View() == Next(old(View()), SenderStep)
      ensures goesOn == sender.Woken? == (mQueue != [])
    {
      goesOn := mQueue != [];
      if goesOn {
        sender := Woken;
      }
    }

    /** front: the sender has seen a message, so there still is one. */
    method Front() returns (m: Message)
      requires Inv(View()) && sender.Woken?
      modifies `sender
      ensures Inv(View()) && View() == Next(old(View()), SenderStep)
      ensures sender == Holds(m) && mQueue != [] && m == mQueue[0]
    {
      m := mQueue[0];
      sender := Holds(m);
    }

    /** The write to the device, which need not succeed. */
    method Write(m: Message)
      requires Inv(View()) && sender == Holds(m)
      modifies `sender, `written
      ensures Inv(View()) && View() == Next(old(View()), SenderStep)
      ensures written == old(written) + [m] && sender == Wrote(m)
    {
      written := written + [m];
      sender := Wrote(m);
    }

    method Pop()
      requires Inv(View()) && sender.Wrote?
      modifies `mQueue, `sender, `popped
      ensures Inv(View()) && View() == Next(old(View()), SenderStep)
      ensures old(mQueue) == [old(sender).message] + mQueue && sender == Waits
    {
      StepKeepsInv(View(), SenderStep);
      popped := popped + [mQueue[0]];
      mQueue := mQueue[1..];
      sender := Waits;
    }

    /** One turn of messageSenderTask, when nobody interferes. */
    method SenderTurn() returns (sent: bool)
      requires Inv(View()) && sender.Waits?
      modifies this
      ensures Inv(View()) && sender.Waits?
      ensures sent <==> old(mQueue) != []
      ensures View() == if sent then Drive(old(View()), 4) else old(View())
      ensures sent ==> written == old(written) + old(mQueue)[..1] && mQueue == old(mQueue)[1..]
    {
      ghost var start := View();
      sent := WaitForMessage();
      if sent {
        var m := Front();
        Write(m);
        Pop();
        assert View() == Drive(start, 4) by {
          FourSteps(start);
        }
      }
    }
  }

  lemma {:induction false} FourSteps(s: System)
    ensures Drive(s, 4) == Next(Next(Next(Next(s, SenderStep), SenderStep), SenderStep), SenderStep)
  {
    assert Drive(s, 1) == Next(Drive(s, 0), SenderStep);
    assert Drive(s, 2) == Next(Drive(s, 1), SenderStep);
    assert Drive(s, 3) == Next(Drive(s, 2), SenderStep);
    assert Drive(s, 4) == Next(Drive(s, 3), SenderStep);
  }
}
