/** Routing of HCI events in the Bluetooth vendor interface. The vendor library sends
    internal commands with a callback; the Command Complete event that answers the last
    one goes to its callback, every other event goes to the stack. A callback may send
    further commands and may be overtaken by further events while it runs. */
module CommandRouting {

  import opened Wrappers

  const HCI_COMMAND_COMPLETE_EVENT: Byte := 0x0E
  const EVENT_HEADER_SIZE := 2

  /** What a callback does, in order, while it runs. */
  datatype Callback = Callback(actions: seq<Action>)

  datatype Action =
    | Transmit(opcode: nat, callback: Option<Callback>)
    | Incoming(packet: seq<Byte>)

  /** internal_command_event_match: a Command Complete event with this opcode. A packet
      too short to hold an opcode matches nothing. */
  predicate EventMatches(packet: seq<Byte>, opcode: nat) {
    && EVENT_HEADER_SIZE + 2 < |packet|
    && packet[0] == HCI_COMMAND_COMPLETE_EVENT
    && packet[EVENT_HEADER_SIZE + 1] as int + 256 * packet[EVENT_HEADER_SIZE + 2] as int == opcode
  }

  /** A Command Complete event, event code 0x0E, answers the opcode in its fourth and fifth
      byte, the low byte first, whatever its length, packet count and parameters are. */
  lemma {:induction false} AnswersIff(len: Byte, count: Byte, answered: nat, parameters: seq<Byte>, opcode: nat)
    requires answered < 65536
    ensures EventMatches([0x0E, len, count, answered % 256, answered / 256] + parameters, opcode) <==>
            opcode == answered
  {
    assert answered == answered % 256 + 256 * (answered / 256);
  }

  /** No other event answers a command, and no packet without an opcode does. */
  lemma {:induction false} OthersAnswerNothing(packet: seq<Byte>, opcode: nat)
    ensures |packet| < 5 || packet[0] != 0x0E || opcode >= 65536 ==> !EventMatches(packet, opcode)
  {
  }

  /** The n-th command handed to transmit_cb is known by the number n. */
  datatype Entry =
    | Issued(command: nat, opcode: nat, hasCallback: bool)
    | Received(packet: seq<Byte>)
    | ToStack(packet: seq<Byte>)
    | ToCallback(command: nat, packet: seq<Byte>)

  function Commands(log: seq<Entry>): nat {
    if log == [] then 0 else Commands(log[..|log| - 1]) + if log[|log| - 1].Issued? then 1 else 0
  }

  /** The command whose callback waits, and its opcode: the last one issued, if it has a
      callback that has not been called. */
  function Waiting(log: seq<Entry>): Option<(nat, nat)> {
    if log == [] then None
    else match log[|log| - 1]
      case Issued(n, opcode, hasCallback) => if hasCallback then Some((n, opcode)) else None
      case ToCallback(_, _) => None
      case _ => Waiting(log[..|log| - 1])
  }

  predicate Claims(waiting: Option<(nat, nat)>, packet: seq<Byte>) {
    waiting.Some? && EventMatches(packet, waiting.value.1)
  }

  predicate Allowed(before: seq<Entry>, e: Entry) {
    match e
    case Issued(n, _, _) => n == Commands(before) && (before == [] || !before[|before| - 1].Received?)
    case Received(_) => before == [] || !before[|before| - 1].Received?
    case ToStack(packet) =>
      before != [] && before[|before| - 1] == Received(packet) && !Claims(Waiting(before), packet)
    case ToCallback(n, packet) =>
      && before != [] && before[|before| - 1] == Received(packet)
      && Claims(Waiting(before), packet) && Waiting(before).value.0 == n
  }

  /** Every entry is what the ones before it call for. */
  predicate Routed(log: seq<Entry>) {
    forall i {:trigger Allowed(log[..i], log[i])} :: 0 <= i < |log| ==> Allowed(log[..i], log[i])
  }

  lemma {:induction false} Append(log: seq<Entry>, e: Entry)
    ensures Commands(log + [e]) == Commands(log) + if e.Issued? then 1 else 0
    ensures Waiting(log + [e]) == match e {
        case Issued(n, opcode, hasCallback) => if hasCallback then Some((n, opcode)) else None
        case ToCallback(_, _) => None
        case _ => Waiting(log)
      }
    ensures Routed(log) && Allowed(log, e) ==> Routed(log + [e])
  {
    assert (log + [e])[..|log|] == log;
    forall i | 0 <= i < |log|
      ensures (log + [e])[..i] == log[..i]
    {
    }
  }

  function Weight(actions: seq<Action>): nat {
    if actions == [] then 0 else Weight(actions[..|actions| - 1]) + ActionWeight(actions[|actions| - 1])
  }

  function ActionWeight(a: Action): (w: nat)
    ensures 0 < w
  {
    match a
    case Transmit(_, Some(callback)) => 2 + Weight(callback.actions)
    case _ => 1
  }

  /** The global internal_command and the history. */
  datatype Router = Router(callback: Option<Callback>, opcode: nat, log: seq<Entry>)
  {
    function Load(): nat {
      if callback.Some? then 1 + Weight(callback.value.actions) else 0
    }

    function Log(e: Entry): Router {
      this.(log := log + [e])
    }
  }

  /** The log is routed as it should be, no event is still in hand, and the global is what
      the log says. */
  ghost predicate Consistent(r: Router) {
    && Routed(r.log)
    && (r.log == [] || !r.log[|r.log| - 1].Received?)
    && (r.callback.Some? <==> Waiting(r.log).Some?)
    && (r.callback.Some? ==> Waiting(r.log).value.1 == r.opcode)
  }

  /** transmit_cb */
  function Issue(r: Router, opcode: nat, callback: Option<Callback>): Router {
    Router(callback, opcode, r.log + [Issued(Commands(r.log), opcode, callback.Some?)])
  }

  predicate Takes(r: Router, packet: seq<Byte>) {
    r.callback.Some? && EventMatches(packet, r.opcode)
  }

  /** The event has reached its consumer, and a callback that takes it no longer waits. */
  function Accept(r: Router, packet: seq<Byte>): Router {
    if Takes(r, packet) then
      var command := if Waiting(r.log).Some? then Waiting(r.log).value.0 else 0;
      r.(callback := None).Log(Received(packet)).Log(ToCallback(command, packet))
    else
      r.Log(Received(packet)).Log(ToStack(packet))
  }

  lemma {:induction false} IssueKeeps(r: Router, opcode: nat, callback: Option<Callback>)
    requires Consistent(r)
    ensures Consistent(Issue(r, opcode, callback))
  {
    Append(r.log, Issued(Commands(r.log), opcode, callback.Some?));
  }

  /** An event and its delivery, `mid` being the log between them. */
  lemma {:induction false} Deliver(log: seq<Entry>, mid: seq<Entry>, packet: seq<Byte>, e: Entry)
    requires Routed(log) && (log == [] || !log[|log| - 1].Received?) && mid == log + [Received(packet)]
    requires e == if Claims(Waiting(log), packet) then ToCallback(Waiting(log).value.0, packet) else ToStack(packet)
    ensures Routed(mid + [e])
    ensures Waiting(mid + [e]) == if e.ToCallback? then None else Waiting(log)
  {
    Append(log, Received(packet));
    assert mid[|mid| - 1] == Received(packet) && Waiting(mid) == Waiting(log);
    Append(mid, e);
  }

  lemma {:induction false} AcceptKeeps(r: Router, packet: seq<Byte>)
    requires Consistent(r)
    ensures Consistent(Accept(r, packet))
  {
    if Takes(r, packet) {
      Deliver(r.log, r.log + [Received(packet)], packet, ToCallback(Waiting(r.log).value.0, packet));
    } else {
      Deliver(r.log, r.log + [Received(packet)], packet, ToStack(packet));
    }
  }

  /** What an incoming event leads to, with everything that its callback does in turn. */
  function Handle(r: Router, packet: seq<Byte>): (q: Router)
    ensures q.Load() <= r.Load()
    decreases r.Load(), 1
  {
    if Takes(r, packet) then Perform(Accept(r, packet), r.callback.value.actions) else Accept(r, packet)
  }

  /** The actions of a callback, one after the other. */
  function Perform(r: Router, actions: seq<Action>): (q: Router)
    ensures q.Load() <= r.Load() + Weight(actions)
    decreases r.Load() + Weight(actions), 0
  {
    if actions == [] then r
    else
      var s := Perform(r, actions[..|actions| - 1]);
      match actions[|actions| - 1]
      case Transmit(opcode, callback) => Issue(s, opcode, callback)
      case Incoming(packet) => Handle(s, packet)
  }

  lemma {:induction false} HandleKeeps(r: Router, packet: seq<Byte>)
    requires Consistent(r)
    ensures Consistent(Handle(r, packet))
    decreases r.Load(), 1
  {
    AcceptKeeps(r, packet);
    if Takes(r, packet) {
      PerformKeeps(Accept(r, packet), r.callback.value.actions);
    }
  }

  lemma {:induction false} PerformKeeps(r: Router, actions: seq<Action>)
    requires Consistent(r)
    ensures Consistent(Perform(r, actions))
    decreases r.Load() + Weight(actions), 0
  {
    if actions != [] {
      var init, last := actions[..|actions| - 1], actions[|actions| - 1];
      PerformKeeps(r, init);
      var s := Perform(r, init);
      match last {
        case Transmit(opcode, callback) => IssueKeeps(s, opcode, callback);
        case Incoming(packet) => HandleKeeps(s, packet);
      }
    }
  }

  /** Every run, from the start of a session, is routed as it should be: the inputs are the
      commands of the vendor library and the events of the controller, in any order. */
  lemma {:induction false} RunIsRouted(inputs: seq<Action>)
    ensures Routed(Perform(Router(None, 0, []), inputs).log)
  {
    PerformKeeps(Router(None, 0, []), inputs);
  }

  lemma {:induction false} InTurn(r: Router, first: Action, second: Action)
    ensures Perform(r, [first, second]) == Perform(Perform(r, [first]), [second])
  {
    assert [first, second][..1] == [first] && [second][..0] == [];
  }

  /** A command with a callback, and the next event: if it answers, the callback gets it and
      does what it has to do, and otherwise the stack gets it and the callback goes on waiting. */
  lemma {:induction false} NextEvent(r: Router, opcode: nat, callback: Callback, packet: seq<Byte>)
    ensures var n := Commands(r.log);
      Perform(r, [Transmit(opcode, Some(callback)), Incoming(packet)]) ==
      if EventMatches(packet, opcode) then
        Perform(Router(None, opcode, r.log + [Issued(n, opcode, true), Received(packet), ToCallback(n, packet)]),
                callback.actions)
      else
        Router(Some(callback), opcode, r.log + [Issued(n, opcode, true), Received(packet), ToStack(packet)])
  {
    var n, issued := Commands(r.log), Issue(r, opcode, Some(callback));
    InTurn(r, Transmit(opcode, Some(callback)), Incoming(packet));
    Append(r.log, Issued(n, opcode, true));
    var log := r.log + [Issued(n, opcode, true)];
    assert log + [Received(packet)] + [ToStack(packet)]
        == r.log + [Issued(n, opcode, true), Received(packet), ToStack(packet)];
    assert log + [Received(packet)] + [ToCallback(n, packet)]
        == r.log + [Issued(n, opcode, true), Received(packet), ToCallback(n, packet)];
  }

  /** A command without a callback: its answer goes to the stack, as any event does. */
  lemma {:induction false} NoCallback(r: Router, opcode: nat, packet: seq<Byte>)
    ensures Perform(r, [Transmit(opcode, None), Incoming(packet)]) ==
            Router(None, opcode, r.log + [Issued(Commands(r.log), opcode, false), Received(packet), ToStack(packet)])
  {
    var n, issued := Commands(r.log), Issue(r, opcode, None);
    InTurn(r, Transmit(opcode, None), Incoming(packet));
    assert r.log + [Issued(n, opcode, false)] + [Received(packet)] + [ToStack(packet)]
        == r.log + [Issued(n, opcode, false), Received(packet), ToStack(packet)];
  }

  lemma {:induction false} WeightAppend(a: seq<Action>, b: seq<Action>)
    ensures Weight(a + b) == Weight(a) + Weight(b)
  {
    if b == [] {
      assert a + b == a;
    } else {
      WeightAppend(a, b[..|b| - 1]);
      assert (a + b)[..|a + b| - 1] == a + b[..|b| - 1];
    }
  }

  /** What one action leads to, and what has to be done because of it. */
  datatype Effect = Effect(router: Router, next: seq<Action>)

  function One(r: Router, a: Action): (e: Effect)
    ensures e.router.Load() + Weight(e.next) < r.Load() + ActionWeight(a)
  {
    match a
    case Transmit(opcode, callback) => Effect(Issue(r, opcode, callback), [])
    case Incoming(packet) => Effect(Accept(r, packet), if Takes(r, packet) then r.callback.value.actions else [])
  }

  lemma {:induction false} WeightFront(todo: seq<Action>, next: seq<Action>)
    requires todo != []
    ensures Weight(todo) == ActionWeight(todo[0]) + Weight(todo[1..])
    ensures Weight(next + todo[1..]) == Weight(next) + Weight(todo[1..])
  {
    WeightAppend([todo[0]], todo[1..]);
    WeightAppend(next, todo[1..]);
    assert todo == [todo[0]] + todo[1..] && [todo[0]][..0] == [];
  }

  /** The same without re-entrance: a list of things to do, in front of which go the actions
      of each callback that is called. */
  ghost function Work(r: Router, todo: seq<Action>): Router
    decreases r.Load() + Weight(todo)
  {
    if todo == [] then r
    else
      var e := One(r, todo[0]);
      WeightFront(todo, e.next);
      Work(e.router, e.next + todo[1..])
  }

  lemma {:induction false} WorkStep(r: Router, todo: seq<Action>, first: Action, rest: seq<Action>)
    requires todo == [first] + rest
    ensures Work(r, todo) == Work(One(r, first).router, One(r, first).next + rest)
  {
    assert todo[1..] == rest;
  }

  lemma {:induction false} Fronts(first: Action, rest: seq<Action>, a: seq<Action>, b: seq<Action>, next: seq<Action>)
    requires a != [] && first == a[0] && rest == a[1..]
    ensures a == [first] + rest && a + b == [first] + (rest + b) && next + (rest + b) == (next + rest) + b
  {
  }

  lemma {:induction false} WorkAppend(r: Router, a: seq<Action>, b: seq<Action>, mid: Router, end: Router)
    requires mid == Work(r, a) && end == Work(mid, b)
    ensures Work(r, a + b) == end
    decreases r.Load() + Weight(a)
  {
    if a == [] {
      assert a + b == b;
    } else {
      var first, rest := a[0], a[1..];
      var e := One(r, first);
      WeightFront(a, e.next);
      Fronts(first, rest, a, b, e.next);
      WorkStep(r, a, first, rest);
      WorkStep(r, a + b, first, rest + b);
      WorkAppend(e.router, e.next + rest, b, mid, end);
    }
  }

  lemma {:induction false} WorkOne(r: Router, a: Action)
    ensures Work(r, [a]) == Work(One(r, a).router, One(r, a).next)
  {
    WeightFront([a], One(r, a).next);
    assert One(r, a).next + [a][1..] == One(r, a).next;
  }

  /** Callbacks that run inside one another do what the list does. */
  lemma {:induction false} PerformIsWork(r: Router, actions: seq<Action>)
    ensures Perform(r, actions) == Work(r, actions)
    decreases r.Load() + Weight(actions)
  {
    if actions != [] {
      var init, last := actions[..|actions| - 1], actions[|actions| - 1];
      PerformIsWork(r, init);
      var s := Perform(r, init);
      WorkAppend(r, init, [last], s, Work(s, [last]));
      assert actions == init + [last];
      WorkOne(s, last);
      PerformIsWork(One(s, last).router, One(s, last).next);
    }
  }

  /** HandleIncomingEvent and transmit_cb, with the global internal_command. */
  class VendorInterface {
    var callback: Option<Callback>  // internal_command.cb
    var opcode: nat                 // internal_command.opcode
    ghost var log: seq<Entry>

    ghost function View(): Router
      reads this
    {
      Router(callback, opcode, log)
    }

    ghost predicate Valid()
      reads this
    {
      Consistent(View())
    }

    constructor ()
      ensures Valid() && log == []
    {
      callback, opcode, log := None, 0, [];
    }

    method TransmitCb(opcode: nat, callback: Option<Callback>)
      requires Valid()
      modifies this
      ensures Valid() && View() == Issue(old(View()), opcode, callback)
    {
      IssueKeeps(View(), opcode, callback);
      this.callback := callback;
      this.opcode := opcode;
      log := log + [Issued(Commands(log), opcode, callback.Some?)];
    }

    /** The command that waits is forgotten before its callback runs, since what that callback
        sends may wait in its place. */
    method HandleIncomingEvent(packet: seq<Byte>)
      requires Valid()
      modifies this
      ensures Valid() && View() == Handle(old(View()), packet)
      decreases View().Load(), 1
    {
      AcceptKeeps(View(), packet);
      ghost var accepted := Accept(View(), packet);
      if callback.Some? && EventMatches(packet, opcode) {
        var savedCb := callback.value;
        callback := None;
        log := accepted.log;
        Call(savedCb.actions);
      } else {
        log := accepted.log;
      }
    }

    /** A callback at work. */
    method Call(actions: seq<Action>)
      requires Valid()
      modifies this
      ensures Valid() && View() == Perform(old(View()), actions)
      decreases View().Load() + Weight(actions), 0
    {
      for i := 0 to |actions|
        invariant Valid() && View() == Perform(old(View()), actions[..i])
      {
        assert actions[..i + 1][..i] == actions[..i];
        WeightGrows(actions, i + 1);
        match actions[i] {
          case Transmit(opcode, callback) => TransmitCb(opcode, callback);
          case Incoming(packet) => HandleIncomingEvent(packet);
        }
      }
      assert actions[..|actions|] == actions;
    }
  }

  lemma {:induction false} WeightGrows(actions: seq<Action>, n: nat)
    requires n <= |actions|
    ensures Weight(actions[..n]) <= Weight(actions)
  {
    if n < |actions| {
      WeightGrows(actions[..|actions| - 1], n);
      assert actions[..|actions| - 1][..n] == actions[..n];
    } else {
      assert actions[..n] == actions;
    }
  }

  predicate IsDelivery(e: Entry) {
    e.ToStack? || e.ToCallback?
  }

  /** Exactly one consumer: an event that came in is delivered next, unchanged, to the
      stack or to one callback, and nothing is delivered that did not just come in. */
  lemma {:induction false} ExactlyOneConsumer(log: seq<Entry>, i: nat)
    requires Routed(log) && i + 1 < |log|
    ensures log[i].Received? <==> IsDelivery(log[i + 1])
    ensures log[i].Received? ==> log[i + 1].packet == log[i].packet
  {
    assert Allowed(log[..i + 1], log[i + 1]);
  }

  /** The command that waits was issued, and since then no command was issued and no
      callback called. */
  lemma {:induction false} WaitingSince(log: seq<Entry>) returns (k: nat)
    requires Waiting(log).Some?
    ensures k < |log| && log[k] == Issued(Waiting(log).value.0, Waiting(log).value.1, true)
    ensures forall m :: k < m < |log| ==> !log[m].Issued? && !log[m].ToCallback?
  {
    var n := |log| - 1;
    if log[n].Issued? {
      k := n;
    } else {
      k := WaitingSince(log[..n]);
    }
  }

  lemma {:induction false} WaitingPersists(log: seq<Entry>, k: nat)
    requires k < |log| && log[k].Issued? && log[k].hasCallback
    requires forall m :: k < m < |log| ==> !log[m].Issued? && !log[m].ToCallback?
    ensures Waiting(log) == Some((log[k].command, log[k].opcode))
  {
    if k < |log| - 1 {
      WaitingPersists(log[..|log| - 1], k);
    }
  }

  lemma {:induction false} CommandsGrow(log: seq<Entry>, i: nat, j: nat)
    requires i <= j <= |log|
    ensures Commands(log[..i]) <= Commands(log[..j])
    decreases j
  {
    if i < j {
      CommandsGrow(log, i, j - 1);
      assert log[..j][..j - 1] == log[..j - 1];
    }
  }

  /** A command is issued once. */
  lemma {:induction false} IssuedOnce(log: seq<Entry>, i: nat, j: nat)
    requires Routed(log) && i < j < |log| && log[i].Issued? && log[j].Issued?
    ensures log[i].command < log[j].command
  {
    assert Allowed(log[..i], log[i]) && Allowed(log[..j], log[j]);
    CommandsGrow(log, i + 1, j);
    assert log[..i + 1][..i] == log[..i];
  }

  /** The callback of a command runs at most once. */
  lemma {:induction false} CalledAtMostOnce(log: seq<Entry>, i: nat, j: nat)
    requires Routed(log) && i < j < |log| && log[i].ToCallback? && log[j].ToCallback?
    ensures log[i].command != log[j].command
  {
    assert Allowed(log[..i], log[i]) && Allowed(log[..j], log[j]);
    var k := WaitingSince(log[..i]);
    var l := WaitingSince(log[..j]);
    assert log[i] == log[..j][i] && log[k] == log[..i][k] && log[l] == log[..j][l];
    assert i < l;
    IssuedOnce(log, k, l);
  }

  /** Between the issue of a command and the first event that matches it, no callback
      runs, as long as no other command is issued. */
  lemma {:induction false} NoCallBefore(log: seq<Entry>, k: nat, j: nat)
    requires Routed(log) && k < j <= |log| && log[k].Issued? && log[k].hasCallback
    requires forall m :: k < m < j ==> !log[m].Issued?
    requires forall m :: k < m < j && log[m].Received? ==> !EventMatches(log[m].packet, log[k].opcode)
    ensures forall m :: k < m < j ==> !log[m].ToCallback?
    decreases j
  {
    if k + 1 < j {
      NoCallBefore(log, k, j - 1);
      WaitingPersists(log[..j - 1], k);
      assert Allowed(log[..j - 1], log[j - 1]);
    }
  }

  /** An event goes to the callback of a command exactly when it is the first match since
      the command was issued and no other command has been issued since. So a command
      issued from inside a callback keeps its callback, and a command issued before an
      earlier one is answered takes its place for good. */
  lemma {:induction false} CallbackRunsIff(log: seq<Entry>, k: nat, j: nat)
    requires Routed(log) && k < j && j + 1 < |log|
    requires log[k].Issued? && log[k].hasCallback && log[j].Received?
    ensures log[j + 1] == ToCallback(log[k].command, log[j].packet) <==>
      && EventMatches(log[j].packet, log[k].opcode)
      && (forall m :: k < m < j ==> !log[m].Issued?)
      && (forall m :: k < m < j && log[m].Received? ==> !EventMatches(log[m].packet, log[k].opcode))
  {
    assert Allowed(log[..j + 1], log[j + 1]);
    ExactlyOneConsumer(log, j);
    var before := log[..j + 1];
    if log[j + 1] == ToCallback(log[k].command, log[j].packet) {
      var l := WaitingSince(before);
      assert log[l] == before[l];
      if l < k {
        IssuedOnce(log, l, k);
      } else if k < l {
        IssuedOnce(log, k, l);
      }
      forall m | k < m < j && log[m].Received?
        ensures !EventMatches(log[m].packet, log[k].opcode)
      {
        assert Allowed(log[..m + 1], log[m + 1]) && before[m + 1] == log[m + 1];
        forall x | k < x < m + 1
          ensures !log[x].Issued? && !log[x].ToCallback?
        {
          assert before[x] == log[x];
        }
        WaitingPersists(log[..m + 1], k);
        ExactlyOneConsumer(log, m);
      }
      forall m | k < m < j
        ensures !log[m].Issued?
      {
        assert before[m] == log[m];
      }
    } else if (forall m :: k < m < j ==> !log[m].Issued?) &&
              (forall m :: k < m < j && log[m].Received? ==> !EventMatches(log[m].packet, log[k].opcode)) {
      NoCallBefore(log, k, j);
      WaitingPersists(before, k);
    }
  }
}
