/** The low-power watchdog of the Bluetooth vendor interface: Send asserts the wake line
    and arms a timer, and a timer tick without traffic since the last one releases it.

    The timer of AsyncFdWatcher is taken to be periodic, with a timeout of zero for off.
    One session is what happens between Open and Close; the flags of the session before
    are still there when it starts. */
module LowPower {

  import opened Wrappers

  /** What a session does that is visible from outside. */
  datatype Trace = Armed(ms: nat) | Asserted | Deasserted | Packet(data: seq<Byte>) | Tick

  datatype Power = Power(
    wakeDeasserted: bool,  // lpm_wake_deasserted
    timeoutMs: nat,        // lpm_timeout_ms
    recentActivity: bool,  // recent_activity_flag
    timerMs: nat,          // what the fd watcher's timer is set to
    log: seq<Trace>)

  /** OnFirmwareConfigured does not hold the wake-up mutex: other threads may run between
      its reading of the timeout and its arming of the timer. */
  datatype Step = DoSend(data: seq<Byte>) | Timeout | FirmwareRead(ms: nat) | FirmwareArm

  /** Open: power management is off, and the timer of the new fd watcher too. */
  function Open(timeoutMs: nat, recentActivity: bool): Power {
    Power(true, timeoutMs, recentActivity, 0, [])
  }

  function Send(p: Power, data: seq<Byte>): Power {
    if p.wakeDeasserted then
      p.(recentActivity := true, timerMs := p.timeoutMs, wakeDeasserted := false,
         log := p.log + [Armed(p.timeoutMs), Asserted, Packet(data)])
    else
      p.(recentActivity := true, log := p.log + [Packet(data)])
  }

  /** A tick comes only from a timer that is armed. */
  function OnTimeout(p: Power): Power {
    if p.timerMs == 0 then p
    else if !p.recentActivity then
      p.(wakeDeasserted := true, timerMs := 0, log := p.log + [Tick, Deasserted, Armed(0)])
    else
      p.(recentActivity := false, log := p.log + [Tick])
  }

  function Next(p: Power, s: Step): Power {
    match s
    case DoSend(data) => Send(p, data)
    case Timeout => OnTimeout(p)
    case FirmwareRead(ms) => p.(timeoutMs := ms)
    case FirmwareArm => p.(timerMs := p.timeoutMs, log := p.log + [Armed(p.timeoutMs)])
  }

  function Run(p: Power, steps: seq<Step>): Power {
    if steps == [] then p else Next(Run(p, steps[..|steps| - 1]), steps[|steps| - 1])
  }

  /** The wake line as the log leaves it. */
  function Awake(log: seq<Trace>): bool {
    if log == [] then false
    else match log[|log| - 1]
      case Asserted => true
      case Deasserted => false
      case _ => Awake(log[..|log| - 1])
  }

  /** Whether the log has a packet after its last tick. */
  function Busy(log: seq<Trace>): bool {
    if log == [] then false
    else match log[|log| - 1]
      case Packet(_) => true
      case Tick => false
      case _ => Busy(log[..|log| - 1])
  }

  function Timer(log: seq<Trace>): nat {
    if log == [] then 0
    else match log[|log| - 1]
      case Armed(ms) => ms
      case _ => Timer(log[..|log| - 1])
  }

  /** Every entry is allowed by the ones before it. */
  predicate WellOrdered(log: seq<Trace>) {
    forall i {:trigger Allowed(log[..i], log[i])} :: 0 <= i < |log| ==> Allowed(log[..i], log[i])
  }

  predicate Allowed(before: seq<Trace>, e: Trace) {
    match e
    case Packet(_) => Awake(before)
    case Asserted => !Awake(before)
    case Deasserted => before != [] && before[|before| - 1] == Tick && !Busy(before[..|before| - 1])
    case Tick => 0 < Timer(before)
    case Armed(ms) => true
  }

  /** A tick releases the wake line when there was a tick before and no packet since. */
  predicate Releases(log: seq<Trace>) {
    forall j :: 0 <= j < |log| && log[j] == Tick && Tick in log[..j] && !Busy(log[..j]) ==>
      j + 2 < |log| && log[j + 1] == Deasserted && log[j + 2] == Armed(0)
  }

  ghost predicate Inv(p: Power) {
    && WellOrdered(p.log) && Releases(p.log)
    && Awake(p.log) == !p.wakeDeasserted
    && Timer(p.log) == p.timerMs
    && (Busy(p.log) ==> p.recentActivity)
    && (Tick in p.log && p.recentActivity ==> Busy(p.log))
  }

  lemma {:induction false} Extend(log: seq<Trace>, e: Trace)
    ensures Awake(log + [e]) == (if e == Asserted then true else if e == Deasserted then false else Awake(log))
    ensures Busy(log + [e]) == (if e.Packet? then true else if e == Tick then false else Busy(log))
    ensures Timer(log + [e]) == (if e.Armed? then e.ms else Timer(log))
    ensures WellOrdered(log) && Allowed(log, e) ==> WellOrdered(log + [e])
  {
    assert (log + [e])[..|log|] == log;
    forall i | 0 <= i < |log|
      ensures (log + [e])[..i] == log[..i]
    {
    }
  }

  /** Entries other than a releasing tick keep Releases. */
  lemma {:induction false} ReleasesExtend(log: seq<Trace>, e: Trace)
    requires Releases(log)
    requires e == Tick ==> Tick !in log || Busy(log)
    ensures Releases(log + [e])
  {
    var all := log + [e];
    forall j | 0 <= j < |all| && all[j] == Tick && Tick in all[..j] && !Busy(all[..j])
      ensures j + 2 < |all| && all[j + 1] == Deasserted && all[j + 2] == Armed(0)
    {
      assert all[..j] == log[..j];
    }
  }

  /** So does a releasing tick with what it brings. */
  lemma {:induction false} ReleasesRelease(log: seq<Trace>)
    requires Releases(log)
    ensures Releases(log + [Tick, Deasserted, Armed(0)])
  {
    var all := log + [Tick, Deasserted, Armed(0)];
    forall j | 0 <= j < |all| && all[j] == Tick && Tick in all[..j] && !Busy(all[..j])
      ensures j + 2 < |all| && all[j + 1] == Deasserted && all[j + 2] == Armed(0)
    {
      assert all[..j] == log[..j];
    }
  }

  lemma {:induction false} SendKeepsInv(p: Power, data: seq<Byte>)
    requires Inv(p)
    ensures Inv(Send(p, data))
  {
    if p.wakeDeasserted {
      Grow(p.log, Armed(p.timeoutMs));
      Grow(p.log + [Armed(p.timeoutMs)], Asserted);
      Grow(p.log + [Armed(p.timeoutMs)] + [Asserted], Packet(data));
      assert p.log + [Armed(p.timeoutMs)] + [Asserted] + [Packet(data)] == Send(p, data).log;
    } else {
      Grow(p.log, Packet(data));
    }
  }

  /** One more entry that is not a releasing tick. */
  lemma {:induction false} Grow(log: seq<Trace>, e: Trace)
    requires WellOrdered(log) && Releases(log) && Allowed(log, e)
    requires e == Tick ==> Tick !in log || Busy(log)
    ensures WellOrdered(log + [e]) && Releases(log + [e])
    ensures Awake(log + [e]) == (if e == Asserted then true else if e == Deasserted then false else Awake(log))
    ensures Busy(log + [e]) == (if e.Packet? then true else if e == Tick then false else Busy(log))
    ensures Timer(log + [e]) == (if e.Armed? then e.ms else Timer(log))
    ensures Tick in log + [e] <==> Tick in log || e == Tick
  {
    Extend(log, e);
    ReleasesExtend(log, e);
  }

  lemma {:induction false} ThreeMore(log: seq<Trace>, a: Trace, b: Trace, c: Trace)
    ensures log + [a] + [b] + [c] == log + [a, b, c]
    ensures (log + [a])[..|log|] == log
  {
  }

  /** The three entries of a releasing tick. */
  lemma {:induction false} GrowRelease(log: seq<Trace>)
    requires WellOrdered(log) && Releases(log) && 0 < Timer(log) && !Busy(log)
    ensures WellOrdered(log + [Tick, Deasserted, Armed(0)]) && Releases(log + [Tick, Deasserted, Armed(0)])
    ensures !Awake(log + [Tick, Deasserted, Armed(0)]) && !Busy(log + [Tick, Deasserted, Armed(0)])
    ensures Timer(log + [Tick, Deasserted, Armed(0)]) == 0
  {
    ThreeMore(log, Tick, Deasserted, Armed(0));
    Extend(log, Tick);
    Extend(log + [Tick], Deasserted);
    Extend(log + [Tick] + [Deasserted], Armed(0));
    ReleasesRelease(log);
  }

  lemma {:induction false} TimeoutKeepsInv(p: Power)
    requires Inv(p)
    ensures Inv(OnTimeout(p))
  {
    if 0 < p.timerMs {
      if p.recentActivity {
        Grow(p.log, Tick);
      } else {
        GrowRelease(p.log);
      }
    }
  }

  lemma {:induction false} StepKeepsInv(p: Power, s: Step)
    requires Inv(p)
    ensures Inv(Next(p, s))
  {
    match s
    case DoSend(data) => SendKeepsInv(p, data);
    case Timeout => TimeoutKeepsInv(p);
    case FirmwareRead(ms) =>
    case FirmwareArm => Grow(p.log, Armed(p.timeoutMs));
  }

  lemma {:induction false} RunKeepsInv(p: Power, steps: seq<Step>)
    requires Inv(p)
    ensures Inv(Run(p, steps))
  {
    if steps != [] {
      RunKeepsInv(p, steps[..|steps| - 1]);
      StepKeepsInv(Run(p, steps[..|steps| - 1]), steps[|steps| - 1]);
    }
  }

  function Packets(log: seq<Trace>): seq<seq<Byte>> {
    if log == [] then []
    else Packets(log[..|log| - 1]) + if log[|log| - 1].Packet? then [log[|log| - 1].data] else []
  }

  function Sent(steps: seq<Step>): seq<seq<Byte>> {
    if steps == [] then []
    else Sent(steps[..|steps| - 1]) + if steps[|steps| - 1].DoSend? then [steps[|steps| - 1].data] else []
  }

  lemma {:induction false} QuietAdds(log: seq<Trace>, quiet: seq<Trace>)
    requires forall i :: 0 <= i < |quiet| ==> !quiet[i].Packet?
    ensures Packets(log + quiet) == Packets(log)
  {
    if quiet == [] {
      assert log + quiet == log;
    } else {
      QuietAdds(log, quiet[..|quiet| - 1]);
      assert (log + quiet)[..|log + quiet| - 1] == log + quiet[..|quiet| - 1];
    }
  }

  lemma {:induction false} PacketAdds(log: seq<Trace>, quiet: seq<Trace>, data: seq<Byte>, log': seq<Trace>)
    requires forall i :: 0 <= i < |quiet| ==> !quiet[i].Packet?
    requires log' == log + (quiet + [Packet(data)])
    ensures Packets(log') == Packets(log) + [data]
  {
    QuietAdds(log, quiet);
    assert log'[..|log'| - 1] == log + quiet;
  }

  lemma {:induction false} SendPackets(p: Power, data: seq<Byte>)
    ensures Packets(Send(p, data).log) == Packets(p.log) + [data]
  {
    var quiet := if p.wakeDeasserted then [Armed(p.timeoutMs), Asserted] else [];
    PacketAdds(p.log, quiet, data, Send(p, data).log);
  }

  lemma {:induction false} TimeoutPackets(p: Power)
    ensures Packets(OnTimeout(p).log) == Packets(p.log)
  {
    QuietAdds(p.log, [Tick, Deasserted, Armed(0)]);
    QuietAdds(p.log, [Tick]);
  }

  lemma {:induction false} StepPackets(p: Power, s: Step)
    ensures Packets(Next(p, s).log) == Packets(p.log) + if s.DoSend? then [s.data] else []
  {
    match s
    case DoSend(data) => SendPackets(p, data);
    case Timeout => TimeoutPackets(p);
    case FirmwareRead(ms) =>
    case FirmwareArm => QuietAdds(p.log, [Armed(p.timeoutMs)]);
  }

  /** The packets that go out are those that were sent, unchanged and in order. */
  lemma {:induction false} PacketsAreSent(timeoutMs: nat, recent: bool, steps: seq<Step>)
    ensures Packets(Run(Open(timeoutMs, recent), steps).log) == Sent(steps)
  {
    if steps != [] {
      PacketsAreSent(timeoutMs, recent, steps[..|steps| - 1]);
      StepPackets(Run(Open(timeoutMs, recent), steps[..|steps| - 1]), steps[|steps| - 1]);
    }
  }

  // What Awake and Busy say about single entries.

  lemma {:induction false} LastAssert(log: seq<Trace>) returns (j: nat)
    requires Awake(log)
    ensures j < |log| && log[j] == Asserted && Deasserted !in log[j + 1..]
  {
    var n := |log| - 1;
    if log[n] == Asserted {
      j := n;
    } else {
      j := LastAssert(log[..n]);
      assert log[j + 1..] == log[..n][j + 1..] + [log[n]];
    }
  }

  lemma {:induction false} AsleepAfterAssert(log: seq<Trace>, i: nat)
    requires !Awake(log) && i < |log| && log[i] == Asserted
    ensures Deasserted in log[i + 1..]
  {
    var n := |log| - 1;
    if log[n] != Deasserted {
      AsleepAfterAssert(log[..n], i);
      assert log[i + 1..] == log[..n][i + 1..] + [log[n]];
    }
  }

  lemma {:induction false} IdleAfterPacket(log: seq<Trace>, i: nat)
    requires !Busy(log) && i < |log| && log[i].Packet?
    ensures Tick in log[i + 1..]
  {
    var n := |log| - 1;
    if log[n] != Tick {
      IdleAfterPacket(log[..n], i);
      assert log[i + 1..] == log[..n][i + 1..] + [log[n]];
    }
  }

  lemma {:induction false} BusyAfterTick(log: seq<Trace>, i: nat)
    requires Busy(log) && i < |log| && log[i] == Tick
    ensures exists k :: i < k < |log| && log[k].Packet?
  {
    var n := |log| - 1;
    if !log[n].Packet? {
      BusyAfterTick(log[..n], i);
    }
  }

  /** Every packet goes out with the wake line asserted. */
  lemma {:induction false} PacketsGoOutAwake(timeoutMs: nat, recent: bool, steps: seq<Step>, i: nat)
    requires var log := Run(Open(timeoutMs, recent), steps).log; i < |log| && log[i].Packet?
    ensures var log := Run(Open(timeoutMs, recent), steps).log;
      exists j: nat :: j < i && log[j] == Asserted && Deasserted !in log[j + 1..i]
  {
    RunKeepsInv(Open(timeoutMs, recent), steps);
    var log := Run(Open(timeoutMs, recent), steps).log;
    assert Allowed(log[..i], log[i]);
    var j := LastAssert(log[..i]);
    assert log[..i][j + 1..] == log[j + 1..i];
  }

  /** Two asserts are separated by a deassert. */
  lemma {:induction false} AssertsAreSeparated(timeoutMs: nat, recent: bool, steps: seq<Step>, i: nat, j: nat)
    requires var log := Run(Open(timeoutMs, recent), steps).log; i < j < |log| && log[i] == log[j] == Asserted
    ensures Deasserted in Run(Open(timeoutMs, recent), steps).log[i + 1..j]
  {
    RunKeepsInv(Open(timeoutMs, recent), steps);
    var log := Run(Open(timeoutMs, recent), steps).log;
    assert Allowed(log[..j], log[j]);
    AsleepAfterAssert(log[..j], i);
    assert log[..j][i + 1..] == log[i + 1..j];
  }

  lemma {:induction false} IdleBeforeRelease(log: seq<Trace>, i: nat)
    requires WellOrdered(log) && i < |log| && log[i] == Deasserted
    ensures 0 < i && log[i - 1] == Tick
    ensures forall k: nat :: k < i - 1 && log[k].Packet? ==> Tick in log[k + 1..i - 1]
  {
    assert Allowed(log[..i], log[i]);
    var before := log[..i][..i - 1];
    forall k: nat | k < i - 1 && log[k].Packet?
      ensures Tick in log[k + 1..i - 1]
    {
      IdleAfterPacket(before, k);
      assert before[k + 1..] == log[k + 1..i - 1];
    }
  }

  /** The wake line is released only by a tick that no packet precedes since the tick
      before it. */
  lemma {:induction false} ReleaseOnlyWhenIdle(timeoutMs: nat, recent: bool, steps: seq<Step>, i: nat)
    requires var log := Run(Open(timeoutMs, recent), steps).log; i < |log| && log[i] == Deasserted
    ensures var log := Run(Open(timeoutMs, recent), steps).log;
      && 0 < i && log[i - 1] == Tick
      && forall k: nat :: k < i - 1 && log[k].Packet? ==> Tick in log[k + 1..i - 1]
  {
    RunKeepsInv(Open(timeoutMs, recent), steps);
    IdleBeforeRelease(Run(Open(timeoutMs, recent), steps).log, i);
  }

  /** The second of two ticks with no packet between them releases the line and turns the
      timer off. */
  lemma {:induction false} IdleTickReleases(timeoutMs: nat, recent: bool, steps: seq<Step>, i: nat, j: nat)
    requires var log := Run(Open(timeoutMs, recent), steps).log;
      i < j < |log| && log[i] == log[j] == Tick && forall k :: i < k < j ==> !log[k].Packet?
    ensures var log := Run(Open(timeoutMs, recent), steps).log;
      j + 2 < |log| && log[j + 1] == Deasserted && log[j + 2] == Armed(0)
  {
    RunKeepsInv(Open(timeoutMs, recent), steps);
    var log := Run(Open(timeoutMs, recent), steps).log;
    assert log[..j][i] == Tick;
    if Busy(log[..j]) {
      BusyAfterTick(log[..j], i);
    }
  }

  /** Two ticks in a row leave the line released and the timer off, whatever came before,
      if the timer was on. */
  lemma {:induction false} TwoTicksSleep(p: Power)
    requires 0 < p.timerMs
    ensures var q := OnTimeout(OnTimeout(p)); q.wakeDeasserted && q.timerMs == 0
  {
  }

  predicate WatchedWhenAwake(p: Power) {
    p.wakeDeasserted || 0 < p.timerMs
  }

  /** Steps that are not part of OnFirmwareConfigured. */
  predicate Traffic(steps: seq<Step>) {
    forall i :: 0 <= i < |steps| ==> steps[i].DoSend? || steps[i].Timeout?
  }

  lemma {:induction false} TrafficKeepsWatch(p: Power, steps: seq<Step>)
    requires WatchedWhenAwake(p) && 0 < p.timeoutMs && Traffic(steps)
    ensures WatchedWhenAwake(Run(p, steps)) && Run(p, steps).timeoutMs == p.timeoutMs
    ensures p.wakeDeasserted || p.timerMs == p.timeoutMs ==>
      var q := Run(p, steps); q.wakeDeasserted || q.timerMs == p.timeoutMs
  {
    if steps != [] {
      TrafficKeepsWatch(p, steps[..|steps| - 1]);
    }
  }

  /** Once the firmware is configured, asserted wake implies an armed timer in every
      continuation, exactly when the vendor library's idle timeout is not zero. */
  lemma {:induction false} WatchdogHoldsIff(p: Power)
    ensures 0 < p.timeoutMs <==>
      forall steps :: Traffic(steps) ==> WatchedWhenAwake(Run(Next(p, FirmwareArm), steps))
  {
    var q := Next(p, FirmwareArm);
    if 0 < p.timeoutMs {
      forall steps | Traffic(steps)
        ensures WatchedWhenAwake(Run(q, steps))
      {
        TrafficKeepsWatch(q, steps);
      }
    } else {
      var once := [DoSend([])];
      assert once[..0] == [] && Run(q, once) == Send(Run(q, []), []);
      assert Traffic(once) && !WatchedWhenAwake(Run(q, once));
    }
  }

  /** The part of VendorInterface that drives the wake line. */
  class VendorInterface {
    var lpmWakeDeasserted: bool
    var lpmTimeoutMs: nat
    var recentActivityFlag: bool
    var timerMs: nat
    ghost var log: seq<Trace>

    ghost function View(): Power
      reads this
    {
      Power(lpmWakeDeasserted, lpmTimeoutMs, recentActivityFlag, timerMs, log)
    }

    /** Open, over the flags that an earlier session has left. */
    constructor (lpmTimeoutMs: nat, recentActivityFlag: bool)
      ensures View() == Open(lpmTimeoutMs, recentActivityFlag)
      ensures lpmWakeDeasserted && timerMs == 0 && log == []
    {
      this.lpmTimeoutMs, this.recentActivityFlag := lpmTimeoutMs, recentActivityFlag;
      lpmWakeDeasserted, timerMs, log := true, 0, [];
    }

    method ConfigureTimeout(ms: nat)
      modifies `timerMs, `log
      ensures timerMs == ms && log == old(log) + [Armed(ms)]
    {
      timerMs := ms;
      log := log + [Armed(ms)];
    }

    method SendPacket(data: seq<Byte>)
      modifies this
      ensures View() == Send(old(View()), data)
      ensures recentActivityFlag && !lpmWakeDeasserted && lpmTimeoutMs == old(lpmTimeoutMs)
      ensures timerMs == if old(lpmWakeDeasserted) then lpmTimeoutMs else old(timerMs)
      ensures old(lpmWakeDeasserted) ==> log == old(log) + [Armed(lpmTimeoutMs), Asserted, Packet(data)]
      ensures !old(lpmWakeDeasserted) ==> log == old(log) + [Packet(data)]
    {
      recentActivityFlag := true;
      if lpmWakeDeasserted {
        ConfigureTimeout(lpmTimeoutMs);
        lpmWakeDeasserted := false;
        log := log + [Asserted];
      }
      log := log + [Packet(data)];
    }

    method Tick()
      requires 0 < timerMs
      modifies this
      ensures View() == OnTimeout(old(View()))
      ensures !recentActivityFlag && lpmTimeoutMs == old(lpmTimeoutMs)
      ensures old(recentActivityFlag) ==>
        lpmWakeDeasserted == old(lpmWakeDeasserted) && timerMs == old(timerMs) && log == old(log) + [Trace.Tick]
      ensures !old(recentActivityFlag) ==>
        lpmWakeDeasserted && timerMs == 0 && log == old(log) + [Trace.Tick, Deasserted, Armed(0)]
    {
      log := log + [Trace.Tick];
      if !recentActivityFlag {
        lpmWakeDeasserted := true;
        log := log + [Deasserted];
        ConfigureTimeout(0);
      }
      recentActivityFlag := false;
    }

    /** OnFirmwareConfigured when no other thread runs in between. */
    method OnFirmwareConfigured(idleTimeoutMs: nat)
      modifies this
      ensures View() == Next(Next(old(View()), FirmwareRead(idleTimeoutMs)), FirmwareArm)
      ensures lpmTimeoutMs == timerMs == idleTimeoutMs && log == old(log) + [Armed(idleTimeoutMs)]
      ensures lpmWakeDeasserted == old(lpmWakeDeasserted) && recentActivityFlag == old(recentActivityFlag)
    {
      lpmTimeoutMs := idleTimeoutMs;
      ConfigureTimeout(lpmTimeoutMs);
    }
  }
}
