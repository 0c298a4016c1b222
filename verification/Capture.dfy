/** The capture path of the audio HAL: driver periods go to readBuf, from there to
    procBufIn, and from there to the pre-processing effects, with a partial
    consumption at every stage.

    A frame is one group of `requested_channel` samples. Every offset of the source is
    a whole number of frames, so the frame type T is left abstract.

    The kernel driver is a script of replies, one for each `pcm_read`; the effects are a
    script of replies, one for each call of `process`. */
module Capture {

  type Errno = e: int | e < 0 witness -5

  const ENODEV: Errno := -19
  const EIO: Errno := -5

  datatype DriverReply<T> = Period(frames: seq<T>) | Fault(status: Errno)

  /** One call of `process`: the effect takes up to `want` of the frames it is offered
      and produces some frames of its own. */
  datatype EffectReply<T> = EffectReply(want: nat, produced: seq<T>)

  /** One read by the client: the frames wanted and the replies of the effects. */
  datatype Request<T> = Request(frames: nat, effects: seq<EffectReply<T>>)

  predicate PeriodsOf<T>(script: seq<DriverReply<T>>, period: nat) {
    forall i :: 0 <= i < |script| && script[i].Period? ==> |script[i].frames| == period
  }

  predicate NextReadFails<T>(script: seq<DriverReply<T>>) {
    script == [] || script[0].Fault?
  }

  function NextStatus<T>(script: seq<DriverReply<T>>): Errno
    requires NextReadFails(script)
  {
    if script == [] then EIO else script[0].status
  }

  /** The frames that the driver delivers before its next fault. */
  ghost function Supply<T>(script: seq<DriverReply<T>>): seq<T> {
    if NextReadFails(script) then [] else script[0].frames + Supply(script[1..])
  }

  /** The replies that remain once that fault has been reported. */
  ghost function AfterFault<T>(script: seq<DriverReply<T>>): seq<DriverReply<T>> {
    if script == [] then [] else if script[0].Fault? then script[1..] else AfterFault(script[1..])
  }

  ghost function FaultStatus<T>(script: seq<DriverReply<T>>): Errno {
    if NextReadFails(script) then NextStatus(script) else FaultStatus(script[1..])
  }

  /** What a script says, from its front: the periods up to the fault, the fault's status, and
      what comes after it. A driver with nothing left to reply reports EIO. */
  lemma {:induction false} ScriptSays<T>(frames: seq<T>, status: Errno, rest: seq<DriverReply<T>>)
    ensures var script := [Period(frames)] + rest;
      && Supply(script) == frames + Supply(rest)
      && AfterFault(script) == AfterFault(rest) && FaultStatus(script) == FaultStatus(rest)
    ensures var script := [Fault(status)] + rest;
      Supply(script) == [] && AfterFault(script) == rest && FaultStatus(script) == status
    ensures Supply<T>([]) == [] && AfterFault<T>([]) == [] && FaultStatus<T>([]) == -5
  {
    assert ([Period(frames)] + rest)[1..] == rest && ([Fault(status)] + rest)[1..] == rest;
  }

  /** All frames that the first n effect calls produce, in order. */
  ghost function Produced<T>(replies: seq<EffectReply<T>>, n: nat): seq<T>
    requires n <= |replies|
  {
    if n == 0 then [] else Produced(replies, n - 1) + replies[n - 1].produced
  }

  function Min(a: nat, b: nat): (r: nat)
    ensures r <= a && r <= b && (r == a || r == b)
  {
    if a < b then a else b
  }

  ghost function Max(a: nat, b: nat): nat {
    if a < b then b else a
  }

  /** What reaches a client that wants `frames` frames: each call of the effects adds what
      it produces, cut to the room that is left. */
  ghost function Written<T>(replies: seq<EffectReply<T>>, n: nat, frames: nat): (r: seq<T>)
    requires n <= |replies|
    ensures |r| <= frames
  {
    if n == 0 then []
    else
      var before, produced := Written(replies, n - 1, frames), replies[n - 1].produced;
      before + produced[..Min(frames - |before|, |produced|)]
  }

  /** The client has received what the first `used` calls of the effects write, and none of
      these calls was made when it had enough. */
  ghost predicate Delivered<T>(received: seq<T>, effects: seq<EffectReply<T>>, used: nat, frames: nat) {
    && used <= |effects| && received == Written(effects, used, frames)
    && (0 < used ==> |Written(effects, used - 1, frames)| < frames)
  }

  lemma {:induction false} DeliveredNext<T>(received: seq<T>, effects: seq<EffectReply<T>>, used: nat, frames: nat)
    requires used < |effects| && |received| < frames && Delivered(received, effects, used, frames)
    ensures Delivered(received + effects[used].produced[..Min(frames - |received|, |effects[used].produced|)],
                      effects, used + 1, frames)
  {
  }

  /** How many frames wait after n calls of the effects, when `held` waited before them: each
      call finds `frames` frames, or more if more are left over, and takes up to what it wants. */
  ghost function HeldAfter<T>(effects: seq<EffectReply<T>>, n: nat, frames: nat, held: nat): nat
    requires n <= |effects|
  {
    if n == 0 then held
    else
      var found := Max(frames, HeldAfter(effects, n - 1, frames, held));
      found - Min(effects[n - 1].want, found)
  }

  /** How many frames these calls take. */
  ghost function Eaten<T>(effects: seq<EffectReply<T>>, n: nat, frames: nat, held: nat): nat
    requires n <= |effects|
  {
    if n == 0 then 0
    else
      Eaten(effects, n - 1, frames, held)
      + Min(effects[n - 1].want, Max(frames, HeldAfter(effects, n - 1, frames, held)))
  }

  /** After n calls fewer than `frames` remain of the `total` frames that were held or to come
      before the next fault. */
  ghost predicate Starves<T>(effects: seq<EffectReply<T>>, n: nat, frames: nat, held: nat, total: int)
    requires n <= |effects|
  {
    total < frames + Eaten(effects, n, frames, held)
  }

  /** A read makes call n if the client has not enough and the effects can be given enough. */
  ghost predicate Calls<T>(effects: seq<EffectReply<T>>, n: nat, frames: nat, held: nat, total: int)
    requires n < |effects|
  {
    |Written(effects, n, frames)| < frames && !Starves(effects, n, frames, held, total)
  }

  /** The first call from n on that a read does not make. */
  ghost function Stop<T>(effects: seq<EffectReply<T>>, n: nat, frames: nat, held: nat, total: int): (stop: nat)
    requires n <= |effects|
    ensures stop <= |effects|
    decreases |effects| - n
  {
    if n < |effects| && Calls(effects, n, frames, held, total) then Stop(effects, n + 1, frames, held, total) else n
  }

  /** How many calls a read makes. */
  ghost function CallsMade<T>(effects: seq<EffectReply<T>>, frames: nat, held: nat, total: int): (n: nat)
    ensures n <= |effects|
  {
    Stop(effects, 0, frames, held, total)
  }

  /** A read fails if the call that it stops at is needed but cannot be given enough. */
  ghost predicate Fails<T>(effects: seq<EffectReply<T>>, frames: nat, held: nat, total: int) {
    var n := CallsMade(effects, frames, held, total);
    n < |effects| && |Written(effects, n, frames)| < frames
  }

  /** Call `used` is made exactly if the effects can be given enough. */
  lemma {:induction false} StopStep<T>(received: seq<T>, effects: seq<EffectReply<T>>, used: nat, frames: nat,
                                       held: nat, total: int)
    requires Delivered(received, effects, used, frames) && used < |effects| && |received| < frames
    ensures Stop(effects, used, frames, held, total) ==
            if Starves(effects, used, frames, held, total) then used else Stop(effects, used + 1, frames, held, total)
  {
  }

  lemma {:induction false} StopsHere<T>(received: seq<T>, effects: seq<EffectReply<T>>, used: nat, frames: nat,
                                       held: nat, total: int)
    requires Delivered(received, effects, used, frames) && (used == |effects| || |received| == frames)
    ensures Stop(effects, used, frames, held, total) == used
    ensures used < |effects| ==> |Written(effects, used, frames)| == frames
  {
  }

  /** The numbers of a stream: frames consumed, held, held or to come before the next fault,
      and dropped; and what the driver will reply. */
  datatype Level<T> = Level(consumed: nat, held: nat, total: int, dropped: int, script: seq<DriverReply<T>>)

  /** After a read that has made n calls. */
  ghost function Settled<T>(v: Level<T>, frames: nat, effects: seq<EffectReply<T>>, n: nat, fails: bool): Level<T>
    requires n <= |effects|
  {
    var eaten, held := Eaten(effects, n, frames, v.held), HeldAfter(effects, n, frames, v.held);
    if fails then
      var script := AfterFault(v.script);
      Level(v.consumed + eaten, held, held + |Supply(script)|, v.dropped + v.total - eaten - held, script)
    else
      Level(v.consumed + eaten, held, v.total - eaten, v.dropped, v.script)
  }

  ghost function AfterRead<T>(v: Level<T>, request: Request<T>): Level<T> {
    Settled(v, request.frames, request.effects, CallsMade(request.effects, request.frames, v.held, v.total),
            Fails(request.effects, request.frames, v.held, v.total))
  }

  ghost predicate ReadFails<T>(v: Level<T>, request: Request<T>) {
    Fails(request.effects, request.frames, v.held, v.total)
  }

  /** After the reads from i on. */
  ghost function AfterReads<T>(v: Level<T>, requests: seq<Request<T>>, i: nat): Level<T>
    requires i <= |requests|
    decreases |requests| - i
  {
    if i == |requests| then v else AfterReads(AfterRead(v, requests[i]), requests, i + 1)
  }

  /** How many reads, and to which level, until all are done or one has failed. */
  datatype Outcome<T> = Outcome(served: nat, level: Level<T>)

  ghost function UntilFault<T>(v: Level<T>, requests: seq<Request<T>>, i: nat): (o: Outcome<T>)
    requires i <= |requests|
    ensures o.served <= |requests|
    decreases |requests| - i
  {
    if i == |requests| then Outcome(i, v)
    else if ReadFails(v, requests[i]) then Outcome(i, AfterRead(v, requests[i]))
    else UntilFault(AfterRead(v, requests[i]), requests, i + 1)
  }

  /** It is the front of all that the effects produce. */
  lemma {:induction false} WrittenIsFront<T>(replies: seq<EffectReply<T>>, n: nat, frames: nat)
    requires n <= |replies|
    ensures |Written(replies, n, frames)| == Min(frames, |Produced(replies, n)|)
    ensures Written(replies, n, frames) == Produced(replies, n)[..Min(frames, |Produced(replies, n)|)]
  {
    if n != 0 {
      WrittenIsFront(replies, n - 1, frames);
    }
  }

  /** The frames of s that are marked as kept, in order. */
  ghost function Keep<T>(s: seq<T>, kept: seq<bool>): (r: seq<T>)
    requires |s| == |kept|
  {
    if s == [] then []
    else Keep(s[..|s| - 1], kept[..|s| - 1]) + if kept[|s| - 1] then [s[|s| - 1]] else []
  }

  /** How many are not. */
  ghost function Lost(kept: seq<bool>): nat {
    if kept == [] then 0 else Lost(kept[..|kept| - 1]) + if kept[|kept| - 1] then 0 else 1
  }

  ghost function Marks(b: bool, n: nat): (r: seq<bool>)
    ensures |r| == n
  {
    if n == 0 then [] else Marks(b, n - 1) + [b]
  }

  lemma {:induction false} KeepMore<T>(s: seq<T>, kept: seq<bool>, more: seq<T>, b: bool)
    requires |s| == |kept|
    ensures Keep(s + more, kept + Marks(b, |more|)) == Keep(s, kept) + if b then more else []
    ensures Lost(kept + Marks(b, |more|)) == Lost(kept) + if b then 0 else |more|
  {
    if more == [] {
      assert s + more == s && kept + Marks(b, 0) == kept;
    } else {
      var n := |more| - 1;
      KeepMore(s, kept, more[..n], b);
      var all, marks := s + more, kept + Marks(b, |more|);
      assert all[..|all| - 1] == s + more[..n] && marks[..|all| - 1] == kept + Marks(b, n);
      assert b ==> Keep(s, kept) + more == Keep(s, kept) + more[..n] + [more[n]];
    }
  }

  lemma {:induction false} KeepAll<T>(s: seq<T>, kept: seq<bool>)
    requires |s| == |kept|
    ensures |Keep(s, kept)| == |s| - Lost(kept)
    ensures Lost(kept) == 0 ==> Keep(s, kept) == s
  {
    if s != [] {
      KeepAll(s[..|s| - 1], kept[..|s| - 1]);
    }
  }

  /** The buffer contents `s` with the frames `chunk` written at `at`. */
  ghost function Splice<T>(s: seq<T>, at: nat, chunk: seq<T>): (r: seq<T>)
    requires at + |chunk| <= |s|
    ensures |r| == |s| && r[at..at + |chunk|] == chunk && r[..at] == s[..at]
  {
    s[..at] + chunk + s[at + |chunk|..]
  }

  lemma {:induction false} SpliceTwice<T>(s: seq<T>, at: nat, first: seq<T>, second: seq<T>)
    requires at + |first| + |second| <= |s|
    ensures Splice(Splice(s, at, first), at + |first|, second) == Splice(s, at, first + second)
  {
  }

  /** memcpy between two distinct buffers, in frames. */
  method CopyFrames<T>(dst: array<T>, at: nat, src: array<T>, from: nat, count: nat)
    requires dst != src && at + count <= dst.Length && from + count <= src.Length
    modifies dst
    ensures dst[..] == Splice(old(dst[..]), at, src[from..from + count])
  {
    forall i | 0 <= i < count {
      dst[at + i] := src[from + i];
    }
  }

  /** pcm_read into the front of a buffer. */
  method Load<T>(dst: array<T>, frames: seq<T>)
    requires |frames| <= dst.Length
    modifies dst
    ensures dst[0..|frames|] == frames
  {
    forall i | 0 <= i < |frames| {
      dst[i] := frames[i];
    }
  }

  /** What an effect writes, behind what the client has already. */
  method Put<T>(dst: array<T>, at: nat, chunk: seq<T>)
    requires at + |chunk| <= dst.Length
    modifies dst
    ensures dst[..at + |chunk|] == old(dst[..at]) + chunk
    ensures dst[at + |chunk|..] == old(dst[at + |chunk|..])
  {
    forall i | 0 <= i < |chunk| {
      dst[at + i] := chunk[i];
    }
  }

  /** What read_frames found when it was called. */
  datatype Start<T> =
    Start(contents: seq<T>, at: nat, taken: seq<T>, available: seq<T>, script: seq<DriverReply<T>>)

  /** The driver side of the stream: get_next_buffer, release_buffer and read_frames. */
  class PeriodSource<T(0)> {
    var pcmOpen: bool
    var period: nat
    var script: seq<DriverReply<T>>
    var readBuf: array<T>
    var readBufSize: nat
    var readBufFrames: nat
    var readStatus: int
    ghost var delivered: seq<T>  // frames the driver has delivered since the start
    ghost var taken: seq<T>      // frames copied out of readBuf since the start

    /** The frames of the last period that have not been handed on yet. */
    ghost function Pending(): seq<T>
      reads `readBuf, `readBufFrames, `period, readBuf
    {
      if 0 < readBufFrames <= period <= readBuf.Length then readBuf[period - readBufFrames..period] else []
    }

    /** The plain stream of frames, up to the next driver fault. */
    ghost function Available(): seq<T>
      reads `readBuf, `readBufFrames, `period, readBuf, `script
    {
      Pending() + Supply(script)
    }

    /** Taking `got` off the front of the stream (avail, s) has led to this state. */
    ghost predicate Took(got: seq<T>, avail: seq<T>, s: seq<DriverReply<T>>)
      reads `readBuf, `readBufFrames, `period, readBuf, `script
    {
      avail == got + Available() && AfterFault(script) == AfterFault(s) && FaultStatus(script) == FaultStatus(s)
    }

    /** The driver has faulted after the last frame of the stream that began with s. */
    ghost predicate Drained(status: int, s: seq<DriverReply<T>>)
      reads `readBufFrames, `script
    {
      status == FaultStatus(s) && readBufFrames == 0 && script == AfterFault(s)
    }

    ghost predicate Valid()
      reads this, readBuf
    {
      && 0 < period
      && PeriodsOf(script, period)
      && readBufFrames <= period
      && readBufSize <= readBuf.Length
      && (0 < readBufFrames ==> period <= readBufSize && (pcmOpen ==> readStatus == 0))
      && delivered == taken + Pending()
    }

    /** start_input_stream after a successful open. */
    constructor (period: nat, script: seq<DriverReply<T>>)
      requires 0 < period && PeriodsOf(script, period)
      ensures Valid() && pcmOpen && fresh(readBuf)
      ensures this.period == period && this.script == script
      ensures Pending() == [] && taken == []
    {
      this.pcmOpen, this.period, this.script := true, period, script;
      readBuf, readBufSize, readBufFrames, readStatus := new T[0], 0, 0, 0;
      delivered, taken := [], [];
    }

    /** Restarting the stream discards what is still in readBuf. */
    method Restart(period: nat, script: seq<DriverReply<T>>)
      requires Valid() && 0 < period && PeriodsOf(script, period)
      modifies this
      ensures Valid() && pcmOpen && readBuf == old(readBuf)
      ensures this.period == period && this.script == script
      ensures Pending() == [] && taken == []
    {
      this.pcmOpen, this.period, this.script := true, period, script;
      readBufFrames, readBufSize := 0, 0;
      delivered, taken := [], [];
    }

    /** do_input_standby closes the driver; readBuf keeps what it holds. */
    method Close()
      requires Valid()
      modifies `pcmOpen
      ensures Valid() && !pcmOpen
    {
      pcmOpen := false;
    }

    /** The reload of get_next_buffer: one period from the driver into readBuf. */
    method Refill() returns (ok: bool)
      requires Valid() && pcmOpen && readBufFrames == 0
      modifies `readBuf, `readBufSize, `readBufFrames, `readStatus, `script, `delivered, readBuf
      ensures Valid()
      ensures readBuf == old(readBuf) || fresh(readBuf)
      ensures ok == old(!NextReadFails(script))
      ensures ok ==> readStatus == 0 && readBufFrames == period && script == old(script[1..])
      ensures ok ==> Pending() == old(script[0].frames)
      ensures !ok ==> readStatus == old(NextStatus(script)) && readBufFrames == 0
      ensures !ok ==> script == old(AfterFault(script))
      ensures |old(delivered)| <= |delivered|
    {
      if readBufSize < period {
        readBufSize := period;
        readBuf := new T[period];
      }
      ok := !NextReadFails(script);
      if !ok {
        readStatus := NextStatus(script);
        script := if script == [] then [] else script[1..];
        return;
      }
      var frames := script[0].frames;
      Load(readBuf, frames);
      readStatus := 0;
      readBufFrames := period;
      script := script[1..];
      delivered := delivered + frames;
    }

    /** get_next_buffer: offers up to `want` frames, found at `start` in readBuf. */
    method GetNextBuffer(want: nat) returns (raw: bool, start: nat, count: nat)
      requires Valid()
      modifies `readBuf, `readBufSize, `readBufFrames, `readStatus, `script, `delivered, readBuf
      ensures Valid()
      ensures readBuf == old(readBuf) || fresh(readBuf)
      ensures !pcmOpen ==> !raw && count == 0 && readStatus == -19
      ensures !pcmOpen ==> Pending() == old(Pending()) && script == old(script)
      ensures pcmOpen ==> (raw <==> old(0 < readBufFrames || !NextReadFails(script)))
      ensures pcmOpen && raw ==> readStatus == 0 && 0 < readBufFrames
      ensures pcmOpen && raw ==> start == period - readBufFrames && count == Min(want, readBufFrames)
      ensures pcmOpen && raw ==> Available() == old(Available())
      ensures pcmOpen && raw ==> AfterFault(script) == old(AfterFault(script))
      ensures pcmOpen && raw ==> FaultStatus(script) == old(FaultStatus(script))
      ensures pcmOpen && !raw ==> readStatus == old(NextStatus(script)) && count == 0 && readBufFrames == 0
      ensures pcmOpen && !raw ==> script == old(AfterFault(script))
      ensures |old(delivered)| <= |delivered|
    {
      raw, start, count := false, 0, 0;
      if !pcmOpen {
        readStatus := ENODEV;
        return;
      }
      if readBufFrames == 0 {
        var ok := Refill();
        if !ok {
          return;
        }
      }
      raw := true;
      count := Min(want, readBufFrames);
      start := period - readBufFrames;
    }

    /** release_buffer */
    method ReleaseBuffer(count: nat)
      requires Valid() && count <= readBufFrames
      modifies `readBufFrames, `taken
      ensures Valid()
      ensures readBufFrames == old(readBufFrames) - count
      ensures Pending() == old(Pending())[count..]
      ensures taken == old(taken) + old(Pending())[..count]
    {
      ghost var pending := Pending();
      readBufFrames := readBufFrames - count;
      assert Pending() == pending[count..];
      Divide(taken, pending, count);
      taken := taken + pending[..count];
    }

    /** The successful half of a turn of read_frames: memcpy, then release_buffer. */
    method HandOver(buffer: array<T>, at: nat, start: nat, count: nat)
      requires Valid() && buffer != readBuf && at + count <= buffer.Length
      requires 0 < readBufFrames && start == period - readBufFrames && count <= readBufFrames
      modifies `readBufFrames, `taken, buffer
      ensures Valid()
      ensures count <= |old(Pending())| && Pending() == old(Pending())[count..]
      ensures buffer[..] == Splice(old(buffer[..]), at, old(Pending())[..count])
      ensures taken == old(taken) + old(Pending())[..count]
    {
      assert readBuf[start..start + count] == Pending()[..count];
      CopyFrames(buffer, at, readBuf, start, count);
      ReleaseBuffer(count);
    }

    /** One turn of the loop of read_frames: get_next_buffer, memcpy, release_buffer. */
    method ReadChunk(buffer: array<T>, at: nat, want: nat) returns (count: nat, ghost got: seq<T>)
      requires Valid() && pcmOpen && 0 < want
      requires buffer != readBuf && at + want <= buffer.Length
      modifies `readBuf, `readBufSize, `readBufFrames, `readStatus, `script, `delivered, `taken, readBuf, buffer
      ensures Valid() && buffer != readBuf
      ensures readBuf == old(readBuf) || fresh(readBuf)
      ensures count == |got| <= want
      ensures buffer[..] == Splice(old(buffer[..]), at, got)
      ensures taken == old(taken) + got
      ensures readStatus == 0 ==> 0 < count && Took(got, old(Available()), old(script))
      ensures readStatus != 0 ==> got == old(Available()) == [] && Drained(readStatus, old(script)) && readStatus < 0
      ensures |old(delivered)| <= |delivered|
    {
      var raw, start, n := GetNextBuffer(want);
      count, got := n, [];
      ghost var pending, supply := Pending(), Supply(script);
      if raw {
        HandOver(buffer, at, start, n);
        got := pending[..n];
        SplitFront(pending, supply, n);
      } else {
        ReleaseBuffer(n);
      }
    }

    /** Since `start`, the frames `got` have been copied from the stream to the buffer. */
    ghost predicate Copied(buffer: array<T>, start: Start<T>, got: seq<T>)
      reads `readBuf, `readBufFrames, `period, readBuf, `script, `taken, buffer
    {
      && start.at + |got| <= |start.contents|
      && buffer[..] == Splice(start.contents, start.at, got)
      && taken == start.taken + got
      && Took(got, start.available, start.script)
    }

    /** One more turn of the loop of read_frames, after `got`. */
    method ReadMore(buffer: array<T>, at: nat, want: nat, ghost start: Start<T>, ghost got: seq<T>)
      returns (count: nat, ghost chunk: seq<T>)
      requires Valid() && pcmOpen && 0 < want
      requires buffer != readBuf && at + want <= buffer.Length
      requires Copied(buffer, start, got) && at == start.at + |got|
      modifies `readBuf, `readBufSize, `readBufFrames, `readStatus, `script, `delivered, `taken, readBuf, buffer
      ensures Valid() && buffer != readBuf
      ensures readBuf == old(readBuf) || fresh(readBuf)
      ensures count == |chunk| <= want
      ensures readStatus == 0 ==> 0 < count && Copied(buffer, start, got + chunk)
      ensures readStatus != 0 ==> readStatus < 0 && Drained(readStatus, start.script)
      ensures readStatus != 0 ==> got == start.available && taken == start.taken + got
      ensures readStatus != 0 ==> buffer[..] == Splice(start.contents, start.at, got)
      ensures |old(delivered)| <= |delivered|
    {
      ghost var rest := Available();
      count, chunk := ReadChunk(buffer, at, want);
      SpliceTwice(start.contents, start.at, got, chunk);
      if readStatus == 0 {
        Regroup(got, rest, chunk, Available());
        Associate(start.taken, got, chunk);
      } else {
        EndOfStream(got, rest);
      }
    }

    /** read_frames without a resampler: the next `frames` frames of the plain stream,
        or, when the driver faults first, the driver's status with every frame before
        the fault already copied out. */
    method ReadFrames(buffer: array<T>, at: nat, frames: nat) returns (r: int, ghost got: seq<T>)
      requires Valid() && pcmOpen
      requires buffer != readBuf && at + frames <= buffer.Length
      modifies `readBuf, `readBufSize, `readBufFrames, `readStatus, `script, `delivered, `taken, readBuf, buffer
      ensures Valid() && buffer != readBuf
      ensures readBuf == old(readBuf) || fresh(readBuf)
      ensures |got| <= frames
      ensures buffer[..] == Splice(old(buffer[..]), at, got)
      ensures taken == old(taken) + got
      ensures 0 <= r ==> r == |got| == frames && Took(got, old(Available()), old(script))
      ensures r < 0 ==> |got| < frames && got == old(Available()) && Drained(r, old(script))
      ensures |old(delivered)| <= |delivered|
    {
      ghost var start := Start(buffer[..], at, taken, Available(), script);
      var framesWr: nat := 0;
      got := [];
      while framesWr < frames
        invariant Valid() && framesWr <= frames && buffer != readBuf
        invariant readBuf == old(readBuf) || fresh(readBuf)
        invariant |got| == framesWr && Copied(buffer, start, got)
        invariant |old(delivered)| <= |delivered|
      {
        var count, chunk := ReadMore(buffer, at + framesWr, frames - framesWr, start, got);
        if readStatus != 0 {
          return readStatus, got;
        }
        got := got + chunk;
        framesWr := framesWr + count;
      }
      return framesWr, got;
    }
  }

  /** The effect side of the stream: process_frames. */
  class CaptureStream<T(0)> {
    const source: PeriodSource<T>
    var procBufIn: array<T>
    var procBufSize: nat
    var procBufFrames: nat
    ghost var consumed: seq<T>  // frames the effects have consumed since the start
    ghost var dropped: nat      // frames copied by a read that then failed
    ghost var kept: seq<bool>   // for each frame taken, whether it was not dropped

    /** The frames that wait in front of the effects. */
    ghost function Held(): seq<T>
      reads `procBufIn, `procBufFrames, procBufIn
    {
      if procBufFrames <= procBufIn.Length then procBufIn[..procBufFrames] else []
    }

    ghost predicate Valid()
      reads this, procBufIn, source, source.readBuf
    {
      && source.Valid()
      && source.readBuf != procBufIn
      && procBufFrames <= procBufSize <= procBufIn.Length
    }

    /** What has happened to the frames taken from the source: the frames consumed and those
        that wait for the effects are exactly the ones kept, in order. */
    ghost predicate Conserved()
      reads `consumed, `dropped, `kept, `procBufIn, `procBufFrames, procBufIn, source`taken
    {
      |kept| == |source.taken| && Keep(source.taken, kept) == consumed + Held() && Lost(kept) == dropped
    }

    constructor (period: nat, script: seq<DriverReply<T>>)
      requires 0 < period && PeriodsOf(script, period)
      ensures Valid() && Conserved() && source.pcmOpen
      ensures source.period == period && source.script == script
      ensures fresh(source) && fresh(source.readBuf) && fresh(procBufIn)
      ensures consumed == [] && dropped == 0 && Held() == [] && source.Pending() == []
    {
      source := new PeriodSource(period, script);
      procBufIn, procBufSize, procBufFrames := new T[0], 0, 0;
      consumed, dropped, kept := [], 0, [];
    }

    /** start_input_stream: both stages start empty. */
    method Restart(period: nat, script: seq<DriverReply<T>>)
      requires Valid() && 0 < period && PeriodsOf(script, period)
      modifies this, source
      ensures Valid() && Conserved() && source.pcmOpen
      ensures source.period == period && source.script == script
      ensures consumed == [] && dropped == 0 && Held() == [] && source.Pending() == []
    {
      source.Restart(period, script);
      procBufFrames, procBufSize := 0, 0;
      consumed, dropped, kept := [], 0, [];
    }

    /** Makes room for `frames` frames in procBufIn; realloc keeps what is held. */
    method GrowProcBuf(frames: nat)
      requires Valid()
      modifies `procBufIn, `procBufSize
      ensures Valid() && Held() == old(Held()) && frames <= procBufSize
      ensures old(Conserved()) ==> Conserved()
      ensures procBufIn == old(procBufIn) || fresh(procBufIn)
    {
      if procBufSize < frames {
        var grown := new T[frames];
        CopyFrames(grown, 0, procBufIn, 0, procBufFrames);
        procBufIn, procBufSize := grown, frames;
      }
    }

    /** Reads until procBufIn holds `frames` frames. */
    method Fill(frames: nat) returns (r: int, ghost got: seq<T>)
      requires Valid() && source.pcmOpen && procBufFrames <= frames <= procBufSize
      modifies `procBufFrames, source, source.readBuf, procBufIn
      ensures Valid() && source.pcmOpen && source.period == old(source.period)
      ensures source.readBuf == old(source.readBuf) || fresh(source.readBuf)
      ensures source.taken == old(source.taken) + got
      ensures 0 <= r ==> procBufFrames == frames && Held() == old(Held()) + got
      ensures 0 <= r ==> source.Took(got, old(source.Available()), old(source.script))
      ensures r < 0 ==> Held() == old(Held()) && old(procBufFrames) + |got| < frames
      ensures r < 0 ==> got == old(source.Available()) && source.Drained(r, old(source.script))
      ensures |old(source.delivered)| <= |source.delivered|
    {
      ghost var all := procBufIn[..];
      r, got := source.ReadFrames(procBufIn, procBufFrames, frames - procBufFrames);
      SpliceFront(all, procBufFrames, got);
      if 0 <= r {
        procBufFrames := procBufFrames + r;
      }
    }

    /** The account of frames read: they wait for the effects, or they are dropped. */
    ghost method Account(held: seq<T>, taken: seq<T>, got: seq<T>, ok: bool)
      requires |kept| == |taken| && Keep(taken, kept) == consumed + held && Lost(kept) == dropped
      requires source.taken == taken + got && Held() == held + if ok then got else []
      modifies `kept, `dropped
      ensures Conserved() && dropped == old(dropped) + if ok then 0 else |got|
    {
      KeepMore(taken, kept, got, ok);
      Associate(consumed, held, got);
      kept := kept + Marks(ok, |got|);
      dropped := dropped + if ok then 0 else |got|;
      EndOfStream(held, []);
      EndOfStream(consumed + held, []);
    }

    /** Reads until procBufIn holds `frames` frames, and keeps account of them. */
    method FillKept(frames: nat) returns (r: int, ghost got: seq<T>)
      requires Valid() && Conserved() && source.pcmOpen && procBufFrames <= frames <= procBufSize
      modifies `procBufFrames, `dropped, `kept, source, source.readBuf, procBufIn
      ensures Valid() && Conserved() && source.pcmOpen && source.period == old(source.period)
      ensures source.readBuf == old(source.readBuf) || fresh(source.readBuf)
      ensures 0 <= r ==> procBufFrames == frames && Held() == old(Held()) + got && dropped == old(dropped)
      ensures 0 <= r ==> source.Took(got, old(source.Available()), old(source.script))
      ensures r < 0 ==> Held() == old(Held()) && old(procBufFrames) + |got| < frames
      ensures r < 0 ==> dropped == old(dropped) + |got|
      ensures r < 0 ==> got == old(source.Available()) && source.Drained(r, old(source.script))
      ensures |old(source.delivered)| <= |source.delivered|
    {
      ghost var held, taken := Held(), source.taken;
      r, got := Fill(frames);
      EndOfStream(held, []);
      Account(held, taken, got, 0 <= r);
    }

    /** The reload of process_frames. It fails exactly if too little is left before the next
        fault. Then the frames that this read_frames has copied are not counted and so are
        dropped: exactly those that were left before the fault, so that nothing is lost
        exactly if the fault meets an empty readBuf. */
    method Reload(frames: nat) returns (r: int)
      requires Valid() && Conserved() && source.pcmOpen
      modifies `procBufIn, `procBufSize, `procBufFrames, `dropped, `kept, source, source.readBuf, procBufIn
      ensures Valid() && Conserved() && source.pcmOpen
      ensures source.readBuf == old(source.readBuf) || fresh(source.readBuf)
      ensures procBufIn == old(procBufIn) || fresh(procBufIn)
      ensures source.period == old(source.period)
      ensures 0 <= r ==> frames <= procBufFrames && dropped == old(dropped)
      ensures 0 <= r ==> |Held()| == Max(frames, |old(Held())|)
      ensures 0 <= r ==> Held() + source.Available() == old(Held() + source.Available())
      ensures 0 <= r ==> SameFault(old(source.script))
      ensures r < 0 ==> |old(Held())| + |old(source.Available())| < frames && Held() == old(Held())
      ensures r < 0 ==> dropped == old(dropped) + |old(source.Available())|
      ensures r < 0 ==> source.Drained(r, old(source.script))
      ensures r < 0 <==> |old(Held())| + |old(source.Available())| < frames
      ensures dropped == old(dropped) <==> 0 <= r || old(source.readBufFrames == 0 && NextReadFails(source.script))
      ensures |old(source.delivered)| <= |source.delivered|
    {
      NothingToDropIff();
      r := 0;
      if procBufFrames < frames {
        ghost var got;
        GrowProcBuf(frames);
        r, got := FillKept(frames);
        Associate(old(Held()), got, source.Available());
      }
    }

    /** The driver will fault in the same way as it would have with the script s. */
    ghost predicate SameFault(s: seq<DriverReply<T>>)
      reads source`script
    {
      AfterFault(source.script) == AfterFault(s) && FaultStatus(source.script) == FaultStatus(s)
    }

    /** Since the stream was `total`, with the script s, the driver has not faulted: the
        frames consumed, those held and those to come are still `total`. */
    ghost predicate Undisturbed(total: seq<T>, dropped0: nat, s: seq<DriverReply<T>>)
      reads this, procBufIn, source, source.readBuf
    {
      consumed + Held() + source.Available() == total && dropped == dropped0 && SameFault(s)
    }

    /** Since the stream was `total`, the driver has faulted: the frames consumed and
        those held are a prefix of it, the rest is dropped, and too little was left to
        fill procBufIn up to `frames` frames. */
    ghost predicate Broken(frames: nat, total: seq<T>, dropped0: nat)
      reads this, procBufIn
    {
      && consumed + Held() <= total
      && |consumed + Held()| + dropped == |total| + dropped0
      && |Held()| + dropped < frames + dropped0
    }

    /** The numbers are those of the stream. */
    ghost predicate AtLevel(v: Level<T>)
      reads this, procBufIn, source, source.readBuf
    {
      && |consumed| == v.consumed && |Held()| == v.held && |Held()| + |source.Available()| == v.total
      && dropped == v.dropped && AfterFault(source.script) == AfterFault(v.script)
    }

    /** Since the stream was at v, n calls of the effects have been made. */
    ghost predicate Counted(effects: seq<EffectReply<T>>, n: nat, frames: nat, v: Level<T>)
      reads `consumed, `procBufIn, `procBufFrames, procBufIn
    {
      && n <= |effects|
      && |consumed| == v.consumed + Eaten(effects, n, frames, v.held)
      && |Held()| == HeldAfter(effects, n, frames, v.held)
    }

    lemma {:induction false} SettlesWell(effects: seq<EffectReply<T>>, n: nat, frames: nat, v: Level<T>, total: seq<T>,
                                         dropped0: nat, s: seq<DriverReply<T>>)
      requires Undisturbed(total, dropped0, s) && Counted(effects, n, frames, v)
      requires |total| == v.consumed + v.total && dropped0 == v.dropped && AfterFault(s) == AfterFault(v.script)
      ensures AtLevel(Settled(v, frames, effects, n, false))
    {
      assert |consumed + Held() + source.Available()| == |consumed| + |Held()| + |source.Available()|;
    }

    lemma {:induction false} SettlesBroken(effects: seq<EffectReply<T>>, n: nat, frames: nat, v: Level<T>, status: int,
                                           total: seq<T>, dropped0: nat, s: seq<DriverReply<T>>)
      requires Broken(frames, total, dropped0) && source.Drained(status, s) && Counted(effects, n, frames, v)
      requires |total| == v.consumed + v.total && dropped0 == v.dropped && AfterFault(s) == AfterFault(v.script)
      ensures AtLevel(Settled(v, frames, effects, n, true))
    {
      assert source.Pending() == [] && source.Available() == Supply(AfterFault(v.script));
    }

    /** One call of the effects: they consume frames from the front of procBufIn, what
        they leave is moved to the front, and what they produce goes to `out`. */
    method RunEffects(out: array<T>, at: nat, room: nat, reply: EffectReply<T>) returns (produced: nat)
      requires Valid() && Conserved()
      requires out != source.readBuf && out != procBufIn && at + room <= out.Length
      modifies `procBufFrames, `consumed, procBufIn, out
      ensures Valid() && Conserved()
      ensures produced == |reply.produced|
      ensures out[..at + Min(room, produced)] == old(out[..at]) + reply.produced[..Min(room, produced)]
      ensures out[at + Min(room, produced)..] == old(out[at + Min(room, produced)..])
      ensures consumed + Held() == old(consumed + Held())
      ensures |consumed| == |old(consumed)| + Min(reply.want, |old(Held())|)
    {
      produced := |reply.produced|;
      Put(out, at, reply.produced[..Min(room, produced)]);
      Consume(Min(reply.want, procBufFrames));
    }

    method Consume(inFrames: nat)
      requires Valid() && Conserved() && inFrames <= procBufFrames
      modifies `procBufFrames, `consumed, procBufIn
      ensures Valid() && Conserved()
      ensures consumed + Held() == old(consumed + Held())
      ensures |consumed| == |old(consumed)| + inFrames
    {
      ghost var held := Held();
      procBufFrames := procBufFrames - inFrames;
      if procBufFrames != 0 {
        forall i | 0 <= i < procBufFrames {
          procBufIn[i] := procBufIn[i + inFrames];
        }
      }
      assert Held() == held[inFrames..];
      Divide(consumed, held, inFrames);
      consumed := consumed + held[..inFrames];
    }

    /** One turn of process_frames that finds enough frames: the effects run once. The
        turn is over-supplied when they produce more than the room left, which the
        source reports and cuts off. */
    method Turn(out: array<T>, framesWr: nat, frames: nat, reply: EffectReply<T>, ghost total: seq<T>,
                ghost dropped0: nat, ghost script0: seq<DriverReply<T>>) returns (r: int)
      requires Valid() && Conserved() && source.pcmOpen && framesWr < frames <= out.Length
      requires out != source.readBuf && out != procBufIn
      requires Undisturbed(total, dropped0, script0)
      modifies this, source, source.readBuf, procBufIn, out
      ensures Valid() && Conserved() && source.pcmOpen
      ensures source.readBuf == old(source.readBuf) || fresh(source.readBuf)
      ensures procBufIn == old(procBufIn) || fresh(procBufIn)
      ensures 0 <= r ==> r == framesWr + Min(frames - framesWr, |reply.produced|)
      ensures 0 <= r ==> out[..r] == old(out[..framesWr]) + reply.produced[..Min(frames - framesWr, |reply.produced|)]
      ensures 0 <= r ==> Undisturbed(total, dropped0, script0)
      ensures r < 0 ==> Broken(frames, total, dropped0) && source.Drained(r, script0)
      ensures r < 0 <==> |old(Held())| + |old(source.Available())| < frames
      ensures 0 <= r ==> |consumed| == |old(consumed)| + Min(reply.want, Max(frames, |old(Held())|))
      ensures 0 <= r ==> |consumed + Held()| == |old(consumed)| + Max(frames, |old(Held())|)
      ensures r < 0 ==> consumed == old(consumed) && Held() == old(Held())
      ensures r < 0 ==> dropped == old(dropped) + |old(source.Available())|
      ensures |old(source.delivered)| <= |source.delivered|
    {
      ghost var was, held, avail := consumed, Held(), source.Available();
      r := Reload(frames);
      Associate(was, held, avail);
      if 0 <= r {
        Associate(was, Held(), source.Available());
        var produced := RunEffects(out, framesWr, frames - framesWr, reply);
        r := if framesWr + produced <= frames then framesWr + produced else frames;
      }
    }

    /** The same, for the effect call whose turn it is. */
    method NextTurn(out: array<T>, framesWr: nat, frames: nat, effects: seq<EffectReply<T>>, used: nat,
                    ghost total: seq<T>, ghost dropped0: nat, ghost script0: seq<DriverReply<T>>,
                    ghost v: Level<T>, ghost stop: nat) returns (r: int, next: nat)
      requires Valid() && Conserved() && source.pcmOpen && framesWr < frames <= out.Length && used < |effects|
      requires out != source.readBuf && out != procBufIn
      requires Undisturbed(total, dropped0, script0) && Delivered(out[..framesWr], effects, used, frames)
      requires |total| == v.consumed + v.total && Counted(effects, used, frames, v)
      requires stop == Stop(effects, used, frames, v.held, v.total)
      modifies this, source, source.readBuf, procBufIn, out
      ensures Valid() && Conserved() && source.pcmOpen
      ensures source.readBuf == old(source.readBuf) || fresh(source.readBuf)
      ensures procBufIn == old(procBufIn) || fresh(procBufIn)
      ensures r <= frames && next == used + if 0 <= r then 1 else 0
      ensures 0 <= r ==> Undisturbed(total, dropped0, script0) && Delivered(out[..r], effects, next, frames)
      ensures r < 0 ==> Broken(frames, total, dropped0) && source.Drained(r, script0)
      ensures 0 <= r ==> stop == Stop(effects, next, frames, v.held, v.total)
      ensures r < 0 ==> stop == next < |effects| && |Written(effects, stop, frames)| < frames
      ensures r < 0 ==> |consumed + Held()| + dropped == |total| + dropped0
      ensures Counted(effects, next, frames, v)
      ensures |old(source.delivered)| <= |source.delivered|
    {
      DeliveredNext(out[..framesWr], effects, used, frames);
      StopStep(out[..framesWr], effects, used, frames, v.held, v.total);
      r := Turn(out, framesWr, frames, effects[used], total, dropped0, script0);
      next := used + if 0 <= r then 1 else 0;
    }

    /** process_frames without auxiliary channels. `effects` are the replies of the
        effects from here on; `used` of them are needed. The run ends with `frames`
        frames of what the effects produced, with a driver fault, or, when the given
        replies are used up, in the middle of the loop. The numbers v of the stream
        before it decide which, and what they are after it. */
    method ProcessFrames(out: array<T>, frames: nat, effects: seq<EffectReply<T>>, ghost v: Level<T>)
      returns (r: int, used: nat)
      requires Valid() && Conserved() && source.pcmOpen && frames <= out.Length && AtLevel(v)
      requires out != source.readBuf && out != procBufIn
      modifies this, source, source.readBuf, procBufIn, out
      ensures Valid() && Conserved() && source.pcmOpen
      ensures source.readBuf == old(source.readBuf) || fresh(source.readBuf)
      ensures procBufIn == old(procBufIn) || fresh(procBufIn)
      ensures r <= frames && used == CallsMade(effects, frames, v.held, v.total)
      ensures r < 0 <==> Fails(effects, frames, v.held, v.total)
      ensures AtLevel(Settled(v, frames, effects, used, r < 0))
      ensures 0 <= r ==> Delivered(out[..r], effects, used, frames)
      ensures 0 <= r < frames ==> used == |effects|
      ensures 0 <= r ==> Undisturbed(old(consumed + Held() + source.Available()), old(dropped), old(source.script))
      ensures r < 0 ==> Broken(frames, old(consumed + Held() + source.Available()), old(dropped))
      ensures r < 0 ==> source.Drained(r, old(source.script))
      ensures |old(source.delivered)| <= |source.delivered| && |old(consumed)| <= |consumed|
    {
      ghost var total, dropped0, script0 := consumed + Held() + source.Available(), dropped, source.script;
      ghost var stop := CallsMade(effects, frames, v.held, v.total);
      r, used := 0, 0;
      while 0 <= r < frames && used < |effects|
        invariant Valid() && Conserved() && source.pcmOpen && r <= frames && used <= |effects|
        invariant source.readBuf == old(source.readBuf) || fresh(source.readBuf)
        invariant procBufIn == old(procBufIn) || fresh(procBufIn)
        invariant 0 <= r ==> Undisturbed(total, dropped0, script0) && Delivered(out[..r], effects, used, frames)
        invariant 0 <= r ==> stop == Stop(effects, used, frames, v.held, v.total)
        invariant r < 0 ==> Broken(frames, total, dropped0) && source.Drained(r, script0)
        invariant r < 0 ==> stop == used < |effects| && |Written(effects, stop, frames)| < frames
        invariant Counted(effects, used, frames, v)
        invariant |old(source.delivered)| <= |source.delivered|
        decreases |effects| - used + if 0 <= r then 1 else 0
      {
        r, used := NextTurn(out, r, frames, effects, used, total, dropped0, script0, v, stop);
      }
      if 0 <= r {
        StopsHere(out[..r], effects, used, frames, v.held, v.total);
        SettlesWell(effects, used, frames, v, total, dropped0, script0);
      } else {
        SettlesBroken(effects, used, frames, v, r, total, dropped0, script0);
      }
    }

    /** The numbers of the stream now. */
    ghost function Now(): (v: Level<T>)
      reads this, procBufIn, source, source.readBuf
      ensures AtLevel(v)
    {
      Level(|consumed|, |Held()|, |Held()| + |source.Available()|, dropped, source.script)
    }

    /** One read into a buffer of its own. */
    method Serve(request: Request<T>, ghost v: Level<T>) returns (r: int, ghost next: Level<T>)
      requires Valid() && Conserved() && source.pcmOpen && AtLevel(v)
      modifies this, source, source.readBuf, procBufIn
      ensures Valid() && Conserved() && source.pcmOpen
      ensures source.readBuf == old(source.readBuf) || fresh(source.readBuf)
      ensures procBufIn == old(procBufIn) || fresh(procBufIn)
      ensures next == AfterRead(v, request) && AtLevel(next) && (r < 0 <==> ReadFails(v, request))
      ensures 0 <= r ==> Undisturbed(old(consumed + Held() + source.Available()), old(dropped), old(source.script))
      ensures r < 0 ==> Broken(request.frames, old(consumed + Held() + source.Available()), old(dropped))
      ensures r < 0 ==> source.Drained(r, old(source.script))
    {
      var used;
      var out := new T[request.frames];
      r, used := ProcessFrames(out, request.frames, request.effects, v);
      next := Settled(v, request.frames, request.effects, used, r < 0);
    }

    /** Any sequence of reads, of any sizes, up to the first one that fails: which one that is,
        and how many frames have been consumed, the numbers v of the stream decide. */
    method Session(requests: seq<Request<T>>, ghost v: Level<T>) returns (r: int, served: nat)
      requires Valid() && Conserved() && source.pcmOpen && AtLevel(v)
      modifies this, source, source.readBuf, procBufIn
      ensures Valid() && Conserved() && source.pcmOpen
      ensures served == UntilFault(v, requests, 0).served && AtLevel(UntilFault(v, requests, 0).level)
      ensures r < 0 <==> served < |requests|
      ensures 0 <= r ==> Undisturbed(old(consumed + Held() + source.Available()), old(dropped), old(source.script))
      ensures r < 0 ==>
        Broken(requests[served].frames, old(consumed + Held() + source.Available()), old(dropped))
      ensures r < 0 ==> source.Drained(r, old(source.script))
    {
      ghost var level, total, end := v, consumed + Held() + source.Available(), UntilFault(v, requests, 0);
      r, served := 0, 0;
      while served < |requests| && 0 <= r
        invariant Valid() && Conserved() && source.pcmOpen && served <= |requests| && AtLevel(level)
        invariant source.readBuf == old(source.readBuf) || fresh(source.readBuf)
        invariant procBufIn == old(procBufIn) || fresh(procBufIn)
        invariant 0 <= r ==> end == UntilFault(level, requests, served)
        invariant 0 <= r ==> Undisturbed(total, old(dropped), old(source.script))
        invariant r < 0 ==> end == Outcome(served, level) && served < |requests|
        invariant r < 0 ==> Broken(requests[served].frames, total, old(dropped))
        invariant r < 0 ==> source.Drained(r, old(source.script))
        decreases |requests| - served + if 0 <= r then 1 else 0
      {
        r, level := Serve(requests[served], level);
        served := served + if 0 <= r then 1 else 0;
      }
    }

    /** The same, going on after faults, which may each drop a run of frames: how many frames
        are consumed, held and dropped is what the requests and the driver's script say. */
    method LongSession(requests: seq<Request<T>>, ghost v: Level<T>)
      requires Valid() && Conserved() && source.pcmOpen && AtLevel(v)
      modifies this, source, source.readBuf, procBufIn
      ensures Valid() && Conserved() && source.pcmOpen && AtLevel(AfterReads(v, requests, 0))
    {
      ghost var level, end := v, AfterReads(v, requests, 0);
      for i := 0 to |requests|
        invariant Valid() && Conserved() && source.pcmOpen && AtLevel(level)
        invariant source.readBuf == old(source.readBuf) || fresh(source.readBuf)
        invariant procBufIn == old(procBufIn) || fresh(procBufIn)
        invariant end == AfterReads(level, requests, i)
      {
        var r;
        r, level := Serve(requests[i], level);
      }
    }

    /** The frames consumed by the effects, then those in procBufIn, then those in readBuf are
        what the driver has delivered, without the frames that were dropped. */
    lemma {:induction false} NothingLost()
      requires Valid() && Conserved()
      ensures |source.delivered| == |consumed| + |Held()| + |source.Pending()| + dropped
      ensures source.delivered == source.taken + source.Pending()
      ensures |kept| == |source.taken| && Keep(source.taken, kept) == consumed + Held() && Lost(kept) == dropped
      ensures dropped == 0 ==> source.delivered == consumed + Held() + source.Pending()
    {
      KeepAll(source.taken, kept);
    }

    /** Nothing is left before the next fault exactly when it meets an empty readBuf, with no
        period before it. */
    lemma {:induction false} NothingToDropIff()
      requires Valid()
      ensures |source.Available()| == 0 <==> source.readBufFrames == 0 && NextReadFails(source.script)
    {
      if source.readBufFrames == 0 && !NextReadFails(source.script) {
        assert |source.script[0].frames| == source.period;
      }
    }
  }

  /** The input that loses frames: a driver that faults between two periods of one
      request. The period already copied is gone although the driver delivered it. */
  method FaultBetweenPeriods() returns (r: int, s: CaptureStream<int>)
    ensures r == EIO && |s.source.delivered| == s.dropped == 2
    ensures s.consumed == [] && s.Held() == [] && s.source.Pending() == []
  {
    var script := [Period([1, 2]), Fault(EIO), Period([3, 4])];
    s := new CaptureStream(2, script);
    assert script[1..][0] == Fault(EIO) && script[1..][1..] == script[2..];
    assert NextReadFails(script[1..]) && !NextReadFails(script);
    assert Supply(script[1..]) == [] && AfterFault(script[1..]) == script[2..] && FaultStatus(script[1..]) == EIO;
    assert Supply(script) == [1, 2] && AfterFault(script) == script[2..] && FaultStatus(script) == EIO;
    assert s.source.Available() == [1, 2];
    r := s.Reload(4);
    s.NothingLost();
  }

  lemma {:induction false} EndOfStream<T>(got: seq<T>, rest: seq<T>)
    requires rest == []
    ensures got + rest == got
  {
  }

  lemma {:induction false} Associate<T>(a: seq<T>, b: seq<T>, c: seq<T>)
    ensures (a + b) + c == a + (b + c)
  {
  }

  lemma {:induction false} Regroup<T>(got: seq<T>, rest: seq<T>, chunk: seq<T>, left: seq<T>)
    requires rest == chunk + left
    ensures got + rest == (got + chunk) + left
  {
  }

  lemma {:induction false} Divide<T>(front: seq<T>, s: seq<T>, n: nat)
    requires n <= |s|
    ensures (front + s[..n]) + s[n..] == front + s
  {
  }

  lemma {:induction false} SpliceFront<T>(s: seq<T>, at: nat, chunk: seq<T>)
    requires at + |chunk| <= |s|
    ensures Splice(s, at, chunk)[..at] == s[..at]
    ensures Splice(s, at, chunk)[..at + |chunk|] == s[..at] + chunk
  {
  }

  lemma {:induction false} SplitFront<T>(pending: seq<T>, supply: seq<T>, n: nat)
    requires n <= |pending|
    ensures pending + supply == pending[..n] + (pending[n..] + supply)
  {
  }
}
