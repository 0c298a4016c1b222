/** in_read has two ways to the client: through the effects, or, when there are none, straight
    from the driver into the client's buffer. The direct way does not look at what the stages
    of the other one still hold, so the frames can leave out of the order in which they came. */
module CaptureOrder {

  import opened Capture

  /** One in_read: the number of effects on the stream, the frames wanted, the replies of the
      effects, and the reply of the driver to a direct read. Only one of them is needed. */
  datatype Read<T> = Read(preprocessors: nat, frames: nat, effects: seq<EffectReply<T>>, reply: DriverReply<T>) {
    /** The driver fills the whole buffer or reports a fault. */
    predicate Legal() {
      reply.Period? ==> |reply.frames| == frames
    }

    function ThroughEffects(): Request<T> {
      Request(frames, effects)
    }
  }

  /** Whether in_read reports an error, and the numbers of the stream after it. */
  ghost predicate Errs<T>(v: Level<T>, read: Read<T>) {
    if read.preprocessors != 0 then ReadFails(v, read.ThroughEffects()) else read.reply.Fault?
  }

  ghost function After<T>(v: Level<T>, read: Read<T>): Level<T> {
    if read.preprocessors != 0 then AfterRead(v, read.ThroughEffects()) else v
  }

  /** How many reads, and to which numbers, until all are done or one has failed. */
  ghost function UntilError<T>(v: Level<T>, calls: seq<Read<T>>, i: nat): (o: Outcome<T>)
    requires i <= |calls|
    ensures o.served <= |calls|
    decreases |calls| - i
  {
    if i == |calls| then Outcome(i, v)
    else if Errs(v, calls[i]) then Outcome(i, After(v, calls[i]))
    else UntilError(After(v, calls[i]), calls, i + 1)
  }

  ghost predicate Distinct<T>(s: seq<T>) {
    forall i, j :: 0 <= i < j < |s| ==> s[i] != s[j]
  }

  /** Frames can be told apart when each occurs once. */
  lemma {:induction false} DistinctIff<T>(s: seq<T>)
    ensures Distinct(s) <==> forall x :: x in s ==> multiset(s)[x] == 1
  {
    if s != [] {
      var front, last := s[..|s| - 1], s[|s| - 1];
      assert s == front + [last];
      DistinctIff(front);
      assert last in s && forall x :: x in front ==> x in s;
      assert Distinct(s) <==> Distinct(front) && last !in front;
    }
  }

  class InputStream<T(0)> {
    const capture: CaptureStream<T>
    ghost var arrived: seq<T>  // frames that the driver has delivered, on either way
    ghost var left: seq<T>     // frames that effects have consumed and clients have read directly
    ghost var overtaken: bool  // a direct read has been made while frames were waiting

    /** Nothing has been dropped since the start. */
    ghost predicate Valid()
      reads this, capture, capture.procBufIn, capture.source, capture.source.readBuf
    {
      capture.Valid() && capture.Conserved() && capture.source.pcmOpen && capture.dropped == 0
    }

    /** The frames between the driver and the effects. */
    ghost function Waiting(): seq<T>
      reads capture`procBufIn, capture`procBufFrames, capture.procBufIn
      reads capture.source`readBuf, capture.source`readBufFrames, capture.source`period, capture.source.readBuf
    {
      capture.Held() + capture.source.Pending()
    }

    /** The frames leave in the order in which they have arrived. */
    ghost predicate InOrder()
      reads this, capture, capture.procBufIn, capture.source, capture.source.readBuf
    {
      left + Waiting() == arrived
    }

    constructor (period: nat, script: seq<DriverReply<T>>)
      requires 0 < period && PeriodsOf(script, period)
      ensures Valid() && InOrder() && OrderedIff() && !overtaken && left == [] && Waiting() == []
      ensures capture.source.period == period && capture.source.script == script
      ensures fresh(capture) && fresh(capture.source) && fresh(capture.source.readBuf) && fresh(capture.procBufIn)
    {
      capture := new CaptureStream(period, script);
      arrived, left, overtaken := [], [], false;
    }

    /** The account of the frames that have come and gone since the stream was as given. */
    ghost method AccountEffects(consumed: seq<T>, held: seq<T>, pending: seq<T>, supply: seq<T>, delivered: seq<T>)
      requires Valid() && |consumed| <= |capture.consumed| && |delivered| <= |capture.source.delivered|
      requires consumed + held + (pending + supply) == capture.consumed + capture.Held() + capture.source.Available()
      requires |delivered| == |consumed| + |held| + |pending|
      modifies `arrived, `left
      ensures left == old(left) + capture.consumed[|consumed|..]
      ensures arrived == old(arrived) + capture.source.delivered[|delivered|..]
      ensures Distinct(left + Waiting()) ==> Distinct(old(left) + (held + pending))
      ensures InOrder() <==> old(left) + (held + pending) == old(arrived)
    {
      capture.NothingLost();
      left, arrived :=
        Advance(left, arrived, |delivered|, capture.source.delivered, consumed, held, pending, supply,
                capture.consumed, capture.Held(), capture.source.Pending(), Supply(capture.source.script));
    }

    /** in_read through process_frames. */
    method ReadEffects(out: array<T>, frames: nat, effects: seq<EffectReply<T>>, ghost v: Level<T>)
      returns (r: int, used: nat)
      requires Valid() && frames <= out.Length && capture.AtLevel(v)
      requires out != capture.source.readBuf && out != capture.procBufIn
      modifies `arrived, `left, capture, capture.source, capture.source.readBuf, capture.procBufIn, out
      ensures capture.source.readBuf == old(capture.source.readBuf) || fresh(capture.source.readBuf)
      ensures capture.procBufIn == old(capture.procBufIn) || fresh(capture.procBufIn)
      ensures r <= frames && used == CallsMade(effects, frames, v.held, v.total)
      ensures r < 0 <==> Fails(effects, frames, v.held, v.total)
      ensures capture.AtLevel(Settled(v, frames, effects, used, r < 0))
      ensures 0 <= r ==> Valid() && Delivered(out[..r], effects, used, frames)
      ensures |old(capture.consumed)| <= |capture.consumed|
      ensures |old(capture.source.delivered)| <= |capture.source.delivered|
      ensures 0 <= r ==> left == old(left) + capture.consumed[|old(capture.consumed)|..]
      ensures 0 <= r ==> arrived == old(arrived) + capture.source.delivered[|old(capture.source.delivered)|..]
      ensures 0 <= r && Distinct(left + Waiting()) ==> Distinct(old(left + Waiting()))
      ensures 0 <= r ==> (InOrder() <==> old(InOrder()))
    {
      ghost var consumed, held, pending := capture.consumed, capture.Held(), capture.source.Pending();
      ghost var supply, delivered := Supply(capture.source.script), capture.source.delivered;
      capture.NothingLost();
      r, used := capture.ProcessFrames(out, frames, effects, v);
      if 0 <= r {
        AccountEffects(consumed, held, pending, supply, delivered);
      }
    }

    /** pcm_read into the client's buffer; the status also goes to read_status. */
    method PcmRead(out: array<T>, reply: DriverReply<T>) returns (r: int)
      requires Valid() && (reply.Period? ==> |reply.frames| <= out.Length)
      requires out != capture.source.readBuf && out != capture.procBufIn
      modifies capture.source`readStatus, out
      ensures Waiting() == old(Waiting()) && capture.source.readStatus == r
      ensures Valid() <==> 0 <= r || capture.source.readBufFrames == 0
      ensures r == if reply.Fault? then reply.status else 0
      ensures reply.Period? ==> out[0..|reply.frames|] == reply.frames
    {
      r := if reply.Fault? then reply.status else 0;
      capture.source.readStatus := r;
      if reply.Period? {
        Load(out, reply.frames);
      }
    }

    /** The account of frames that the client has received at once. */
    ghost method Account(frames: seq<T>)
      modifies `arrived, `left
      ensures left == old(left) + frames && arrived == old(arrived) + frames
      ensures Distinct(left + Waiting()) ==>
        && Distinct(old(left + Waiting()))
        && (InOrder() <==> old(InOrder()) && (frames == [] || Waiting() == []))
    {
      Overtake(left, arrived, Waiting(), frames);
      left, arrived := left + frames, arrived + frames;
    }

    /** in_read through pcm_read_convert: the driver fills the client's buffer. */
    method ReadDirect(out: array<T>, frames: nat, reply: DriverReply<T>) returns (r: int)
      requires Valid() && frames <= out.Length && (reply.Period? ==> |reply.frames| == frames)
      requires out != capture.source.readBuf && out != capture.procBufIn
      modifies `arrived, `left, capture.source`readStatus, out
      ensures Waiting() == old(Waiting()) && capture.source.readStatus == r
      ensures Valid() <==> 0 <= r || capture.source.readBufFrames == 0
      ensures r == if reply.Fault? then reply.status else 0
      ensures reply.Period? ==> out[0..frames] == reply.frames
      ensures left == old(left) + if 0 <= r then reply.frames else []
      ensures arrived == old(arrived) + if 0 <= r then reply.frames else []
      ensures 0 <= r && Distinct(left + Waiting()) ==>
        && Distinct(old(left + Waiting()))
        && (InOrder() <==> old(InOrder()) && (frames == 0 || Waiting() == []))
    {
      r := PcmRead(out, reply);
      if reply.Period? {
        Account(reply.frames);
      } else {
        NoMore(left, arrived);
      }
    }

    /** A read that takes frames straight from the driver while earlier ones wait. */
    ghost predicate Overtakes(read: Read<T>)
      reads capture`procBufIn, capture`procBufFrames, capture.procBufIn
      reads capture.source`readBuf, capture.source`readBufFrames, capture.source`period, capture.source.readBuf
    {
      read.preprocessors == 0 && read.frames != 0 && Waiting() != []
    }

    /** When frames can be told apart, the order is kept exactly if no read has overtaken. */
    ghost predicate OrderedIff()
      reads this, capture, capture.procBufIn, capture.source, capture.source.readBuf
    {
      Distinct(left + Waiting()) ==> (InOrder() <==> !overtaken)
    }

    /** What the client finds in its buffer. */
    static ghost predicate Received(out: array<T>, r: int, read: Read<T>, used: nat)
      reads out
    {
      if read.preprocessors != 0 then
        0 <= r <= out.Length && Delivered(out[..r], read.effects, used, read.frames)
      else
        && r == 0 && read.reply.Period? && |read.reply.frames| <= out.Length
        && out[0..|read.reply.frames|] == read.reply.frames
    }

    /** in_read on a running stream, up to the choice of the way. */
    method Transfer(out: array<T>, read: Read<T>, ghost v: Level<T>) returns (r: int, ghost used: nat)
      requires Valid() && read.frames <= out.Length && read.Legal() && capture.AtLevel(v)
      requires out != capture.source.readBuf && out != capture.procBufIn
      modifies `arrived, `left, capture, capture.source, capture.source.readBuf, capture.procBufIn, out
      ensures capture.source.readBuf == old(capture.source.readBuf) || fresh(capture.source.readBuf)
      ensures capture.procBufIn == old(capture.procBufIn) || fresh(capture.procBufIn)
      ensures (r < 0 <==> Errs(v, read)) && capture.AtLevel(After(v, read)) && (0 <= r ==> Valid())
      ensures 0 <= r ==> Received(out, r, read, used)
      ensures 0 <= r ==>
        |left| == |old(left)| + if read.preprocessors != 0 then After(v, read).consumed - v.consumed else read.frames
      ensures 0 <= r && Distinct(left + Waiting()) ==>
        && Distinct(old(left + Waiting()))
        && (InOrder() <==> old(InOrder()) && !old(Overtakes(read)))
    {
      used := 0;
      if read.preprocessors != 0 {
        r, used := ReadEffects(out, read.frames, read.effects, v);
      } else {
        r := ReadDirect(out, read.frames, read.reply);
      }
    }

    /** in_read on a running stream. */
    method InRead(out: array<T>, read: Read<T>, ghost v: Level<T>) returns (r: int, ghost used: nat)
      requires Valid() && OrderedIff() && read.frames <= out.Length && read.Legal() && capture.AtLevel(v)
      requires out != capture.source.readBuf && out != capture.procBufIn
      modifies this, capture, capture.source, capture.source.readBuf, capture.procBufIn, out
      ensures capture.source.readBuf == old(capture.source.readBuf) || fresh(capture.source.readBuf)
      ensures capture.procBufIn == old(capture.procBufIn) || fresh(capture.procBufIn)
      ensures (r < 0 <==> Errs(v, read)) && capture.AtLevel(After(v, read))
      ensures 0 <= r ==> Received(out, r, read, used)
      ensures 0 <= r ==>
        |left| == |old(left)| + if read.preprocessors != 0 then After(v, read).consumed - v.consumed else read.frames
      ensures overtaken == old(overtaken || Overtakes(read))
      ensures 0 <= r ==> Valid() && OrderedIff()
    {
      overtaken := overtaken || Overtakes(read);
      r, used := Transfer(out, read, v);
    }

    /** One in_read into a buffer of its own. */
    method Serve(read: Read<T>, ghost v: Level<T>) returns (r: int, ghost next: Level<T>)
      requires Valid() && OrderedIff() && capture.AtLevel(v) && read.Legal()
      modifies this, capture, capture.source, capture.source.readBuf, capture.procBufIn
      ensures capture.source.readBuf == old(capture.source.readBuf) || fresh(capture.source.readBuf)
      ensures capture.procBufIn == old(capture.procBufIn) || fresh(capture.procBufIn)
      ensures (r < 0 <==> Errs(v, read)) && next == After(v, read) && capture.AtLevel(next)
      ensures old(overtaken) ==> overtaken
      ensures 0 <= r ==> Valid() && OrderedIff()
    {
      ghost var used;
      var out := new T[read.frames];
      r, used := InRead(out, read, v);
      next := After(v, read);
    }

    /** Any sequence of reads, with and without effects, up to the first fault. */
    method Session(calls: seq<Read<T>>, ghost v: Level<T>) returns (r: int, served: nat)
      requires Valid() && OrderedIff() && capture.AtLevel(v) && forall i :: 0 <= i < |calls| ==> calls[i].Legal()
      modifies this, capture, capture.source, capture.source.readBuf, capture.procBufIn
      ensures served == UntilError(v, calls, 0).served && capture.AtLevel(UntilError(v, calls, 0).level)
      ensures r < 0 <==> served < |calls|
      ensures old(overtaken) ==> overtaken
      ensures 0 <= r ==> Valid() && OrderedIff()
    {
      ghost var level, end := v, UntilError(v, calls, 0);
      r, served := 0, 0;
      while served < |calls| && 0 <= r
        invariant served <= |calls| && capture.AtLevel(level)
        invariant capture.source.readBuf == old(capture.source.readBuf) || fresh(capture.source.readBuf)
        invariant capture.procBufIn == old(capture.procBufIn) || fresh(capture.procBufIn)
        invariant old(overtaken) ==> overtaken
        invariant 0 <= r ==> Valid() && OrderedIff() && end == UntilError(level, calls, served)
        invariant r < 0 ==> end == Outcome(served, level) && served < |calls|
        decreases |calls| - served + if 0 <= r then 1 else 0
      {
        r, level := Serve(calls[served], level);
        served := served + if 0 <= r then 1 else 0;
      }
    }
  }

  /** What the effects do keeps the order as it was: the frames that come in follow those that
      have arrived. */
  lemma {:induction false} Advance<T>(left: seq<T>, arrived: seq<T>, n: nat, delivered: seq<T>,
                                      consumed: seq<T>, held: seq<T>, pending: seq<T>, supply: seq<T>,
                                      consumed': seq<T>, held': seq<T>, pending': seq<T>, supply': seq<T>)
    returns (left': seq<T>, arrived': seq<T>)
    requires consumed + held + (pending + supply) == consumed' + held' + (pending' + supply')
    requires |consumed| <= |consumed'| && n == |consumed| + |held| + |pending| <= |delivered|
    requires delivered == consumed' + held' + pending'
    ensures left' == left + consumed'[|consumed|..] && arrived' == arrived + delivered[n..]
    ensures Distinct(left' + (held' + pending')) ==> Distinct(left + (held + pending))
    ensures left' + (held' + pending') == arrived' <==> left + (held + pending) == arrived
  {
    var before, after := consumed + held + pending, consumed' + held' + pending';
    var came, gone := after[|before|..], consumed'[|consumed|..];
    Grouped(consumed, held, pending, supply);
    Grouped(consumed', held', pending', supply');
    Front(before, supply, after, supply');
    Front(consumed, held + (pending + supply), consumed', held' + (pending' + supply'));
    assert gone + (held' + pending') == after[|consumed|..] == (held + pending) + came;
    Grouped(left, held, pending, came);
    assert left + gone + (held' + pending') == left + (gone + (held' + pending'));
    Cancel(left + (held + pending), arrived, came);
    DistinctFront(left + (held + pending), came);
    left', arrived' := left + gone, arrived + came;
  }

  lemma {:induction false} DistinctFront<T>(a: seq<T>, b: seq<T>)
    ensures Distinct(a + b) ==> Distinct(a)
  {
    assert forall i :: 0 <= i < |a| ==> a[i] == (a + b)[i];
  }

  lemma {:induction false} Grouped<T>(a: seq<T>, b: seq<T>, c: seq<T>, d: seq<T>)
    ensures a + b + (c + d) == a + (b + (c + d)) == (a + b + c) + d == a + (b + c) + d == a + ((b + c) + d)
  {
  }

  /** The shorter one of two fronts of a sequence begins the longer one. */
  lemma {:induction false} Front<T>(a: seq<T>, rest: seq<T>, b: seq<T>, rest': seq<T>)
    requires a + rest == b + rest' && |a| <= |b|
    ensures b == a + b[|a|..]
  {
    assert a == (a + rest)[..|a|] && b[..|a|] == (b + rest')[..|a|];
  }

  lemma {:induction false} NoMore<T>(a: seq<T>, b: seq<T>)
    ensures a + [] == a && b + [] == b
  {
  }

  lemma {:induction false} Cancel<T>(a: seq<T>, b: seq<T>, c: seq<T>)
    ensures a + c == b + c <==> a == b
  {
    if a + c == b + c {
      assert a == (a + c)[..|a|] && b == (b + c)[..|b|];
    }
  }

  /** A direct read keeps the order exactly if nothing waits. */
  lemma {:induction false} Overtake<T>(left: seq<T>, arrived: seq<T>, waiting: seq<T>, frames: seq<T>)
    ensures Distinct(left + frames + waiting) ==>
      && Distinct(left + waiting)
      && (left + frames + waiting == arrived + frames <==> left + waiting == arrived && (frames == [] || waiting == []))
  {
    var was, s := left + waiting, left + frames + waiting;
    if Distinct(s) {
      forall i, j | 0 <= i < j < |was|
        ensures was[i] != was[j]
      {
        var n := |frames|;
        assert was[i] == s[if i < |left| then i else i + n] && was[j] == s[if j < |left| then j else j + n];
      }
      if frames == [] || waiting == [] {
        Cancel(left, arrived, frames);
        assert waiting == [] ==> s == left + frames && was == left;
        assert frames == [] ==> s == was && arrived + frames == arrived;
      } else {
        assert s[|left| + |frames| - 1] == frames[|frames| - 1];
        assert (arrived + frames)[|arrived| + |frames| - 1] == frames[|frames| - 1];
      }
    }
  }
}
