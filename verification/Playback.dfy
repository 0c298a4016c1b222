/** Output arbitration of the audio HAL: many output streams share a PCM device through
    start_output_stream, do_output_standby, audio patches, flush, open and close.

    A step is what the source does under one hold of the device mutex, so that any sequence
    of steps is an interleaving of the clients; closing a stream takes two steps. Only the
    standby after failing writes holds no more than the mutex of its stream. It is a step of
    its own too, since it touches no other stream. What the driver answers to an open is a
    parameter. */
module Playback {

  import opened Wrappers

  /** pcm_open and compress_open return no handle, one that is not ready, or a good one. */
  datatype OpenOutcome = NoHandle | NotReady | Ready

  const DEVICE_OUT_BUS := 0x1000000
  const DEVICE_NONE := 0
  const PATCH_HANDLE_NONE := 0
  const EINVAL := -22
  const EBUSY := -16
  const EIO := -5

  class StreamOut {
    const ioHandle: int
    const direct: bool    // AUDIO_OUTPUT_FLAG_DIRECT
    const compress: bool  // AUDIO_OUTPUT_FLAG_COMPRESS_OFFLOAD on a format other than DSD
    var device: int
    var patchHandle: int
    var standby: bool
    var pcm: Option<nat>
    var compr: Option<nat>
    var wm8962: bool      // card_index is set and names the wm8962-audio driver
    var closing: bool     // the client is inside adev_close_output_stream

    constructor (ioHandle: int, device: int, direct: bool, compress: bool)
      ensures this.ioHandle == ioHandle && this.device == device
      ensures this.direct == direct && this.compress == compress
      ensures standby && pcm == None && compr == None && patchHandle == PATCH_HANDLE_NONE && !wm8962 && !closing
    {
      this.ioHandle, this.device, this.direct, this.compress := ioHandle, device, direct, compress;
      standby, pcm, compr, patchHandle, wm8962, closing := true, None, None, PATCH_HANDLE_NONE, false, false;
    }

    ghost predicate Holds(h: nat)
      reads `pcm, `compr
    {
      pcm == Some(h) || compr == Some(h)
    }

    /** A stream in standby holds no handle. */
    ghost predicate Quiet()
      reads `standby, `pcm, `compr
    {
      standby ==> pcm == None && compr == None
    }

    /** A stream only ever uses the handle of its own kind. */
    ghost predicate OneKind()
      reads `pcm, `compr
    {
      if compress then pcm == None else compr == None
    }
  }

  class AudioDevice {
    var inCall: bool
    var scoRxRunning: bool
    var outStreams: seq<StreamOut>
    var nextPatchHandle: int
    // The driver's ledger: handles 0 .. issued - 1 have been opened so far.
    var issued: nat
    ghost var closed: multiset<nat>
    ghost var history: seq<Command>  // the steps that clients have taken

    /** do_output_standby does nothing during a call or while HFP is receiving. */
    predicate Refuses()
      reads `inCall, `scoRxRunning
    {
      inCall || scoRxRunning
    }

    ghost predicate Distinct()
      reads `outStreams
    {
      forall i, j :: 0 <= i < j < |outStreams| ==> outStreams[i] != outStreams[j]
    }

    /** Two streams that play on one device other than a BUS are both DIRECT. */
    ghost predicate Arbitrated()
      reads `outStreams, outStreams`standby, outStreams`device
    {
      forall s, t :: s in outStreams && t in outStreams && Contend(s, t) ==> s.direct && t.direct
    }

    static ghost predicate Contend(s: StreamOut, t: StreamOut)
      reads s`standby, s`device, t`standby, t`device
    {
      s != t && !s.standby && !t.standby && s.device == t.device && s.device != DEVICE_OUT_BUS
    }

    /** Every handle ever opened was closed once, or is held by one stream. */
    ghost predicate HandlesConserved()
      reads `outStreams, outStreams`pcm, outStreams`compr, `issued, `closed
    {
      && (forall h :: h in closed ==> h < issued && closed[h] == 1)
      && (forall h: nat, s :: s in outStreams && s.Holds(h) ==> h < issued && h !in closed)
      && (forall h: nat, s, t :: s in outStreams && t in outStreams && s.Holds(h) && t.Holds(h) ==> s == t)
      && (forall h: nat :: h < issued && h !in closed ==> exists s :: s in outStreams && s.Holds(h))
      && (forall s :: s in outStreams ==> s.OneKind())
    }

    /** A patch handle other than NONE names at most one stream, and was generated here. */
    ghost predicate PatchesUnique()
      reads `outStreams, outStreams`patchHandle, `nextPatchHandle
    {
      && PATCH_HANDLE_NONE <= nextPatchHandle
      && (forall s :: s in outStreams ==> PATCH_HANDLE_NONE <= s.patchHandle <= nextPatchHandle)
      && forall s, t :: s in outStreams && t in outStreams && s.patchHandle == t.patchHandle != PATCH_HANDLE_NONE ==>
           s == t
    }

    ghost predicate Valid()
      reads this, outStreams
    {
      Distinct() && HandlesConserved() && forall s :: s in outStreams ==> s.Quiet()
    }

    /** A stream whose close has begun stays in standby. */
    ghost predicate ClosingQuiet()
      reads `outStreams, outStreams`standby, outStreams`closing
    {
      forall s :: s in outStreams && s.closing ==> s.standby
    }

    constructor ()
      ensures Valid() && Arbitrated() && ClosingQuiet() && PatchesUnique() && outStreams == [] && !Refuses()
    {
      inCall, scoRxRunning, outStreams, nextPatchHandle := false, false, [], PATCH_HANDLE_NONE;
      issued, closed, history := 0, multiset{}, [];
    }

    ghost function Handles(o: Option<nat>): multiset<nat> {
      if o.Some? then multiset{o.value} else multiset{}
    }

    /** pcm_close of the handle that `out` holds, and its release. */
    method ClosePcm(out: StreamOut)
      requires HandlesConserved() && out in outStreams
      modifies `closed, out`pcm
      ensures HandlesConserved() && out.pcm == None
      ensures closed == old(closed) + Handles(old(out.pcm))
    {
      if out.pcm.Some? {
        assert out.Holds(out.pcm.value);
        closed := closed + multiset{out.pcm.value};
        out.pcm := None;
      }
    }

    /** compress_close of the handle that `out` holds, and its release. */
    method CloseCompr(out: StreamOut)
      requires HandlesConserved() && out in outStreams
      modifies `closed, out`compr
      ensures HandlesConserved() && out.compr == None
      ensures closed == old(closed) + Handles(old(out.compr))
    {
      if out.compr.Some? {
        assert out.Holds(out.compr.value);
        closed := closed + multiset{out.compr.value};
        out.compr := None;
      }
    }

    /** A handle from the driver, stored in the stream that has asked for it. */
    method Store(out: StreamOut) returns (h: nat)
      requires HandlesConserved() && out in outStreams && out.pcm == None && out.compr == None
      modifies `issued, out`pcm, out`compr
      ensures HandlesConserved() && h == old(issued) && issued == h + 1
      ensures if out.compress then out.pcm == None && out.compr == Some(h) else out.pcm == Some(h) && out.compr == None
    {
      h := issued;
      issued := issued + 1;
      if out.compress {
        out.compr := Some(h);
      } else {
        out.pcm := Some(h);
      }
      assert out.Holds(h);
    }

    /** The open of start_output_stream, for a stream that holds nothing; a handle that is
        not ready is closed again at once. */
    method OpenChecked(out: StreamOut, outcome: OpenOutcome) returns (status: int)
      requires HandlesConserved() && out in outStreams && out.pcm == None && out.compr == None
      modifies `issued, `closed, out`pcm, out`compr
      ensures HandlesConserved()
      ensures status == if outcome.NotReady? then EIO else 0
      ensures !outcome.Ready? ==> out.pcm == None && out.compr == None
      ensures outcome.Ready? ==> out.Holds(old(issued))
      ensures issued == old(issued) + if outcome.NoHandle? then 0 else 1
      ensures closed == old(closed) + if outcome.NotReady? then multiset{old(issued)} else multiset{}
    {
      status := 0;
      if !outcome.NoHandle? {
        var h := Store(out);
        if outcome.NotReady? {
          if out.compress {
            CloseCompr(out);
          } else {
            ClosePcm(out);
          }
          status := EIO;
        }
      }
    }

    /** Whether do_output_standby takes the stream down. */
    predicate StandsDown(out: StreamOut, force: bool)
      reads `inCall, `scoRxRunning, out`wm8962, out`standby
    {
      !Refuses() && (force || !out.wm8962) && !out.standby
    }

    method DoOutputStandby(out: StreamOut, force: bool)
      requires HandlesConserved() && out in outStreams
      modifies `closed, out`standby, out`pcm, out`compr
      ensures HandlesConserved()
      ensures out.standby == (old(out.standby) || old(StandsDown(out, force)))
      ensures !old(StandsDown(out, force)) ==> out.pcm == old(out.pcm) && out.compr == old(out.compr)
      ensures !old(StandsDown(out, force)) ==> closed == old(closed)
      ensures old(StandsDown(out, force)) ==> out.pcm == None && out.compr == None
      ensures old(StandsDown(out, force)) ==> closed == old(closed + Handles(out.pcm) + Handles(out.compr))
    {
      if inCall || scoRxRunning || (!force && out.wm8962) {
        return;
      }
      if !out.standby {
        out.standby := true;
        if out.compress {
          CloseCompr(out);
          return;
        }
        ClosePcm(out);
      }
    }

    /** Whether a start of `out` puts the stream s into standby first. */
    ghost predicate Preempts(out: StreamOut, s: StreamOut)
      reads `inCall, `scoRxRunning, out`device, s`device, s`standby
    {
      !Refuses() && out.direct && !s.direct && s.device == out.device && !s.standby
    }

    /** "First" in start_output_stream: a DIRECT stream displaces the others. */
    method DisplaceNonDirect(out: StreamOut)
      requires Valid() && out in outStreams && out.standby
      modifies `closed, outStreams`standby, outStreams`pcm, outStreams`compr
      ensures Valid()
      ensures forall s :: s in outStreams ==> s.standby == (old(s.standby) || old(Preempts(out, s)))
      ensures forall s :: s in outStreams && !old(Preempts(out, s)) ==> s.pcm == old(s.pcm) && s.compr == old(s.compr)
    {
      if out.direct {
        for i := 0 to |outStreams|
          invariant Valid()
          invariant forall s :: s in outStreams[..i] ==> s.standby == (old(s.standby) || old(Preempts(out, s)))
          invariant forall s :: s in outStreams[i..] ==> s.standby == old(s.standby)
          invariant forall s :: s in outStreams && (s in outStreams[i..] || !old(Preempts(out, s))) ==>
            s.pcm == old(s.pcm) && s.compr == old(s.compr)
        {
          var stream := outStreams[i];
          if stream.device == out.device && !stream.direct && !stream.standby {
            DoOutputStandby(stream, true);
          }
        }
      }
    }

    /** Whether another stream plays on the device that `out` wants. */
    ghost predicate Occupied(out: StreamOut)
      reads `outStreams, outStreams`device, outStreams`standby, out`device
    {
      exists s :: s in outStreams && s.device == out.device && !s.standby
    }

    method FindOccupied(out: StreamOut) returns (busy: bool)
      ensures busy == Occupied(out)
    {
      for i := 0 to |outStreams|
        invariant forall s :: s in outStreams[..i] ==> s.device != out.device || s.standby
      {
        if outStreams[i].device == out.device && !outStreams[i].standby {
          return true;
        }
      }
      return false;
    }

    /** Whether start_output_stream lets `out` go on to the open. */
    ghost predicate Admits(out: StreamOut, passthrough: bool)
      reads `outStreams, outStreams`device, outStreams`standby, out`device
    {
      out.direct || ((out.device == DEVICE_OUT_BUS || !Occupied(out)) && !passthrough)
    }

    /** "First" and "Second" in start_output_stream, and the passthrough test. */
    method Admit(out: StreamOut, passthrough: bool) returns (ok: bool)
      requires Valid() && out in outStreams && out.standby
      modifies `closed, outStreams`standby, outStreams`pcm, outStreams`compr
      ensures Valid()
      ensures forall s :: s in outStreams ==> s.standby == (old(s.standby) || old(Preempts(out, s)))
      ensures ok == old(Admits(out, passthrough))
    {
      DisplaceNonDirect(out);
      if !out.direct && out.device != DEVICE_OUT_BUS {
        var busy := FindOccupied(out);
        if busy {
          return false;
        }
      }
      return !passthrough || out.direct;
    }

    /** Whether the lookup of the card stores its index in the stream: it does so when it finds
        a card for the device, but not for a BUS. */
    static ghost predicate Looks(out: StreamOut, card: int)
      reads out`device
    {
      0 <= card && out.device != DEVICE_OUT_BUS
    }

    /** start_output_stream, up to and including the open. On success the stream holds what
        the driver gave; its standby flag is cleared by the caller. */
    method StartOutputStream(out: StreamOut, passthrough: bool, card: int, wm8962: bool, outcome: OpenOutcome)
      returns (status: int)
      requires Valid() && out in outStreams && out.standby
      modifies `issued, `closed, outStreams`standby, outStreams`pcm, outStreams`compr, out`wm8962
      ensures HandlesConserved() && Distinct()
      ensures forall s :: s in outStreams ==> s.standby == (old(s.standby) || old(Preempts(out, s)))
      ensures forall s :: s in outStreams && (s != out || status != 0) ==> s.Quiet()
      ensures status == 0 <==> old(Admits(out, passthrough)) && 0 <= card && !outcome.NotReady?
      ensures status == if !old(Admits(out, passthrough)) then -16 else if card < 0 then -22
                        else if outcome.NotReady? then -5 else 0
      ensures status == -16 <==>
        !out.direct &&
        (passthrough || (out.device != 0x100_0000 &&
                         exists s :: s in outStreams && s.device == out.device && !old(s.standby)))
      ensures status == 0 && outcome.Ready? ==> out.Holds(old(issued))
      ensures status == 0 && outcome.NoHandle? ==> out.pcm == None && out.compr == None
      ensures out.wm8962 == if old(Admits(out, passthrough)) && Looks(out, card) then wm8962 else old(out.wm8962)
    {
      var ok := Admit(out, passthrough);
      if !ok {
        return EBUSY;
      }
      if card < 0 {
        return EINVAL;
      }
      if out.device != DEVICE_OUT_BUS {
        out.wm8962 := wm8962;
      }
      status := OpenChecked(out, outcome);
    }

    /** A DIRECT start that could not displace the others. */
    ghost predicate Jammed(out: StreamOut)
      reads `inCall, `scoRxRunning, `outStreams, outStreams`device, outStreams`standby, out`device
    {
      && Refuses() && out.direct && out.device != DEVICE_OUT_BUS
      && exists s :: s in outStreams && s != out && !s.direct && !s.standby && s.device == out.device
    }

    ghost function Playing(): set<StreamOut>
      reads `outStreams, outStreams`standby
    {
      set s | s in outStreams && !s.standby
    }

    /** What the start of an admitted stream does to the arbitration, when the streams `before`
        were playing. */
    lemma {:induction false} StartArbitrates(out: StreamOut, before: set<StreamOut>)
      requires out in outStreams && !out.standby && out !in before
      requires forall s :: s in before ==>
        s in outStreams && (s.device == out.device ==> out.direct || out.device == DEVICE_OUT_BUS)
      requires forall s, t :: s in before && t in before && s != t && s.device == t.device != DEVICE_OUT_BUS ==>
        s.direct && t.direct
      requires forall s :: s in outStreams && s != out ==>
        (!s.standby <==> s in before && (Refuses() || !out.direct || s.direct || s.device != out.device))
      ensures Arbitrated() <==> !(Refuses() && out.direct && out.device != DEVICE_OUT_BUS
                                  && exists s :: s in before && !s.direct && s.device == out.device)
    {
      forall s | s in before && !s.direct && s.device == out.device != DEVICE_OUT_BUS && Refuses() && out.direct
        ensures Contend(s, out)
      {
      }
    }

    /** The opening part of out_write. */
    method BeginWrite(out: StreamOut, passthrough: bool, card: int, wm8962: bool, outcome: OpenOutcome)
      returns (status: int)
      requires Valid() && out in outStreams
      modifies `issued, `closed, outStreams`standby, outStreams`pcm, outStreams`compr, out`wm8962
      ensures Valid()
      ensures out.standby <==> status != 0
      ensures status == 0 <==> !old(out.standby) || (old(Admits(out, passthrough)) && 0 <= card && !outcome.NotReady?)
      ensures status == 0 && old(out.standby) && outcome.Ready? ==> out.Holds(old(issued))
      ensures out.wm8962 ==
        if old(out.standby && Admits(out, passthrough)) && Looks(out, card) then wm8962 else old(out.wm8962)
      ensures !old(out.standby) ==> out.pcm == old(out.pcm) && out.compr == old(out.compr)
      ensures old(Arbitrated()) && (status != 0 || !old(out.standby)) ==> Arbitrated()
      ensures old(Arbitrated()) && status == 0 && old(out.standby) ==> (Arbitrated() <==> !old(Jammed(out)))
      ensures forall s :: s in outStreams && s != out ==>
        s.standby == (old(s.standby) || (old(out.standby) && old(Preempts(out, s))))
    {
      status := 0;
      ghost var before, arbitrated := Playing(), Arbitrated();
      if out.standby {
        status := StartOutputStream(out, passthrough, card, wm8962, outcome);
        if status == 0 {
          out.standby := false;
          if arbitrated {
            StartArbitrates(out, before);
          }
        }
      }
    }

    /** do_output_standby by the stream itself, with nothing to prevent it but a call or HFP. */
    method ForceStandby(out: StreamOut)
      requires Valid() && out in outStreams
      modifies `closed, out`standby, out`pcm, out`compr
      ensures Valid() && (old(Arbitrated()) ==> Arbitrated())
      ensures out.standby == (old(out.standby) || (!inCall && !scoRxRunning))
      ensures old(out.standby) || Refuses() ==> out.pcm == old(out.pcm) && out.compr == old(out.compr)
    {
      DoOutputStandby(out, true);
    }

    /** The end of out_write: `failures` writes in a row have failed. */
    method EndWrite(out: StreamOut, primary: bool, failures: nat)
      requires Valid() && out in outStreams
      modifies `closed, out`standby, out`pcm, out`compr
      ensures Valid() && (old(Arbitrated()) ==> Arbitrated())
      ensures out.standby == (old(out.standby) || (primary && 100 < failures && !Refuses()))
      ensures out.standby == old(out.standby) ==> out.pcm == old(out.pcm) && out.compr == old(out.compr)
    {
      if primary && failures > 100 {
        ForceStandby(out);
      }
    }

    /** out_standby */
    method OutStandby(out: StreamOut)
      requires Valid() && out in outStreams
      modifies `closed, out`standby, out`pcm, out`compr
      ensures Valid() && (old(Arbitrated()) ==> Arbitrated())
      ensures out.standby == (old(out.standby) || (!inCall && !scoRxRunning && !out.wm8962))
      ensures out.standby == old(out.standby) ==>
        out.pcm == old(out.pcm) && out.compr == old(out.compr) && closed == old(closed)
      ensures out.standby != old(out.standby) ==>
        out.pcm == None && out.compr == None && closed == old(closed + Handles(out.pcm) + Handles(out.compr))
    {
      DoOutputStandby(out, false);
    }

    /** A client's standby after a start: it leaves the stream running, with the handle that
        the start has opened, exactly if that start has opened the card that refuses it (or a
        call or HFP does). A BUS stream keeps what it knew of its card. */
    method StartThenStandby(out: StreamOut, passthrough: bool, card: int, wm8962: bool) returns (status: int)
      requires Valid() && out in outStreams && out.standby
      modifies `issued, `closed, outStreams`standby, outStreams`pcm, outStreams`compr, out`wm8962
      ensures Valid()
      ensures status == 0 ==>
        (!out.standby <==> Refuses() || if out.device == DEVICE_OUT_BUS then old(out.wm8962) else wm8962)
      ensures status == 0 && !out.standby ==> out.Holds(old(issued))
      ensures status == 0 && out.standby ==> old(issued) in closed && out.pcm == None && out.compr == None
    {
      status := BeginWrite(out, passthrough, card, wm8962, Ready);
      if status == 0 {
        OutStandby(out);
      }
    }

    /** The open of out_flush, for a running stream that has just been closed. */
    method Reopen(out: StreamOut)
      requires HandlesConserved() && out in outStreams && !out.standby && !out.compress
      requires out.pcm == None && out.compr == None
      modifies `issued, out`standby, out`pcm, out`compr
      ensures HandlesConserved() && (old(Arbitrated()) ==> Arbitrated())
      ensures !out.standby && out.pcm == Some(old(issued)) && out.compr == None
    {
      var h := Store(out);
      out.standby := false;
    }

    /** out_flush. The reopened handle is kept even when it is not ready. */
    method OutFlush(out: StreamOut, outcome: OpenOutcome)
      requires Valid() && out in outStreams
      modifies `issued, `closed, out`standby, out`pcm, out`compr
      ensures Valid() && (old(Arbitrated()) ==> Arbitrated())
      ensures out.standby == old(out.standby) && out.compr == old(out.compr)
      ensures out.compress || old(out.pcm == None) ==> out.pcm == old(out.pcm) && closed == old(closed)
      ensures !out.compress && old(out.pcm.Some?) ==>
        && closed == old(closed) + multiset{old(out.pcm.value)}
        && out.pcm == if outcome.NoHandle? then None else Some(old(issued))
    {
      if out.compress {
        return;
      }
      if out.pcm == None {
        return;
      }
      ClosePcm(out);
      if !outcome.NoHandle? {
        Reopen(out);
      }
    }

    /** The first stream of the list with the io handle. */
    method FindByIoHandle(ioHandle: int) returns (i: nat)
      ensures i <= |outStreams|
      ensures i < |outStreams| ==> outStreams[i].ioHandle == ioHandle
      ensures forall j :: 0 <= j < i ==> outStreams[j].ioHandle != ioHandle
    {
      for k := 0 to |outStreams|
        invariant forall j :: 0 <= j < k ==> outStreams[j].ioHandle != ioHandle
      {
        if outStreams[k].ioHandle == ioHandle {
          return k;
        }
      }
      return |outStreams|;
    }

    /** The first stream of the list with the patch handle. */
    method FindByPatchHandle(patchHandle: int) returns (i: nat)
      ensures i <= |outStreams|
      ensures i < |outStreams| ==> outStreams[i].patchHandle == patchHandle
      ensures forall j :: 0 <= j < i ==> outStreams[j].patchHandle != patchHandle
    {
      for k := 0 to |outStreams|
        invariant forall j :: 0 <= j < k ==> outStreams[j].patchHandle != patchHandle
      {
        if outStreams[k].patchHandle == patchHandle {
          return k;
        }
      }
      return |outStreams|;
    }

    /** Moving the stream to another device, and standby because of it. */
    method MoveTo(out: StreamOut, device: int)
      requires Valid() && out in outStreams
      modifies `closed, out`device, out`standby, out`pcm, out`compr
      ensures Valid() && out.device == device
      ensures out.standby == (old(out.standby) || !Refuses())
      ensures old(Arbitrated()) ==> (Arbitrated() <==> !old(Collides(out, device)))
    {
      out.device := device;
      DoOutputStandby(out, true);
      if !out.standby && device != DEVICE_OUT_BUS {
        forall s | s in outStreams && s != out && !s.standby && s.device == device
          ensures Contend(s, out)
        {
        }
      }
    }

    /** A running stream that cannot be stopped would meet another one on `device`. */
    ghost predicate Collides(out: StreamOut, device: int)
      reads `inCall, `scoRxRunning, `outStreams, outStreams`device, outStreams`standby, out`standby
    {
      && Refuses() && !out.standby && device != DEVICE_OUT_BUS
      && exists s :: s in outStreams && s != out && !s.standby && s.device == device && !(s.direct && out.direct)
    }

    ghost predicate IsFirst(i: nat, ioHandle: int)
      reads `outStreams
    {
      && i < |outStreams| && outStreams[i].ioHandle == ioHandle
      && forall j :: 0 <= j < i ==> outStreams[j].ioHandle != ioHandle
    }

    /** No stream but `out` has the patch handle, which has been generated here. */
    ghost predicate MayHave(out: StreamOut, handle: int)
      reads `outStreams, outStreams`patchHandle, `nextPatchHandle
    {
      && PATCH_HANDLE_NONE <= handle <= nextPatchHandle
      && (handle == PATCH_HANDLE_NONE || forall s :: s in outStreams && s != out ==> s.patchHandle != handle)
    }

    method SetPatchHandle(out: StreamOut, handle: int)
      requires out in outStreams
      modifies out`patchHandle
      ensures out.patchHandle == handle
      ensures old(PatchesUnique() && MayHave(out, handle)) ==> PatchesUnique()
    {
      out.patchHandle := handle;
    }

    /** The patch of adev_create_audio_patch, once the stream is known. */
    method Patch(out: StreamOut, device: int, handle: int)
      requires Valid() && out in outStreams
      modifies `closed, out`device, out`standby, out`pcm, out`compr, out`patchHandle
      ensures Valid() && out.device == device && out.patchHandle == handle
      ensures out.standby == (old(out.standby) || (!Refuses() && device != old(out.device)))
      ensures old(Arbitrated()) ==> (Arbitrated() <==> !old(Collides(out, device)))
      ensures old(PatchesUnique() && MayHave(out, handle)) ==> PatchesUnique()
    {
      if out.device != device {
        MoveTo(out, device);
      }
      SetPatchHandle(out, handle);
    }

    /** The request names a stream, at index i, and its patch if it names a patch. */
    ghost predicate Matches(i: nat, handle: int)
      reads `outStreams, outStreams`patchHandle
    {
      i < |outStreams| && (handle == 0 || outStreams[i].patchHandle == handle)
    }

    /** A new patch handle, unless the client has given one. */
    method Generate(handle: int) returns (result: int)
      modifies `nextPatchHandle
      ensures result == if handle == PATCH_HANDLE_NONE then old(nextPatchHandle) + 1 else handle
      ensures old(PatchesUnique()) ==> PatchesUnique()
      ensures old(PatchesUnique()) ==> forall i: nat :: Matches(i, handle) ==> MayHave(outStreams[i], result)
    {
      result := handle;
      if handle == PATCH_HANDLE_NONE {
        nextPatchHandle := nextPatchHandle + 1;
        result := nextPatchHandle;
      }
      assert forall i: nat :: Matches(i, handle) ==> outStreams[i] in outStreams;
    }

    /** adev_create_audio_patch from a mix to devices, for the first stream with that io
        handle, at index i. The status is 0 even when there is no such stream, or when the
        patch handle is not that of the stream. */
    method CreateAudioPatch(ioHandle: int, sinks: seq<int>, handle: int)
      returns (status: int, result: int, ghost i: nat)
      requires Valid()
      modifies `nextPatchHandle, `closed
      modifies outStreams`device, outStreams`standby, outStreams`pcm, outStreams`compr, outStreams`patchHandle
      ensures Valid() && (old(PatchesUnique()) ==> PatchesUnique())
      ensures !Refuses() && old(Arbitrated()) ==> Arbitrated()
      ensures status == if |sinks| == 0 || |sinks| > 16 then EINVAL else 0
      ensures i <= |outStreams| && (i < |outStreams| ==> IsFirst(i, ioHandle))
      ensures i == |outStreams| ==> forall s :: s in outStreams ==> s.ioHandle != ioHandle
      ensures status == 0 && i < |outStreams| && (handle == 0 || old(outStreams[i].patchHandle) == handle) ==>
        && outStreams[i].device == sinks[0] && outStreams[i].patchHandle == result
        && outStreams[i].standby ==
           (old(outStreams[i].standby) || (!Refuses() && sinks[0] != old(outStreams[i].device)))
        && result == if handle == PATCH_HANDLE_NONE then old(nextPatchHandle) + 1 else handle
      ensures status != 0 || !old(Matches(i, handle)) ==> result == handle
      ensures forall s :: s in outStreams && (status != 0 || !old(Matches(i, handle)) || s != outStreams[i]) ==>
        unchanged(s)
    {
      result := handle;
      var k := FindByIoHandle(ioHandle);
      i := k;
      status := if |sinks| == 0 || |sinks| > 16 then EINVAL else 0;
      if status == 0 {
        var matches := k < |outStreams| && (handle == PATCH_HANDLE_NONE || outStreams[k].patchHandle == handle);
        result := Generate(handle);
        if matches {
          Patch(outStreams[k], sinks[0], result);
        } else {
          result := handle;
        }
      }
    }

    /** What adev_release_audio_patch does to the stream. */
    method Unpatch(out: StreamOut)
      requires Valid() && out in outStreams
      modifies `closed, out`device, out`standby, out`pcm, out`compr, out`patchHandle
      ensures Valid() && out.device == 0 && out.patchHandle == 0
      ensures out.standby == (old(out.standby) || !Refuses())
      ensures !Refuses() && old(Arbitrated()) ==> Arbitrated()
      ensures old(PatchesUnique()) ==> PatchesUnique()
      ensures old(PatchesUnique() && out.patchHandle != PATCH_HANDLE_NONE) ==>
        forall s :: s in outStreams ==> s.patchHandle != old(out.patchHandle)
    {
      MoveTo(out, DEVICE_NONE);
      SetPatchHandle(out, PATCH_HANDLE_NONE);
    }

    /** adev_release_audio_patch for the first output stream with the patch, at index i. If
        there is none the patch may be that of an input stream. */
    method ReleaseAudioPatch(patchHandle: int, inputHasIt: bool) returns (status: int, ghost i: nat)
      requires Valid()
      modifies `closed, outStreams`device, outStreams`standby, outStreams`pcm, outStreams`compr, outStreams`patchHandle
      ensures Valid() && (old(PatchesUnique()) ==> PatchesUnique())
      ensures old(PatchesUnique()) && patchHandle != PATCH_HANDLE_NONE ==>
        forall s :: s in outStreams ==> s.patchHandle != patchHandle
      ensures !Refuses() && old(Arbitrated()) ==> Arbitrated()
      ensures i <= |outStreams| && status == if i < |outStreams| || inputHasIt then 0 else EINVAL
      ensures forall j :: 0 <= j < i ==> old(outStreams[j].patchHandle) != patchHandle
      ensures i < |outStreams| ==> old(outStreams[i].patchHandle) == patchHandle
      ensures i < |outStreams| ==> outStreams[i].device == 0 && outStreams[i].patchHandle == 0
      ensures i < |outStreams| ==> outStreams[i].standby == (old(outStreams[i].standby) || !Refuses())
      ensures forall s :: s in outStreams && (i == |outStreams| || s != outStreams[i]) ==> unchanged(s)
    {
      var k := FindByPatchHandle(patchHandle);
      i := k;
      if k < |outStreams| {
        Unpatch(outStreams[k]);
      }
      status := if k < |outStreams| || inputHasIt then 0 else EINVAL;
    }

    /** list_add_tail */
    method Link(out: StreamOut)
      requires Distinct() && out !in outStreams
      modifies `outStreams
      ensures Distinct() && outStreams == old(outStreams) + [out]
      ensures forall s :: s in outStreams <==> s in old(outStreams) || s == out
    {
      outStreams := outStreams + [out];
    }

    /** A stream that holds nothing joins the others. */
    method Enlist(out: StreamOut)
      requires Valid() && out !in outStreams && out.standby && out.pcm == None && out.compr == None
      requires out.patchHandle == PATCH_HANDLE_NONE
      modifies `outStreams
      ensures Valid() && outStreams == old(outStreams) + [out]
      ensures old(Arbitrated()) ==> Arbitrated()
      ensures old(PatchesUnique()) ==> PatchesUnique()
    {
      Link(out);
    }

    /** adev_open_output_stream */
    method OpenOutputStream(ioHandle: int, device: int, direct: bool, compress: bool) returns (out: StreamOut)
      requires Valid()
      modifies `outStreams
      ensures Valid() && (old(Arbitrated()) ==> Arbitrated()) && (old(PatchesUnique()) ==> PatchesUnique())
      ensures fresh(out) && outStreams == old(outStreams) + [out] && out.standby && !out.closing
      ensures out.patchHandle == PATCH_HANDLE_NONE && out.pcm == None && out.compr == None
      ensures out.ioHandle == ioHandle && out.device == device && out.direct == direct && out.compress == compress
    {
      out := new StreamOut(ioHandle, device, direct, compress);
      Enlist(out);
    }

    /** list_remove */
    method Unlink(out: StreamOut)
      requires Distinct() && out in outStreams
      modifies `outStreams
      ensures Distinct() && forall s :: s in outStreams <==> s in old(outStreams) && s != out
    {
      var i :| 0 <= i < |outStreams| && outStreams[i] == out;
      ghost var before := outStreams;
      outStreams := outStreams[..i] + outStreams[i + 1..];
      assert forall s :: s in before && s != out ==> s in outStreams;
    }

    /** The first section of adev_close_output_stream. */
    method BeginClose(out: StreamOut)
      requires Valid() && out in outStreams
      modifies `closed, out`standby, out`pcm, out`compr, out`closing
      ensures Valid() && (old(Arbitrated()) ==> Arbitrated())
      ensures out.closing && out.standby == (old(out.standby) || !Refuses())
    {
      ForceStandby(out);
      out.closing := true;
    }

    /** The second section takes the stream off the list: a handle that it still holds is lost. */
    method EndClose(out: StreamOut)
      requires Valid() && out in outStreams
      modifies `outStreams
      ensures Distinct() && forall s :: s in outStreams <==> s in old(outStreams) && s != out
      ensures old(Arbitrated()) ==> Arbitrated()
      ensures old(PatchesUnique()) ==> PatchesUnique()
      ensures HandlesConserved() <==> out.pcm == None && out.compr == None
      ensures HandlesConserved() ==> Valid()
    {
      Unlink(out);
      if out.pcm.Some? || out.compr.Some? {
        ghost var h := if out.pcm.Some? then out.pcm.value else out.compr.value;
        assert out.Holds(h) && h < issued && h !in closed;
        assert forall s :: s in outStreams ==> !s.Holds(h);
      }
    }

    /** A step that no client may take: a write on a stream whose close has begun, or the end
        of a close that has not. */
    predicate Stray(c: Command)
      reads `outStreams, outStreams`closing
    {
      && c.OnStream? && c.i < |outStreams|
      && if outStreams[c.i].closing then c.action.Write? else c.action.FinishClose?
    }

    /** What a step of a client does to its stream, outside calls and HFP. */
    twostate predicate Does(out: StreamOut, action: StreamAction)
      reads this, out
    {
      match action
      case Write(passthrough, card, _, outcome) =>
        !out.standby <==>
        !old(out.standby) || (old(Admits(out, passthrough)) && 0 <= card && !outcome.NotReady?)
      case WriteEnds(primary, failures) => out.standby == (old(out.standby) || (primary && 100 < failures))
      case Standby => out.standby == (old(out.standby) || !out.wm8962)
      case Flush(outcome) =>
        && out.standby == old(out.standby)
        && (!out.compress && old(out.pcm.Some?) ==>
              && closed == old(closed) + multiset{old(out.pcm.value)}
              && out.pcm == if outcome.NoHandle? then None else Some(old(issued)))
      case StartClose => out.closing && out.standby
      case FinishClose => out !in outStreams
    }

    /** The last stream of the list is the one that the command opens. */
    ghost predicate Opens(c: Command)
      requires c.Open? && outStreams != []
      reads `outStreams, outStreams`device, outStreams`standby
    {
      var s := outStreams[|outStreams| - 1];
      s.ioHandle == c.ioHandle && s.device == c.device && s.direct == c.direct && s.compress == c.compress && s.standby
    }

    /** A step that opens a stream or concerns a patch. */
    method Manage(c: Command)
      requires Valid() && Arbitrated() && ClosingQuiet() && PatchesUnique() && !Refuses() && !c.OnStream?
      modifies `outStreams, `nextPatchHandle, `closed
      modifies outStreams`device, outStreams`standby, outStreams`pcm, outStreams`compr, outStreams`patchHandle
      ensures Valid() && Arbitrated() && ClosingQuiet() && PatchesUnique()
      ensures forall k :: 0 <= k < |outStreams| ==> outStreams[k] in old(outStreams) || fresh(outStreams[k])
      ensures c.Open? ==> outStreams != [] && outStreams[..|outStreams| - 1] == old(outStreams) && Opens(c)
      ensures c.CreatePatch? && c.handle == 0 && 0 < |c.sinks| <= 16 ==>
        forall i: nat :: IsFirst(i, c.ioHandle) ==> outStreams[i].device == c.sinks[0]
      ensures c.ReleasePatch? && c.handle != 0 ==> forall s :: s in outStreams ==> s.patchHandle != c.handle
    {
      match c {
        case Open(io, device, direct, compress) =>
          var out := OpenOutputStream(io, device, direct, compress);
        case CreatePatch(io, sinks, handle) =>
          var status, result, _ := CreateAudioPatch(io, sinks, handle);
        case ReleasePatch(handle, inputHasIt) =>
          var status, i := ReleaseAudioPatch(handle, inputHasIt);
        case OnStream(_, _) =>
          assert false;
      }
    }

    /** One step of a client; streams are named by their place in the list. */
    method Perform(c: Command)
      requires Valid() && Arbitrated() && ClosingQuiet() && PatchesUnique() && !Refuses() && !Stray(c)
      modifies this, outStreams
      ensures Valid() && Arbitrated() && ClosingQuiet() && PatchesUnique() && !Refuses()
      ensures forall k :: 0 <= k < |outStreams| ==> outStreams[k] in old(outStreams) || fresh(outStreams[k])
      ensures c.OnStream? && c.i < |old(outStreams)| ==> Does(old(outStreams)[c.i], c.action)
      ensures c.Open? ==> outStreams != [] && outStreams[..|outStreams| - 1] == old(outStreams) && Opens(c)
      ensures c.CreatePatch? && c.handle == 0 && 0 < |c.sinks| <= 16 ==>
        forall i: nat :: IsFirst(i, c.ioHandle) ==> outStreams[i].device == c.sinks[0]
      ensures c.ReleasePatch? && c.handle != 0 ==> forall s :: s in outStreams ==> s.patchHandle != c.handle
      ensures history == old(history) + [c]
    {
      history := history + [c];
      if c.OnStream? {
        if c.i < |outStreams| {
          Act(outStreams[c.i], c.action);
        }
      } else {
        Manage(c);
      }
    }

    method Act(out: StreamOut, action: StreamAction)
      requires Valid() && Arbitrated() && ClosingQuiet() && PatchesUnique() && !Refuses() && out in outStreams
      requires if out.closing then !action.Write? else !action.FinishClose?
      modifies `outStreams, `issued, `closed, outStreams
      ensures Valid() && Arbitrated() && ClosingQuiet() && PatchesUnique() && !Refuses()
      ensures Does(out, action)
      ensures forall s :: s in outStreams ==> s in old(outStreams)
    {
      match action {
        case Write(passthrough, card, wm8962, outcome) =>
          var status := BeginWrite(out, passthrough, card, wm8962, outcome);
        case WriteEnds(primary, failures) =>
          EndWrite(out, primary, failures);
        case Standby =>
          OutStandby(out);
        case Flush(outcome) =>
          OutFlush(out, outcome);
        case StartClose =>
          BeginClose(out);
        case FinishClose =>
          EndClose(out);
      }
    }

    /** Outside calls and HFP, any sequence of steps up to the first stray one keeps streams
        apart, and every handle is closed once or held by one stream that is not in standby. */
    method Run(commands: seq<Command>) returns (done: nat)
      requires Valid() && Arbitrated() && ClosingQuiet() && PatchesUnique() && !Refuses()
      modifies this, outStreams
      ensures Valid() && Arbitrated() && ClosingQuiet() && PatchesUnique()
      ensures done <= |commands| && (done < |commands| ==> Stray(commands[done]))
      ensures history == old(history) + commands[..done]
      ensures forall h: nat :: h < issued ==>
        (closed[h] == 1 <==> !exists s :: s in outStreams && !s.standby && s.Holds(h))
    {
      done := 0;
      while done < |commands| && !Stray(commands[done])
        invariant done <= |commands| && history == old(history) + commands[..done]
        invariant Valid() && Arbitrated() && ClosingQuiet() && PatchesUnique() && !Refuses()
        invariant forall k :: 0 <= k < |outStreams| ==> outStreams[k] in old(outStreams) || fresh(outStreams[k])
      {
        Perform(commands[done]);
        done := done + 1;
      }
    }
  }

  datatype StreamAction =
    | Write(passthrough: bool, card: int, wm8962: bool, outcome: OpenOutcome)
    | WriteEnds(primary: bool, failures: nat)
    | Standby
    | Flush(outcome: OpenOutcome)
    | StartClose
    | FinishClose

  datatype Command =
    | Open(ioHandle: int, device: int, direct: bool, compress: bool)
    | CreatePatch(ioHandle: int, sinks: seq<int>, handle: int)
    | ReleasePatch(handle: int, inputHasIt: bool)
    | OnStream(i: nat, action: StreamAction)

  method MixerPlays() returns (d: AudioDevice, direct: StreamOut)
    ensures fresh(d) && fresh(direct) && (forall k :: 0 <= k < |d.outStreams| ==> fresh(d.outStreams[k]))
    ensures d.Valid() && d.Arbitrated() && direct in d.outStreams
    ensures direct.direct && direct.device == 2 && direct.standby
    ensures exists s :: s in d.outStreams && !s.direct && !s.standby && s.device == 2
  {
    d := new AudioDevice();
    var mixer := d.OpenOutputStream(1, 2, false, false);
    direct := d.OpenOutputStream(2, 2, true, false);
    var status := d.BeginWrite(mixer, false, 0, false, Ready);
  }

  /** A run that breaks the rule: during a call a DIRECT stream cannot displace the stream
      that already plays on the device. */
  method SharedDeviceInCall() returns (d: AudioDevice)
    ensures d.Valid() && d.Refuses() && !d.Arbitrated()
  {
    var direct;
    d, direct := MixerPlays();
    d.inCall := true;
    assert d.Jammed(direct);
    var status := d.BeginWrite(direct, false, 0, false, Ready);
  }

  /** Why a write between the two sections of a close must not happen: the handle that it
      opens is never closed. */
  method WriteWhileClosing() returns (d: AudioDevice)
    ensures d.Distinct() && !d.HandlesConserved()
  {
    d := new AudioDevice();
    var out := d.OpenOutputStream(1, 2, false, false);
    d.BeginClose(out);
    assert !d.Occupied(out);
    var status := d.BeginWrite(out, false, 0, false, Ready);
    d.EndClose(out);
  }
}
