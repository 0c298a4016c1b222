/** The preprocessing effects of an input stream: their slots, and the search for the richest
    auxiliary channel configuration that all of them support. */
module Effects {

  import opened Wrappers

  const ENOSYS: int := 38
  const EINVAL: int := 22
  const MAX_PREPROCESSORS: nat := 3
  const AUDIO_CHANNEL_NONE: nat := 0

  /** An effect's handle. */
  type Handle = nat

  datatype ChannelConfig = ChannelConfig(mainChannels: nat, auxChannels: nat)

  /** A slot; a cleared one has no effect and no configurations. */
  datatype EffectInfo = EffectInfo(effect: Option<Handle>, configs: seq<ChannelConfig>)

  const CLEARED := EffectInfo(None, [])

  /** What an effect replies: to get_descriptor, to its configuration for the stream, and to
      the query for supported configurations (none, if it does not support the feature).
      `reconfigured` holds what the effect in each slot replies when its auxiliary channels are
      configured; a slot past the end of it replies 0. */
  datatype Reply = Reply(descriptor: int, isAec: bool, configure: int, supported: Option<seq<ChannelConfig>>,
                         reconfigured: seq<int>)

  /** A list without its first slot of the given effect. */
  function RemoveFirst(s: seq<EffectInfo>, effect: Handle): (r: seq<EffectInfo>)
  {
    if s == [] then [] else if s[0].effect == Some(effect) then s[1..] else [s[0]] + RemoveFirst(s[1..], effect)
  }

  predicate Holds(s: seq<EffectInfo>, effect: Handle) {
    exists i :: 0 <= i < |s| && s[i].effect == Some(effect)
  }

  lemma {:induction false} RemoveFirstAt(s: seq<EffectInfo>, effect: Handle, i: nat)
    requires i < |s| && s[i].effect == Some(effect)
    requires forall j :: 0 <= j < i ==> s[j].effect != Some(effect)
    ensures RemoveFirst(s, effect) == s[..i] + s[i + 1..]
  {
    if i != 0 {
      RemoveFirstAt(s[1..], effect, i - 1);
      assert s[..i] + s[i + 1..] == [s[0]] + (s[1..][..i - 1] + s[1..][i..]);
    }
  }

  lemma {:induction false} RemoveFirstAbsent(s: seq<EffectInfo>, effect: Handle)
    requires !Holds(s, effect)
    ensures RemoveFirst(s, effect) == s
  {
    if s != [] {
      assert forall i :: 0 <= i < |s[1..]| ==> s[1..][i] == s[i + 1];
      RemoveFirstAbsent(s[1..], effect);
    }
  }

  /** Adding an effect that is not there and removing it again changes nothing. */
  lemma {:induction false} RemoveUndoesAdd(s: seq<EffectInfo>, slot: EffectInfo)
    requires slot.effect.Some? && !Holds(s, slot.effect.value)
    ensures RemoveFirst(s + [slot], slot.effect.value) == s
  {
    RemoveFirstAt(s + [slot], slot.effect.value, |s|);
  }

  function AddStatus(s: seq<EffectInfo>, reply: Reply): int {
    if |s| >= MAX_PREPROCESSORS then -ENOSYS else if reply.descriptor != 0 then reply.descriptor else reply.configure
  }

  function AddTo(s: seq<EffectInfo>, effect: Handle, reply: Reply): (r: seq<EffectInfo>) {
    if AddStatus(s, reply) != 0 then s
    else s + [EffectInfo(Some(effect), if reply.supported.Some? then reply.supported.value else [])]
  }

  datatype Call = Add(effect: Handle, reply: Reply) | Remove(effect: Handle, reply: Reply)

  /** The live slots after a sequence of calls. */
  function Run(s: seq<EffectInfo>, calls: seq<Call>): (r: seq<EffectInfo>) {
    if calls == [] then s
    else
      var before, call := Run(s, calls[..|calls| - 1]), calls[|calls| - 1];
      if call.Add? then AddTo(before, call.effect, call.reply) else RemoveFirst(before, call.effect)
  }

  /** How many slots an effect has. */
  function Count(s: seq<EffectInfo>, effect: Handle): nat {
    if s == [] then 0 else (if s[0].effect == Some(effect) then 1 else 0) + Count(s[1..], effect)
  }

  lemma {:induction false} CountAppend(a: seq<EffectInfo>, b: seq<EffectInfo>, effect: Handle)
    ensures Count(a + b, effect) == Count(a, effect) + Count(b, effect)
  {
    if a == [] {
      assert a + b == b;
    } else {
      assert (a + b)[1..] == a[1..] + b;
      CountAppend(a[1..], b, effect);
    }
  }

  lemma {:induction false} CountRemoved(s: seq<EffectInfo>, removed: Handle, effect: Handle)
    ensures Count(RemoveFirst(s, removed), effect) ==
            Count(s, effect) - if effect == removed && Holds(s, effect) then 1 else 0
  {
    if s != [] && s[0].effect != Some(removed) {
      CountRemoved(s[1..], removed, effect);
      assert RemoveFirst(s, removed)[1..] == RemoveFirst(s[1..], removed);
      assert forall i :: 0 <= i < |s[1..]| ==> s[1..][i] == s[i + 1];
      if Holds(s, removed) {
        var i :| 0 <= i < |s| && s[i].effect == Some(removed);
        assert s[1..][i - 1].effect == Some(removed);
      }
    }
  }

  /** The calls of a run that give the effect a slot, and those that take one away. */
  function Added(s: seq<EffectInfo>, calls: seq<Call>, effect: Handle): nat {
    if calls == [] then 0
    else
      var n, call := |calls| - 1, calls[|calls| - 1];
      Added(s, calls[..n], effect) +
      if call.Add? && call.effect == effect && AddStatus(Run(s, calls[..n]), call.reply) == 0 then 1 else 0
  }

  function Removed(s: seq<EffectInfo>, calls: seq<Call>, effect: Handle): nat {
    if calls == [] then 0
    else
      var n, call := |calls| - 1, calls[|calls| - 1];
      Removed(s, calls[..n], effect) +
      if call.Remove? && call.effect == effect && Holds(Run(s, calls[..n]), effect) then 1 else 0
  }

  /** Over any run no slot appears or is lost on the way, and there are never too many. */
  lemma {:induction false} SlotsConserved(s: seq<EffectInfo>, calls: seq<Call>, effect: Handle)
    requires |s| <= MAX_PREPROCESSORS
    ensures |Run(s, calls)| <= MAX_PREPROCESSORS
    ensures Count(Run(s, calls), effect) == Count(s, effect) + Added(s, calls, effect) - Removed(s, calls, effect)
  {
    if calls != [] {
      var n, call := |calls| - 1, calls[|calls| - 1];
      var before := Run(s, calls[..n]);
      SlotsConserved(s, calls[..n], effect);
      if call.Add? {
        var supported := if call.reply.supported.Some? then call.reply.supported.value else [];
        var slot := EffectInfo(Some(call.effect), supported);
        CountAppend(before, [slot], effect);
      } else {
        CountRemoved(before, call.effect, effect);
        if Holds(before, call.effect) {
          RemovedLength(before, call.effect);
        } else {
          RemoveFirstAbsent(before, call.effect);
        }
      }
    }
  }

  lemma {:induction false} RemovedLength(s: seq<EffectInfo>, effect: Handle)
    requires Holds(s, effect)
    ensures |RemoveFirst(s, effect)| == |s| - 1
  {
    if s[0].effect != Some(effect) {
      var i :| 0 <= i < |s| && s[i].effect == Some(effect);
      assert s[1..][i - 1].effect == Some(effect);
      RemovedLength(s[1..], effect);
    }
  }

  function ReplyOf(replies: seq<int>, slot: nat): (status: int)
    ensures slot < |replies| ==> status == replies[slot]
    ensures |replies| <= slot ==> status == 0
  {
    if slot < |replies| then replies[slot] else 0
  }

  ghost predicate NoneFails(replies: seq<int>) {
    forall i: nat :: ReplyOf(replies, i) == 0
  }

  /** The status of configuring n effects: the last one that is not 0. */
  function LastError(replies: seq<int>, n: nat): int {
    if n == 0 then 0 else if ReplyOf(replies, n - 1) != 0 then ReplyOf(replies, n - 1) else LastError(replies, n - 1)
  }

  lemma {:induction false} LastErrorIff(replies: seq<int>, n: nat)
    ensures LastError(replies, n) != 0 <==> exists i: nat :: i < n && ReplyOf(replies, i) != 0
    ensures LastError(replies, n) != 0 ==> exists i: nat ::
      i < n && ReplyOf(replies, i) == LastError(replies, n) && forall j :: i < j < n ==> ReplyOf(replies, j) == 0
  {
    if n != 0 && ReplyOf(replies, n - 1) == 0 {
      LastErrorIff(replies, n - 1);
    }
  }

  /** Supporting a configuration. */
  predicate Supports(slot: EffectInfo, c: ChannelConfig) {
    c in slot.configs
  }

  predicate AllSupport(slots: seq<EffectInfo>, c: ChannelConfig) {
    forall k :: 0 <= k < |slots| ==> Supports(slots[k], c)
  }

  /** The number of bits that are set in a mask. */
  function Popcount(n: nat): nat {
    if n == 0 then 0 else n % 2 + Popcount(n / 2)
  }

  ghost function Pow2(k: nat): nat {
    if k == 0 then 1 else 2 * Pow2(k - 1)
  }

  /** Bit k of a mask: the lowest one after k shifts to the right. */
  ghost predicate BitSet(mask: nat, k: nat) {
    if k == 0 then mask % 2 == 1 else BitSet(mask / 2, k - 1)
  }

  /** How many of the w lowest bits are set. */
  ghost function BitsSet(mask: nat, w: nat): nat {
    if w == 0 then 0 else BitsSet(mask, w - 1) + if BitSet(mask, w - 1) then 1 else 0
  }

  lemma {:induction false} LowBitFirst(mask: nat, w: nat)
    requires 0 < w
    ensures BitsSet(mask, w) == mask % 2 + BitsSet(mask / 2, w - 1)
  {
    if 1 < w {
      LowBitFirst(mask, w - 1);
    }
  }

  lemma {:induction false} PopcountCounts(n: nat, w: nat)
    requires n < Pow2(w)
    ensures Popcount(n) == BitsSet(n, w)
  {
    if w != 0 {
      LowBitFirst(n, w);
      PopcountCounts(n / 2, w - 1);
      assert n != 0 || n / 2 == 0;
    }
  }

  predicate Candidate(table: seq<ChannelConfig>, slots: seq<EffectInfo>, mainChannels: nat, i: int) {
    0 <= i < |table| && table[i].mainChannels == mainChannels && AllSupport(slots, table[i])
  }

  /** `best` is the auxiliary mask with most bits among the candidates before n, and of those
      the first; it is NONE if no candidate has a bit. */
  ghost predicate Richest(table: seq<ChannelConfig>, n: nat, slots: seq<EffectInfo>, mainChannels: nat, best: nat) {
    && n <= |table|
    && (forall i :: 0 <= i < n && Candidate(table, slots, mainChannels, i) ==>
          Popcount(table[i].auxChannels) <= Popcount(best))
    && (best == AUDIO_CHANNEL_NONE ||
        exists i :: FirstRichest(table, n, slots, mainChannels, best, i))
  }

  ghost predicate FirstRichest(table: seq<ChannelConfig>, n: nat, slots: seq<EffectInfo>, mainChannels: nat,
                               best: nat, i: int) {
    && 0 <= i < n <= |table| && Candidate(table, slots, mainChannels, i) && table[i].auxChannels == best
    && forall j :: 0 <= j < i && Candidate(table, slots, mainChannels, j) ==>
         Popcount(table[j].auxChannels) < Popcount(best)
  }

  lemma {:induction false} PopcountPositive(n: nat)
    requires n != 0
    ensures 0 < Popcount(n)
  {
    if n % 2 == 0 {
      PopcountPositive(n / 2);
    }
  }

  /** The answer is unique. */
  lemma {:induction false} RichestUnique(table: seq<ChannelConfig>, n: nat, slots: seq<EffectInfo>,
                                         mainChannels: nat, a: nat, b: nat)
    requires Richest(table, n, slots, mainChannels, a) && Richest(table, n, slots, mainChannels, b)
    ensures a == b
  {
    if a != AUDIO_CHANNEL_NONE {
      var i :| FirstRichest(table, n, slots, mainChannels, a, i);
      PopcountPositive(a);
    }
    if b != AUDIO_CHANNEL_NONE {
      var j :| FirstRichest(table, n, slots, mainChannels, b, j);
      PopcountPositive(b);
    }
  }

  /** The command that sets the auxiliary channels of the effect in a slot. */
  datatype Configured = Configured(slot: nat, aux: nat)

  /** One such command for each of the first n slots. */
  function Round(n: nat, aux: nat): (r: seq<Configured>)
    ensures |r| == n && forall i :: 0 <= i < n ==> r[i] == Configured(i, aux)
  {
    seq(n, i requires 0 <= i < n => Configured(i, aux))
  }

  /** The commands of in_reconfigure_channels for n effects: to all of them if the channels
      change, and otherwise to one that is added, in the last slot, while channels are in use. */
  function Commands(n: nat, adding: bool, aux: nat, changed: bool): (r: seq<Configured>) {
    if changed then Round(n, aux)
    else if adding && aux != AUDIO_CHANNEL_NONE && 0 < n then [Configured(n - 1, aux)]
    else []
  }

  /** Whether one of these commands fails. */
  predicate Fails(n: nat, adding: bool, aux: nat, changed: bool, replies: seq<int>) {
    exists i :: 0 <= i < |Commands(n, adding, aux, changed)| &&
      ReplyOf(replies, Commands(n, adding, aux, changed)[i].slot) != 0
  }

  lemma {:induction false} FailsIff(n: nat, adding: bool, aux: nat, changed: bool, replies: seq<int>)
    ensures Fails(n, adding, aux, changed, replies) <==>
      if changed then LastError(replies, n) != 0
      else adding && aux != AUDIO_CHANNEL_NONE && 0 < n && ReplyOf(replies, n - 1) != 0
  {
    var commands := Commands(n, adding, aux, changed);
    LastErrorIff(replies, n);
    if changed {
      forall i: nat | i < n
        ensures commands[i].slot == i && (ReplyOf(replies, i) != 0 ==> Fails(n, adding, aux, changed, replies))
      {
        assert commands[i] == Configured(i, aux);
      }
    } else if commands != [] {
      assert commands[0].slot == n - 1;
    }
  }

  class InStream {
    const table: seq<ChannelConfig>
    const mainChannels: nat
    /** Whether the device is the main or the back microphone. */
    const builtinMic: bool
    var preprocessors: array<EffectInfo>
    var numPreprocessors: nat
    var auxChannels: nat
    var auxChannelsChanged: bool
    var needEchoReference: bool
    ghost var configured: seq<Configured>  // the commands to the effects so far

    ghost predicate Valid()
      reads this, preprocessors
    {
      && preprocessors.Length == MAX_PREPROCESSORS && numPreprocessors <= MAX_PREPROCESSORS
      && (forall i :: numPreprocessors <= i < MAX_PREPROCESSORS ==> preprocessors[i] == CLEARED)
    }

    ghost function Live(): seq<EffectInfo>
      requires Valid()
      reads this, preprocessors
    {
      preprocessors[..numPreprocessors]
    }

    constructor (table: seq<ChannelConfig>, mainChannels: nat, builtinMic: bool)
      ensures Valid() && fresh(preprocessors) && Live() == [] && auxChannels == AUDIO_CHANNEL_NONE
      ensures this.table == table && this.mainChannels == mainChannels && this.builtinMic == builtinMic
      ensures !auxChannelsChanged && !needEchoReference && configured == []
    {
      this.table, this.mainChannels, this.builtinMic := table, mainChannels, builtinMic;
      preprocessors := new EffectInfo[MAX_PREPROCESSORS](_ => CLEARED);
      numPreprocessors, auxChannels := 0, AUDIO_CHANNEL_NONE;
      auxChannelsChanged, needEchoReference := false, false;
      configured := [];
    }

    /** The loop over the effects for one table entry; it stops at the first that lacks it. */
    method CountMatches(c: ChannelConfig) returns (matchCnt: nat)
      requires Valid()
      ensures matchCnt == numPreprocessors <==> AllSupport(Live(), c)
    {
      matchCnt := 0;
      var idxPreproc := 0;
      while idxPreproc < numPreprocessors && matchCnt == idxPreproc
        invariant 0 <= idxPreproc <= numPreprocessors && (matchCnt == idxPreproc || matchCnt == idxPreproc - 1)
        invariant AllSupport(preprocessors[..matchCnt], c)
        invariant matchCnt < idxPreproc ==> !Supports(preprocessors[matchCnt], c)
      {
        var configs, idxChcfg := preprocessors[idxPreproc].configs, 0;
        while idxChcfg < |configs|
          invariant 0 <= idxChcfg <= |configs| && c !in configs[..idxChcfg]
          invariant matchCnt == idxPreproc
        {
          if configs[idxChcfg] == c {
            matchCnt := matchCnt + 1;
            break;
          }
          idxChcfg := idxChcfg + 1;
        }
        idxPreproc := idxPreproc + 1;
      }
    }

    /** in_get_aux_channels */
    method GetAuxChannels() returns (aux: nat)
      requires Valid()
      ensures (numPreprocessors == 0 || !builtinMic) ==> aux == AUDIO_CHANNEL_NONE
      ensures numPreprocessors != 0 && builtinMic ==> Richest(table, |table|, Live(), mainChannels, aux)
    {
      if numPreprocessors == 0 || !builtinMic {
        return AUDIO_CHANNEL_NONE;
      }
      aux := AUDIO_CHANNEL_NONE;
      for i := 0 to |table|
        invariant Richest(table, i, Live(), mainChannels, aux)
      {
        ghost var was := aux;
        if table[i].mainChannels == mainChannels {
          var matchCnt := CountMatches(table[i]);
          if matchCnt == numPreprocessors {
            if Popcount(table[i].auxChannels) > Popcount(aux) {
              aux := table[i].auxChannels;
              assert FirstRichest(table, i + 1, Live(), mainChannels, aux, i);
            }
          }
        }
        if aux == was && was != AUDIO_CHANNEL_NONE {
          var k :| FirstRichest(table, i, Live(), mainChannels, was, k);
          assert FirstRichest(table, i + 1, Live(), mainChannels, was, k);
        }
      }
    }

    /** The auxiliary channels in use are none, or a configuration that the driver's table and
        every effect have. */
    ghost predicate AuxSupported()
      requires Valid()
      reads this, preprocessors
    {
      auxChannels == AUDIO_CHANNEL_NONE ||
      exists i :: Candidate(table, Live(), mainChannels, i) && table[i].auxChannels == auxChannels
    }

    /** The channels to use are the richest that are supported, or none. */
    ghost predicate IsBest(best: nat)
      requires Valid()
      reads this, preprocessors
    {
      if numPreprocessors == 0 || !builtinMic then best == AUDIO_CHANNEL_NONE
      else Richest(table, |table|, Live(), mainChannels, best)
    }

    /** in_reconfigure_channels: its status is that of the last effect that fails. */
    method ReconfigureChannels(adding: bool, aux: nat, changed: bool, replies: seq<int>) returns (status: int)
      requires Valid()
      modifies `configured
      ensures configured == old(configured) + Commands(numPreprocessors, adding, aux, changed)
      ensures status != 0 <==> Fails(numPreprocessors, adding, aux, changed, replies)
      ensures changed ==> status == LastError(replies, numPreprocessors)
      ensures !changed ==>
        status == if adding && aux != 0 && 0 < numPreprocessors then ReplyOf(replies, numPreprocessors - 1) else 0
    {
      ghost var commands := Commands(numPreprocessors, adding, aux, changed);
      FailsIff(numPreprocessors, adding, aux, changed, replies);
      status := 0;
      if changed {
        for i := 0 to numPreprocessors
          invariant status == LastError(replies, i)
          invariant configured == old(configured) + commands[..i]
        {
          var curStatus := ReplyOf(replies, i);
          configured := configured + [Configured(i, aux)];
          if curStatus != 0 {
            status := curStatus;
          }
        }
      } else if adding && aux != 0 && 0 < numPreprocessors {
        status := ReplyOf(replies, numPreprocessors - 1);
        configured := configured + [Configured(numPreprocessors - 1, aux)];
      }
    }

    /** What in_update_aux_channels does when `before` was in use and `best` is the best. */
    ghost predicate Updated(best: nat, before: nat, adding: bool, replies: seq<int>, log: seq<Configured>)
      requires Valid()
      reads this, preprocessors
    {
      var n, fails := numPreprocessors, Fails(numPreprocessors, adding, best, best != before, replies);
      && IsBest(best)
      && auxChannels == (if fails then AUDIO_CHANNEL_NONE else best)
      && configured ==
           log + Commands(n, adding, best, best != before) + if fails then Round(n, AUDIO_CHANNEL_NONE) else []
    }

    /** in_update_aux_channels. A failing configuration resets the channels; the effects are
        then configured once more, without a look at what they reply. */
    method UpdateAuxChannels(adding: bool, replies: seq<int>) returns (ghost best: nat)
      requires Valid()
      modifies `auxChannels, `auxChannelsChanged, `configured
      ensures AuxSupported() && Updated(best, old(auxChannels), adding, replies, old(configured))
      ensures auxChannelsChanged == (old(auxChannelsChanged) || auxChannels != old(auxChannels))
    {
      var aux := GetAuxChannels();
      best := aux;
      var status := ReconfigureChannels(adding, aux, aux != auxChannels, replies);
      if status != 0 {
        aux := AUDIO_CHANNEL_NONE;
        var _ := ReconfigureChannels(adding, aux, true, replies);
      }
      if auxChannels != aux {
        auxChannelsChanged := true;
        auxChannels := aux;
      }
    }

    /** in_read_audio_effect_channel_configs, with what its two assertions demand of the slot. */
    method ReadChannelConfigs(slot: nat, reply: Option<seq<ChannelConfig>>)
      requires slot < preprocessors.Length
      requires preprocessors[slot].configs == []
      modifies preprocessors
      ensures preprocessors[..] == old(preprocessors[..])[slot := preprocessors[slot]]
      ensures preprocessors[slot].effect == old(preprocessors[slot].effect)
      ensures preprocessors[slot].configs == if reply.Some? then reply.value else []
    {
      if reply.Some? {
        preprocessors[slot] := preprocessors[slot].(configs := reply.value);
      }
    }

    /** Whether the live slots are `before`, followed by one of the effect that supports what
        it says. */
    ghost predicate Extended(before: seq<EffectInfo>, effect: Handle, supported: Option<seq<ChannelConfig>>)
      requires Valid()
      reads this, preprocessors
    {
      && |Live()| == |before| + 1 && Live()[..|before|] == before && Live()[|before|].effect == Some(effect)
      && forall c :: Supports(Live()[|before|], c) <==> supported.Some? && c in supported.value
    }

    /** The effect takes the next slot. */
    method TakeSlot(effect: Handle, supported: Option<seq<ChannelConfig>>)
      requires Valid() && numPreprocessors < MAX_PREPROCESSORS
      modifies `numPreprocessors, preprocessors
      ensures Valid() && Extended(old(Live()), effect, supported)
      ensures Live() == old(Live()) + [EffectInfo(Some(effect), if supported.Some? then supported.value else [])]
    {
      preprocessors[numPreprocessors] := preprocessors[numPreprocessors].(effect := Some(effect));
      ReadChannelConfigs(numPreprocessors, supported);
      numPreprocessors := numPreprocessors + 1;
    }

    /** The channels in use have as many bits as any table entry for the main channels that all
        of the effects `before` and the added one support. */
    ghost predicate BeatsAll(before: seq<EffectInfo>, supported: Option<seq<ChannelConfig>>)
      reads `auxChannels
    {
      forall i :: 0 <= i < |table| && table[i].mainChannels == mainChannels && AllSupport(before, table[i]) ==>
        supported.Some? && table[i] in supported.value ==> Popcount(table[i].auxChannels) <= Popcount(auxChannels)
    }

    lemma {:induction false} BestBeatsAll(before: seq<EffectInfo>, effect: Handle,
                                          supported: Option<seq<ChannelConfig>>)
      requires Valid() && Extended(before, effect, supported) && IsBest(auxChannels) && builtinMic
      ensures BeatsAll(before, supported)
    {
      forall i | 0 <= i < |table| && table[i].mainChannels == mainChannels && AllSupport(before, table[i])
        && supported.Some? && table[i] in supported.value
        ensures Popcount(table[i].auxChannels) <= Popcount(auxChannels)
      {
        assert forall k :: 0 <= k < |before| ==> Live()[k] == before[k];
        assert Candidate(table, Live(), mainChannels, i);
      }
    }

    /** in_add_audio_effect */
    method AddAudioEffect(effect: Handle, reply: Reply) returns (status: int, ghost best: nat)
      requires Valid() && AuxSupported()
      modifies this, preprocessors
      ensures Valid() && preprocessors == old(preprocessors) && AuxSupported()
      ensures |old(Live())| == 3 ==> status == -38
      ensures |old(Live())| != 3 ==> status == if reply.descriptor != 0 then reply.descriptor else reply.configure
      ensures if status == 0 then Extended(old(Live()), effect, reply.supported) else Live() == old(Live())
      ensures Live() == AddTo(old(Live()), effect, reply)
      ensures needEchoReference == (old(needEchoReference) || (status == 0 && reply.isAec))
      ensures status == 0 ==> Updated(best, old(auxChannels), true, reply.reconfigured, old(configured))
      ensures status == 0 && NoneFails(reply.reconfigured) ==> IsBest(auxChannels)
      ensures status == 0 && NoneFails(reply.reconfigured) && builtinMic ==> BeatsAll(old(Live()), reply.supported)
      ensures status != 0 ==> auxChannels == old(auxChannels) && configured == old(configured)
    {
      best := auxChannels;
      if numPreprocessors >= MAX_PREPROCESSORS {
        return -ENOSYS, best;
      }
      status := reply.descriptor;
      if status != 0 {
        return;
      }
      status := reply.configure;
      if status == 0 {
        ghost var before := Live();
        TakeSlot(effect, reply.supported);
        best := UpdateAuxChannels(true, reply.reconfigured);
        if reply.isAec {
          needEchoReference := true;
        }
        if IsBest(auxChannels) && builtinMic {
          BestBeatsAll(before, effect, reply.supported);
        }
      }
    }

    /** The loop of in_remove_audio_effect, which frees the first slot of the effect and moves
        the later ones down. */
    method CloseGap(effect: Handle) returns (status: int)
      requires Valid()
      modifies preprocessors
      ensures status == if Holds(old(Live()), effect) then 0 else -EINVAL
      ensures status == 0 ==> numPreprocessors != 0
      ensures status == 0 ==> preprocessors[..numPreprocessors - 1] == RemoveFirst(old(Live()), effect)
      ensures status != 0 ==> preprocessors[..] == old(preprocessors[..])
      ensures forall i :: numPreprocessors <= i < MAX_PREPROCESSORS ==> preprocessors[i] == CLEARED
    {
      status := -EINVAL;
      ghost var live, found := Live(), 0;
      for i := 0 to numPreprocessors
        invariant status == 0 || status == -EINVAL
        invariant forall j :: i <= j < MAX_PREPROCESSORS ==> preprocessors[j] == old(preprocessors[j])
        invariant status != 0 ==> forall j :: 0 <= j < i ==> live[j].effect != Some(effect)
        invariant status != 0 ==> preprocessors[..] == old(preprocessors[..])
        invariant status == 0 ==> found < i && live[found].effect == Some(effect)
        invariant status == 0 ==> forall j :: 0 <= j < found ==> live[j].effect != Some(effect)
        invariant status == 0 ==> forall j :: 0 <= j < found ==> preprocessors[j] == live[j]
        invariant status == 0 ==> forall j :: found <= j < i - 1 ==> preprocessors[j] == live[j + 1]
      {
        if status == 0 {
          preprocessors[i - 1] := preprocessors[i];
          continue;
        }
        if preprocessors[i].effect == Some(effect) {
          status, found := 0, i;
        }
      }
      if status == 0 {
        RemoveFirstAt(live, effect, found);
      }
    }

    /** The first slot of the effect is freed, if there is one. */
    method FreeSlot(effect: Handle) returns (status: int)
      requires Valid() && 0 < numPreprocessors
      modifies `numPreprocessors, preprocessors
      ensures Valid() && Live() == RemoveFirst(old(Live()), effect) && (status != 0 ==> Live() == old(Live()))
      ensures status == if old(Holds(Live(), effect)) then 0 else -22
    {
      status := CloseGap(effect);
      if status != 0 {
        RemoveFirstAbsent(Live(), effect);
        return;
      }
      numPreprocessors := numPreprocessors - 1;
      preprocessors[numPreprocessors] := CLEARED;
    }

    /** in_remove_audio_effect; the status is that of the descriptor once a slot is freed. */
    method RemoveAudioEffect(effect: Handle, reply: Reply) returns (status: int, ghost best: nat)
      requires Valid() && AuxSupported()
      modifies this, preprocessors
      ensures Valid() && preprocessors == old(preprocessors) && AuxSupported()
      ensures status ==
        if old(Live()) == [] then -38 else if !old(Holds(Live(), effect)) then -22 else reply.descriptor
      ensures Live() == RemoveFirst(old(Live()), effect)
      ensures needEchoReference == (old(needEchoReference) && !(status == 0 && reply.isAec))
      ensures old(Holds(Live(), effect)) ==>
        Updated(best, old(auxChannels), false, reply.reconfigured, old(configured))
      ensures old(Holds(Live(), effect)) && NoneFails(reply.reconfigured) ==> IsBest(auxChannels)
      ensures !old(Holds(Live(), effect)) ==> auxChannels == old(auxChannels) && configured == old(configured)
    {
      best := auxChannels;
      if numPreprocessors <= 0 {
        return -ENOSYS, best;
      }
      status := FreeSlot(effect);
      if status != 0 {
        return;
      }
      best := UpdateAuxChannels(false, reply.reconfigured);
      status := reply.descriptor;
      if status == 0 && reply.isAec {
        needEchoReference := false;
      }
    }

    /** Any sequence of calls. */
    method Perform(calls: seq<Call>)
      requires Valid() && AuxSupported()
      modifies this, preprocessors
      ensures Valid() && preprocessors == old(preprocessors) && AuxSupported()
      ensures Live() == Run(old(Live()), calls)
    {
      for i := 0 to |calls|
        invariant Valid() && preprocessors == old(preprocessors) && AuxSupported()
        invariant Live() == Run(old(Live()), calls[..i])
      {
        assert calls[..i + 1][..i] == calls[..i];
        if calls[i].Add? {
          var _, _ := AddAudioEffect(calls[i].effect, calls[i].reply);
        } else {
          var _, _ := RemoveAudioEffect(calls[i].effect, calls[i].reply);
        }
      }
      assert calls[..|calls|] == calls;
    }
  }
}
