/** Sample conversion on the way out of and into the audio driver: narrowing with a change
    between mono and stereo, and the channel shuffle for the ESAI interface. */
module Samples {

  import opened Planes

  const TWO_TO_THE_15: int := 0x8000
  const TWO_TO_THE_16: int := 0x1_0000
  const TWO_TO_THE_31: int := 0x8000_0000
  const TWO_TO_THE_32: int := 0x1_0000_0000

  predicate IsShort(x: int) {
    -TWO_TO_THE_15 <= x < TWO_TO_THE_15
  }

  predicate IsInt(x: int) {
    -TWO_TO_THE_31 <= x < TWO_TO_THE_31
  }

  /** The cast (short)x. */
  function Short(x: int): (r: int)
    ensures IsShort(r)
  {
    (x + TWO_TO_THE_15) % TWO_TO_THE_16 - TWO_TO_THE_15
  }

  /** The bits of x that an int keeps. */
  function Int(x: int): (r: int)
    ensures IsInt(r)
  {
    (x + TWO_TO_THE_31) % TWO_TO_THE_32 - TWO_TO_THE_31
  }

  lemma {:induction false} ShortWraps(x: int, turns: int, y: int)
    requires -0x8000 <= x < 0x8000 && y == x + 0x1_0000 * turns + TWO_TO_THE_15
    ensures y % TWO_TO_THE_16 == x + TWO_TO_THE_15
  {
    assert y / TWO_TO_THE_16 == turns;
  }

  lemma {:induction false} IntWraps(x: int, turns: int, y: int)
    requires -0x8000_0000 <= x < 0x8000_0000 && y == x + 0x1_0000_0000 * turns + TWO_TO_THE_31
    ensures y % TWO_TO_THE_32 == x + TWO_TO_THE_31
  {
    assert y / TWO_TO_THE_32 == turns;
  }

  /** The casts keep what fits and wrap around otherwise. */
  lemma {:induction false} CastsWrap(x: int, turns: int)
    ensures -0x8000 <= x < 0x8000 ==> Short(x + 0x1_0000 * turns) == x
    ensures -0x8000_0000 <= x < 0x8000_0000 ==> Int(x + 0x1_0000_0000 * turns) == x
  {
    if -0x8000 <= x < 0x8000 {
      ShortWraps(x, turns, x + 0x1_0000 * turns + TWO_TO_THE_15);
    }
    if -0x8000_0000 <= x < 0x8000_0000 {
      IntWraps(x, turns, x + 0x1_0000_0000 * turns + TWO_TO_THE_31);
    }
  }

  datatype Width = Bits16 | Bits24 | Bits32

  /** A sample as an array holds it: 24-bit samples come in the low bits of an int whose high
      byte is arbitrary. */
  predicate Fits(width: Width, d: int) {
    if width.Bits16? then IsShort(d) else IsInt(d)
  }

  /** One sample, narrowed to 16 bits; x >> n is floor division by 2^n. */
  function Narrow(width: Width, d: int): (r: int)
    requires Fits(width, d)
    ensures IsShort(r)
  {
    match width
    case Bits16 => d
    case Bits24 => Short(d / 256)
    case Bits32 => Short(d / TWO_TO_THE_16)
  }

  /** Narrowing keeps the upper 16 bits of a sample, at every width: of 16 bits, of 24 bits
      below a high byte that does not matter, and of 32 bits. */
  lemma {:induction false} NarrowKeepsTop(x: int, low8: int, low16: int, high: int)
    requires -0x8000 <= x < 0x8000 && 0 <= low8 < 0x100 && 0 <= low16 < 0x1_0000
    ensures Narrow(Bits16, x) == x
    ensures IsInt(0x100_0000 * high + 0x100 * x + low8) ==> Narrow(Bits24, 0x100_0000 * high + 0x100 * x + low8) == x
    ensures Narrow(Bits32, 0x1_0000 * x + low16) == x
  {
    var d := 0x100_0000 * high + 0x100 * x + low8;
    assert d / 256 == x + 0x1_0000 * high;
    CastsWrap(x, high);
    assert (0x1_0000 * x + low16) / TWO_TO_THE_16 == x;
    CastsWrap(x, 0);
  }

  /** The mix of two samples as the one-pass loops compute it. */
  function FusedMix(width: Width, d1: int, d2: int): int
    requires Fits(width, d1) && Fits(width, d2)
  {
    match width
    case Bits16 => Short(d1 / 2 + d2 / 2)
    case Bits24 => Short(Int(d1 * 256) / (2 * TWO_TO_THE_16) + Int(d2 * 256) / (2 * TWO_TO_THE_16))
    case Bits32 => Short(d1 / (2 * TWO_TO_THE_16) + d2 / (2 * TWO_TO_THE_16))
  }

  /** The mix of two 16-bit samples. */
  function Mix(a: int, b: int): int {
    a / 2 + b / 2
  }

  /** A mix fits 16 bits; it is the floored mean, or 1 less exactly when both samples are odd. */
  lemma MixNearMean(a: int, b: int)
    requires IsShort(a) && IsShort(b)
    ensures IsShort(Mix(a, b)) && Short(Mix(a, b)) == Mix(a, b)
    ensures Mix(a, b) == (a + b) / 2 - if a % 2 == 1 && b % 2 == 1 then 1 else 0
  {
  }

  /** A 24-bit sample is made of its high byte, which is lost, 16 bits, and its low byte. */
  lemma NarrowOf24(d: int, high: int, mid: int, low: int)
    requires IsInt(d) && d == 0x100_0000 * high + 256 * mid + low && 0 <= mid < TWO_TO_THE_16 && 0 <= low < 256
    ensures Narrow(Bits24, d) == if mid < TWO_TO_THE_15 then mid else mid - TWO_TO_THE_16
  {
    assert d / 256 == TWO_TO_THE_16 * high + mid;
  }

  lemma ShiftedUp24(d: int, high: int, mid: int, low: int)
    requires d == 0x100_0000 * high + 256 * mid + low && 0 <= mid < TWO_TO_THE_16 && 0 <= low < 256
    ensures Int(d * 256) ==
            TWO_TO_THE_16 * (if mid < TWO_TO_THE_15 then mid else mid - TWO_TO_THE_16) + 256 * low
  {
  }

  /** Shifting a 24-bit sample up and down again loses its high byte and its low nine bits. */
  lemma HalfOf24(d: int)
    requires IsInt(d)
    ensures Int(d * 256) / (2 * TWO_TO_THE_16) == Narrow(Bits24, d) / 2
  {
    var high, mid, low := d / 0x100_0000, d / 256 % TWO_TO_THE_16, d % 256;
    NarrowOf24(d, high, mid, low);
    ShiftedUp24(d, high, mid, low);
  }

  lemma HalfOf32(d: int)
    requires IsInt(d)
    ensures d / (2 * TWO_TO_THE_16) == Narrow(Bits32, d) / 2
  {
  }

  /** Mixing while narrowing is narrowing and then mixing. */
  lemma FusedMixIsStaged(width: Width, d1: int, d2: int)
    requires Fits(width, d1) && Fits(width, d2)
    ensures FusedMix(width, d1, d2) == Mix(Narrow(width, d1), Narrow(width, d2))
  {
    MixNearMean(Narrow(width, d1), Narrow(width, d2));
    if width.Bits24? {
      HalfOf24(d1);
      HalfOf24(d2);
    } else if width.Bits32? {
      HalfOf32(d1);
      HalfOf32(d2);
    }
  }

  predicate AllFit(width: Width, s: seq<int>) {
    forall i :: 0 <= i < |s| ==> Fits(width, s[i])
  }

  /** The first stage: every sample narrowed. */
  function NarrowAll(width: Width, s: seq<int>): (r: seq<int>)
    requires AllFit(width, s)
    ensures |r| == |s|
  {
    seq(|s|, i requires 0 <= i < |s| => Narrow(width, s[i]))
  }

  /** The second stage. */
  function Duplicate(s: seq<int>): (r: seq<int>) {
    seq(2 * |s|, i requires 0 <= i < 2 * |s| => s[i / 2])
  }

  function MixPairs(s: seq<int>): (r: seq<int>) {
    seq(|s| / 2, i requires 0 <= i < |s| / 2 => Mix(s[2 * i], s[2 * i + 1]))
  }

  /** Duplicating and mixing again clears the low bit of every sample, and nothing else. */
  lemma MixOfDuplicate(s: seq<int>, i: nat)
    requires i < |s|
    ensures |MixPairs(Duplicate(s))| == |s| && MixPairs(Duplicate(s))[i] == s[i] - s[i] % 2
  {
    assert (2 * i) / 2 == i && (2 * i + 1) / 2 == i;
  }

  datatype Layout = Layout(mono2stereo: bool, stereo2mono: bool)
  {
    /** How many samples `frames` frames take from the source. */
    function Taken(width: Width, frames: nat): nat {
      if mono2stereo == stereo2mono && (mono2stereo || width.Bits16?) then 0
      else if mono2stereo then frames else 2 * frames
    }

    /** How many it gives to the destination. */
    function Given(width: Width, frames: nat): nat {
      if mono2stereo == stereo2mono && (mono2stereo || width.Bits16?) then 0
      else if stereo2mono then frames else 2 * frames
    }
  }

  /** The conversion in two stages. Nothing is converted when both layout flags are set, or
      when neither is and the samples are 16 bits wide. */
  function Staged(width: Width, layout: Layout, s: seq<int>): (r: seq<int>)
    requires AllFit(width, s)
  {
    var narrow := NarrowAll(width, s);
    if layout.mono2stereo && !layout.stereo2mono then Duplicate(narrow)
    else if !layout.mono2stereo && layout.stereo2mono then MixPairs(narrow)
    else narrow
  }

  lemma {:induction false} DuplicateAt(s: seq<int>, i: nat, d: int, r: seq<int>)
    requires i < |s| && d == s[i] && r == Duplicate(s)
    ensures |r| == 2 * |s| && r[2 * i] == r[2 * i + 1] == d
  {
    assert (2 * i) / 2 == i && (2 * i + 1) / 2 == i;
  }

  lemma {:induction false} MixPairsAt(s: seq<int>, i: nat, a: int, b: int, r: seq<int>)
    requires 2 * i + 1 < |s| && a == s[2 * i] && b == s[2 * i + 1] && r == MixPairs(s)
    ensures i < |r| == |s| / 2 && r[i] == a / 2 + b / 2
  {
  }

  /** Where the samples of the two-stage conversion come from, and how wide they are taken. */
  lemma {:induction false} StagedAt(width: Width, layout: Layout, s: seq<int>, i: nat)
    requires AllFit(width, s)
    ensures layout == Layout(true, false) && i < |s| ==>
      |Staged(width, layout, s)| == 2 * |s| &&
      Staged(width, layout, s)[2 * i] == Staged(width, layout, s)[2 * i + 1] == Narrow(width, s[i])
    ensures layout == Layout(false, true) && 2 * i + 1 < |s| ==>
      i < |Staged(width, layout, s)| == |s| / 2 &&
      Staged(width, layout, s)[i] == Narrow(width, s[2 * i]) / 2 + Narrow(width, s[2 * i + 1]) / 2
    ensures layout == Layout(false, false) && i < |s| ==>
      |Staged(width, layout, s)| == |s| && Staged(width, layout, s)[i] == Narrow(width, s[i])
  {
    var narrow := NarrowAll(width, s);
    if layout == Layout(true, false) && i < |s| {
      DuplicateAt(narrow, i, narrow[i], Duplicate(narrow));
    } else if layout == Layout(false, true) && 2 * i + 1 < |s| {
      MixPairsAt(narrow, i, narrow[2 * i], narrow[2 * i + 1], MixPairs(narrow));
    }
  }

  method NarrowToStereo(width: Width, src: array<int>, dst: array<int>, frames: nat)
    requires src != dst && frames <= src.Length && 2 * frames <= dst.Length && AllFit(width, src[..frames])
    modifies dst
    ensures dst[..2 * frames] == Duplicate(NarrowAll(width, src[..frames]))
    ensures dst[2 * frames..] == old(dst[2 * frames..])
  {
    for i := 0 to frames
      invariant forall j :: 0 <= j < i ==> Fits(width, src[j]) && dst[2 * j] == dst[2 * j + 1] == Narrow(width, src[j])
      invariant dst[2 * frames..] == old(dst[2 * frames..])
    {
      assert Fits(width, src[..frames][i]);
      var data := src[i];
      dst[2 * i] := Narrow(width, data);
      dst[2 * i + 1] := Narrow(width, data);
    }
    ghost var r := Duplicate(NarrowAll(width, src[..frames]));
    forall k | 0 <= k < 2 * frames
      ensures dst[k] == r[k]
    {
      assert k == 2 * (k / 2) || k == 2 * (k / 2) + 1;
    }
  }

  lemma {:induction false} MixedAt(width: Width, s: seq<int>, i: nat, d1: int, d2: int, m: int)
    requires AllFit(width, s) && 2 * i + 1 < |s| && d1 == s[2 * i] && d2 == s[2 * i + 1]
    requires Fits(width, d1) && Fits(width, d2) && m == Mix(Narrow(width, d1), Narrow(width, d2))
    ensures i < |MixPairs(NarrowAll(width, s))| == |s| / 2 && MixPairs(NarrowAll(width, s))[i] == m
  {
  }

  /** One frame of the loop of NarrowToMono; the two stages have the same result. */
  method MixFrame(width: Width, d1: int, d2: int, ghost s: seq<int>, ghost i: nat) returns (d: int)
    requires AllFit(width, s) && 2 * i + 1 < |s| && d1 == s[2 * i] && d2 == s[2 * i + 1]
    ensures i < |MixPairs(NarrowAll(width, s))| && d == MixPairs(NarrowAll(width, s))[i]
  {
    assert Fits(width, d1) && Fits(width, d2);
    FusedMixIsStaged(width, d1, d2);
    d := FusedMix(width, d1, d2);
    MixedAt(width, s, i, d1, d2, d);
  }

  method NarrowToMono(width: Width, src: array<int>, dst: array<int>, frames: nat)
    requires src != dst && 2 * frames <= src.Length && frames <= dst.Length && AllFit(width, src[..2 * frames])
    modifies dst
    ensures dst[..frames] == MixPairs(NarrowAll(width, src[..2 * frames]))
    ensures dst[frames..] == old(dst[frames..])
  {
    ghost var s := src[..2 * frames];
    ghost var r := MixPairs(NarrowAll(width, s));
    for i := 0 to frames
      invariant dst[..i] == r[..i]
      invariant dst[frames..] == old(dst[frames..])
    {
      assert src[2 * i] == s[2 * i] && src[2 * i + 1] == s[2 * i + 1];
      var d := MixFrame(width, src[2 * i], src[2 * i + 1], s, i);
      dst[i] := d;
    }
  }

  method NarrowOnly(width: Width, src: array<int>, dst: array<int>, frames: nat)
    requires src != dst && 2 * frames <= src.Length && 2 * frames <= dst.Length && AllFit(width, src[..2 * frames])
    modifies dst
    ensures dst[..2 * frames] == NarrowAll(width, src[..2 * frames])
    ensures dst[2 * frames..] == old(dst[2 * frames..])
  {
    ghost var r := NarrowAll(width, src[..2 * frames]);
    for i := 0 to frames
      invariant dst[..2 * i] == r[..2 * i]
      invariant dst[2 * frames..] == old(dst[2 * frames..])
    {
      assert Fits(width, src[..2 * frames][2 * i]) && Fits(width, src[..2 * frames][2 * i + 1]);
      dst[2 * i] := Narrow(width, src[2 * i]);
      dst[2 * i + 1] := Narrow(width, src[2 * i + 1]);
    }
  }

  function Kind(bit24b2to16b: bool, bit32b2to16b: bool, mono2stereo: bool, stereo2mono: bool): (Width, Layout) {
    (if bit24b2to16b then Bits24 else if bit32b2to16b then Bits32 else Bits16, Layout(mono2stereo, stereo2mono))
  }

  /** What the flags select. */
  lemma {:induction false} KindOfFlags(bit32: bool, up: bool, down: bool)
    ensures Kind(true, bit32, up, down) == (Bits24, Layout(up, down))
    ensures Kind(false, true, up, down) == (Bits32, Layout(up, down))
    ensures Kind(false, false, up, down) == (Bits16, Layout(up, down))
  {
  }

  /** convert_record_data; the 24-bit flag goes before the 32-bit one. The source's eight loops are
      three here, with the sample expression of each width. */
  method ConvertRecordData(src: array<int>, dst: array<int>, frames: nat, bit24b2to16b: bool, bit32b2to16b: bool,
                           mono2stereo: bool, stereo2mono: bool)
    requires src != dst
    requires var (width, layout) := Kind(bit24b2to16b, bit32b2to16b, mono2stereo, stereo2mono);
      && layout.Taken(width, frames) <= src.Length && layout.Given(width, frames) <= dst.Length
      && AllFit(width, src[..layout.Taken(width, frames)])
    modifies dst
    ensures var (width, layout) := Kind(bit24b2to16b, bit32b2to16b, mono2stereo, stereo2mono);
      && layout.Given(width, frames) <= dst.Length && layout.Taken(width, frames) <= src.Length
      && AllFit(width, src[..layout.Taken(width, frames)])
      && dst[..layout.Given(width, frames)] == Staged(width, layout, src[..layout.Taken(width, frames)])
      && dst[layout.Given(width, frames)..] == old(dst[layout.Given(width, frames)..])
  {
    var w := if bit24b2to16b then Bits24 else if bit32b2to16b then Bits32 else Bits16;
    if mono2stereo && !stereo2mono {
      NarrowToStereo(w, src, dst, frames);
    } else if !mono2stereo && stereo2mono {
      NarrowToMono(w, src, dst, frames);
    } else if !mono2stereo && !stereo2mono && (bit24b2to16b || bit32b2to16b) {
      NarrowOnly(w, src, dst, frames);
    }
  }

  /** Frames of |perm| samples, each with sample perm[c] in place c; a last partial frame
      stays as it is. */
  function Shuffle(s: seq<int>, perm: seq<nat>): (r: seq<int>)
    requires perm != [] && forall c :: 0 <= c < |perm| ==> perm[c] < |perm|
    ensures |r| == |s|
  {
    if |s| < |perm| then s else ShuffleFrame(s[..|perm|], perm) + Shuffle(s[|perm|..], perm)
  }

  function ShuffleFrame(s: seq<int>, perm: seq<nat>): (r: seq<int>)
    requires |s| == |perm| && forall c :: 0 <= c < |perm| ==> perm[c] < |perm|
    ensures |r| == |s|
  {
    seq(|s|, c requires 0 <= c < |s| => s[perm[c]])
  }

  predicate IsPerm(perm: seq<nat>, channels: nat) {
    |perm| == channels && forall c :: 0 <= c < channels ==> perm[c] < channels
  }

  function Compose(p: seq<nat>, q: seq<nat>): (r: seq<nat>)
    requires IsPerm(p, |q|) && IsPerm(q, |q|)
    ensures IsPerm(r, |q|)
  {
    seq(|p|, c requires 0 <= c < |p| => p[q[c]])
  }

  function Identity(channels: nat): (r: seq<nat>)
    ensures IsPerm(r, channels)
  {
    seq(channels, c requires 0 <= c < channels => c)
  }

  /** Two shuffles are one. */
  lemma {:induction false} ShuffleTwice(s: seq<int>, p: seq<nat>, q: seq<nat>)
    requires q != [] && IsPerm(p, |q|) && IsPerm(q, |q|)
    ensures Shuffle(Shuffle(s, p), q) == Shuffle(s, Compose(p, q))
  {
    if |s| >= |q| {
      var frame, rest := s[..|p|], s[|p|..];
      ShuffleTwice(rest, p, q);
      assert Shuffle(s, p)[..|q|] == ShuffleFrame(frame, p) && Shuffle(s, p)[|q|..] == Shuffle(rest, p);
      assert ShuffleFrame(ShuffleFrame(frame, p), q) == ShuffleFrame(frame, Compose(p, q));
    }
  }

  lemma {:induction false} ShuffleIdentity(s: seq<int>, channels: nat)
    requires channels != 0
    ensures Shuffle(s, Identity(channels)) == s
  {
    if |s| >= channels {
      ShuffleIdentity(s[channels..], channels);
      assert ShuffleFrame(s[..channels], Identity(channels)) == s[..channels];
    }
  }

  /** FL, FR, C, LFE, BL, BR becomes FL, BL, C, FR, BR, LFE. */
  const ESAI_6: seq<nat> := [0, 4, 2, 1, 5, 3]
  /** FL, FR, C, LFE, BL, BR, SL, SR becomes FL, BL, C, SL, FR, BR, LFE, SR. */
  const ESAI_8: seq<nat> := [0, 4, 2, 6, 1, 5, 3, 7]

  function ForEsai(s: seq<int>, channels: int): (r: seq<int>)
    ensures |r| == |s|
  {
    if channels == 6 then Shuffle(s, ESAI_6) else if channels == 8 then Shuffle(s, ESAI_8) else s
  }

  /** The order of the channels, frame by frame; other channel counts are left alone. */
  lemma {:induction false} EsaiFrames(fl: int, fr: int, c: int, lfe: int, bl: int, br: int, sl: int, sr: int,
                                      rest: seq<int>, channels: int)
    ensures ForEsai([fl, fr, c, lfe, bl, br] + rest, 6) == [fl, bl, c, fr, br, lfe] + ForEsai(rest, 6)
    ensures ForEsai([fl, fr, c, lfe, bl, br, sl, sr] + rest, 8) == [fl, bl, c, sl, fr, br, lfe, sr] + ForEsai(rest, 8)
    ensures (channels != 6 && channels != 8) || |rest| < channels ==> ForEsai(rest, channels) == rest
  {
    var six, eight := [fl, fr, c, lfe, bl, br], [fl, fr, c, lfe, bl, br, sl, sr];
    assert (six + rest)[..6] == six && (six + rest)[6..] == rest;
    assert (eight + rest)[..8] == eight && (eight + rest)[8..] == rest;
    assert ShuffleFrame(six, ESAI_6) == [fl, bl, c, fr, br, lfe];
    assert ShuffleFrame(eight, ESAI_8) == [fl, bl, c, sl, fr, br, lfe, sr];
  }

  /** Four shuffles restore any buffer of 6 channels; after two, BR and FR are swapped. */
  lemma EsaiRestores6(s: seq<int>)
    ensures ForEsai(ForEsai(ForEsai(ForEsai(s, 6), 6), 6), 6) == s
    ensures |s| >= 6 ==> ForEsai(ForEsai(s, 6), 6)[1] == s[5]
  {
    var twice := Compose(ESAI_6, ESAI_6);
    ShuffleTwice(s, ESAI_6, ESAI_6);
    ShuffleTwice(Shuffle(s, twice), ESAI_6, ESAI_6);
    ShuffleTwice(s, twice, twice);
    if |s| >= 6 {
      assert Shuffle(s, twice)[1] == ShuffleFrame(s[..6], twice)[1] == s[..6][twice[1]];
    }
    assert Compose(twice, twice) == Identity(6);
    ShuffleIdentity(s, 6);
  }

  lemma EsaiRestores8(s: seq<int>)
    ensures ForEsai(ForEsai(s, 8), 8) == s
  {
    ShuffleTwice(s, ESAI_8, ESAI_8);
    assert Compose(ESAI_8, ESAI_8) == Identity(8);
    ShuffleIdentity(s, 8);
  }

  /** The frames before `at` are shuffled, and the rest is as it was. */
  ghost predicate Shuffling(was: seq<int>, now: seq<int>, at: nat, n: nat, perm: seq<nat>) {
    && perm != [] && IsPerm(perm, |perm|) && at <= n <= |was| == |now|
    && now[..at] + Shuffle(was[at..n], perm) == Shuffle(was[..n], perm)
    && now[at..] == was[at..]
  }

  /** One frame is shuffled, and nothing else changes. */
  ghost predicate FrameShuffled(now: seq<int>, next: seq<int>, at: nat, perm: seq<nat>) {
    && IsPerm(perm, |perm|) && at + |perm| <= |now| == |next|
    && (forall c :: 0 <= c < |perm| ==> next[at + c] == now[at + perm[c]])
    && (forall i :: 0 <= i < |now| && !(at <= i < at + |perm|) ==> next[i] == now[i])
  }

  lemma {:induction false} FrameOf(was: seq<int>, now: seq<int>, next: seq<int>, at: nat, end: nat, perm: seq<nat>)
    requires FrameShuffled(now, next, at, perm) && end == at + |perm| && |was| == |now| && now[at..] == was[at..]
    ensures next[at..end] == ShuffleFrame(was[at..end], perm) && next[..at] == now[..at] && next[end..] == was[end..]
  {
    assert now[at..end] == now[at..][..|perm|] == was[at..][..|perm|] == was[at..end];
    assert next[end..] == now[end..] == now[at..][|perm|..] == was[at..][|perm|..];
  }

  lemma {:induction false} ShuffleFront(was: seq<int>, at: nat, end: nat, n: nat, perm: seq<nat>)
    requires perm != [] && IsPerm(perm, |perm|) && end == at + |perm| <= n <= |was|
    ensures Shuffle(was[at..n], perm) == ShuffleFrame(was[at..end], perm) + Shuffle(was[end..n], perm)
  {
    assert was[at..n][..|perm|] == was[at..end] && was[at..n][|perm|..] == was[end..n];
  }

  lemma {:induction false} Associate(a: seq<int>, b: seq<int>, c: seq<int>)
    ensures a + (b + c) == (a + b) + c
  {
  }

  lemma {:induction false} ShuffleStep(was: seq<int>, now: seq<int>, next: seq<int>, at: nat, n: nat, perm: seq<nat>)
    requires Shuffling(was, now, at, n, perm) && FrameShuffled(now, next, at, perm) && at + |perm| <= n
    ensures Shuffling(was, next, at + |perm|, n, perm)
  {
    var end := at + |perm|;
    FrameOf(was, now, next, at, end, perm);
    ShuffleFront(was, at, end, n, perm);
    Associate(now[..at], ShuffleFrame(was[at..end], perm), Shuffle(was[end..n], perm));
    assert next[..end] == next[..at] + next[at..end];
  }

  lemma {:induction false} ShuffleDone(was: seq<int>, now: seq<int>, at: nat, n: nat, perm: seq<nat>)
    requires Shuffling(was, now, at, n, perm) && n < at + |perm|
    ensures now[..n] == Shuffle(was[..n], perm) && now[n..] == was[n..]
  {
    assert now[..n] == now[..at] + now[at..][..n - at];
    assert was[at..n] == was[at..][..n - at];
    assert now[n..] == now[at..][n - at..] && was[n..] == was[at..][n - at..];
  }

  lemma {:induction false} Frame6(now: seq<int>, next: seq<int>, at: nat)
    requires at + 6 <= |now| == |next|
    requires next[at] == now[at] && next[at + 1] == now[at + 4] && next[at + 2] == now[at + 2]
    requires next[at + 3] == now[at + 1] && next[at + 4] == now[at + 5] && next[at + 5] == now[at + 3]
    requires forall i :: 0 <= i < |now| && !(at <= i < at + 6) ==> next[i] == now[i]
    ensures FrameShuffled(now, next, at, ESAI_6)
  {
    forall c | 0 <= c < 6
      ensures next[at + c] == now[at + ESAI_6[c]]
    {
      assert c == 0 || c == 1 || c == 2 || c == 3 || c == 4 || c == 5;
    }
  }

  /** One turn of the loop for 6 channels: the six samples are read before any is written. */
  method ShuffleFrame6(buffer: array<int>, at: nat)
    requires at + 6 <= buffer.Length
    modifies buffer
    ensures FrameShuffled(old(buffer[..]), buffer[..], at, ESAI_6)
  {
    ghost var now := buffer[..];
    var fl, fr, c := buffer[at], buffer[at + 1], buffer[at + 2];
    var lfe, bl, br := buffer[at + 3], buffer[at + 4], buffer[at + 5];
    buffer[at], buffer[at + 1], buffer[at + 2] := fl, bl, c;
    buffer[at + 3], buffer[at + 4], buffer[at + 5] := fr, br, lfe;
    Frame6(now, buffer[..], at);
  }

  lemma {:induction false} Frame8(now: seq<int>, next: seq<int>, at: nat)
    requires at + 8 <= |now| == |next|
    requires next[at] == now[at] && next[at + 1] == now[at + 4] && next[at + 2] == now[at + 2]
    requires next[at + 3] == now[at + 6] && next[at + 4] == now[at + 1] && next[at + 5] == now[at + 5]
    requires next[at + 6] == now[at + 3] && next[at + 7] == now[at + 7]
    requires forall i :: 0 <= i < |now| && !(at <= i < at + 8) ==> next[i] == now[i]
    ensures FrameShuffled(now, next, at, ESAI_8)
  {
    forall c | 0 <= c < 8
      ensures next[at + c] == now[at + ESAI_8[c]]
    {
      assert c == 0 || c == 1 || c == 2 || c == 3 || c == 4 || c == 5 || c == 6 || c == 7;
    }
  }

  method ShuffleFrame8(buffer: array<int>, at: nat)
    requires at + 8 <= buffer.Length
    modifies buffer
    ensures FrameShuffled(old(buffer[..]), buffer[..], at, ESAI_8)
  {
    ghost var now := buffer[..];
    var fl, fr, c, lfe := buffer[at], buffer[at + 1], buffer[at + 2], buffer[at + 3];
    var bl, br, sl, sr := buffer[at + 4], buffer[at + 5], buffer[at + 6], buffer[at + 7];
    buffer[at], buffer[at + 1], buffer[at + 2], buffer[at + 3] := fl, bl, c, sl;
    buffer[at + 4], buffer[at + 5], buffer[at + 6], buffer[at + 7] := fr, br, lfe, sr;
    Frame8(now, buffer[..], at);
  }

  /** The samples that a call reaches: bytes is cast to int before the division. */
  function Reached(bytes: nat): nat {
    if Int(bytes) < 0 then 0 else Int(bytes) / 2
  }

  /** Half of a byte count below 2^31, and nothing of one up to 2^32, which is negative as int. */
  lemma {:induction false} ReachedIs(bytes: nat, turns: nat)
    requires bytes < 0x1_0000_0000
    ensures Reached(bytes + 0x1_0000_0000 * turns) == if bytes < 0x8000_0000 then bytes / 2 else 0
  {
    CastsWrap(bytes, turns);
    CastsWrap(bytes - 0x1_0000_0000, turns + 1);
  }

  method ShuffleFrames6(buffer: array<int>, n: nat)
    requires n <= buffer.Length
    modifies buffer
    ensures buffer[..n] == Shuffle(old(buffer[..n]), ESAI_6) && buffer[n..] == old(buffer[n..])
  {
    var at := 0;
    ghost var was := buffer[..];
    for i := 0 to n / 6
      invariant at == 6 * i && Shuffling(was, buffer[..], at, n, ESAI_6)
    {
      ghost var now := buffer[..];
      ShuffleFrame6(buffer, at);
      ShuffleStep(was, now, buffer[..], at, n, ESAI_6);
      at := at + 6;
    }
    ShuffleDone(was, buffer[..], at, n, ESAI_6);
    assert was[..n] == old(buffer[..n]) && was[n..] == old(buffer[n..]);
  }

  method ShuffleFrames8(buffer: array<int>, n: nat)
    requires n <= buffer.Length
    modifies buffer
    ensures buffer[..n] == Shuffle(old(buffer[..n]), ESAI_8) && buffer[n..] == old(buffer[n..])
  {
    var at := 0;
    ghost var was := buffer[..];
    for i := 0 to n / 8
      invariant at == 8 * i && Shuffling(was, buffer[..], at, n, ESAI_8)
    {
      ghost var now := buffer[..];
      ShuffleFrame8(buffer, at);
      ShuffleStep(was, now, buffer[..], at, n, ESAI_8);
      at := at + 8;
    }
    ShuffleDone(was, buffer[..], at, n, ESAI_8);
    assert was[..n] == old(buffer[..n]) && was[n..] == old(buffer[n..]);
  }

  /** convert_output_for_esai, which reads and writes the same buffer. */
  method ConvertOutputForEsai(buffer: array<int>, bytes: nat, channels: int)
    requires Reached(bytes) <= buffer.Length
    modifies buffer
    ensures buffer[..Reached(bytes)] == ForEsai(old(buffer[..Reached(bytes)]), channels)
    ensures buffer[Reached(bytes)..] == old(buffer[Reached(bytes)..])
  {
    if channels == 6 {
      ShuffleFrames6(buffer, Reached(bytes));
    } else if channels == 8 {
      ShuffleFrames8(buffer, Reached(bytes));
    }
  }

  /** Where sample c of frame f goes: within its frame by the permutation, or nowhere if the
      frame is not complete. */
  lemma {:induction false} ShuffledAt(s: seq<int>, perm: seq<nat>, f: nat, c: nat, start: nat)
    requires perm != [] && IsPerm(perm, |perm|)
    requires start == Rows(f, |perm|) && c < |perm| && start + c < |s|
    ensures Shuffle(s, perm)[start + c] == if start + |perm| <= |s| then s[start + perm[c]] else s[start + c]
    decreases f
  {
    if f != 0 {
      RowsApart(0, f, |perm|);
      ShuffledAt(s[|perm|..], perm, f - 1, c, start - |perm|);
    }
  }
}
