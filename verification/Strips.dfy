/** The 16-line strip loops that feed an image to the JPEG library as raw planes, for the
    semi-planar 4:2:0 format and for the packed 4:2:2 format. */
module Strips {

  import opened Planes
  import opened Wrappers

  const DEINTERLEAVE_LINES_ONE_TIME: nat := 16

  /** The bytes at even places, the bytes at odd places, and how to merge them again. */
  function Evens(s: seq<Byte>): (r: seq<Byte>)
    ensures |r| == |s| / 2
  {
    seq(|s| / 2, i requires 0 <= i < |s| / 2 => s[2 * i])
  }

  function Odds(s: seq<Byte>): (r: seq<Byte>)
    ensures |r| == |s| / 2
  {
    seq(|s| / 2, i requires 0 <= i < |s| / 2 => s[2 * i + 1])
  }

  lemma {:induction false} HalvesAt(s: seq<Byte>, i: nat)
    requires i < |s| / 2
    ensures Evens(s)[i] == s[2 * i] && Odds(s)[i] == s[2 * i + 1]
  {
  }

  function Interleave(a: seq<Byte>, b: seq<Byte>): (r: seq<Byte>)
    requires |a| == |b|
    ensures |r| == 2 * |a|
  {
    if a == [] then [] else [a[0], b[0]] + Interleave(a[1..], b[1..])
  }

  /** Every byte of the input is used exactly once: interleaving restores it. */
  lemma {:induction false} InterleaveRestores(s: seq<Byte>)
    requires |s| % 2 == 0
    ensures Interleave(Evens(s), Odds(s)) == s
  {
    if s != [] {
      InterleaveRestores(s[2..]);
      assert Evens(s)[1..] == Evens(s[2..]) && Odds(s)[1..] == Odds(s[2..]);
      assert s == [s[0], s[1]] + s[2..];
    }
  }

  lemma {:induction false} HalvesAppend(a: seq<Byte>, n: nat, b: seq<Byte>)
    requires |a| == 2 * n
    ensures Evens(a + b) == Evens(a) + Evens(b) && Odds(a + b) == Odds(a) + Odds(b)
  {
    var s := a + b;
    assert |s| / 2 == n + |b| / 2;
    forall i | 0 <= i < |s| / 2
      ensures Evens(s)[i] == (Evens(a) + Evens(b))[i] && Odds(s)[i] == (Odds(a) + Odds(b))[i]
    {
      HalvesAt(s, i);
      if i < n {
        HalvesAt(a, i);
      } else {
        HalvesAt(b, i - n);
      }
    }
  }

  /** What the JPEG library sees of n row pointers. */
  function Gather(buf: seq<Byte>, rows: seq<nat>, n: nat, len: nat): (r: seq<Byte>)
    requires n <= |rows| && forall i :: 0 <= i < n ==> rows[i] + len <= |buf|
  {
    if n == 0 then [] else Gather(buf, rows, n - 1, len) + buf[rows[n - 1]..rows[n - 1] + len]
  }

  /** Row pointers that lie `len` apart from `base` on. */
  ghost predicate Consecutive(rows: seq<nat>, n: nat, base: nat, len: nat) {
    n <= |rows| && forall i :: 0 <= i < n ==> rows[i] == base + Rows(i, len)
  }

  lemma {:induction false} Abut(s: seq<Byte>, a: nat, b: nat, c: nat)
    requires a <= b <= c <= |s|
    ensures s[a..b] + s[b..c] == s[a..c]
  {
  }

  lemma {:induction false} GatherConsecutive(buf: seq<Byte>, rows: seq<nat>, n: nat, base: nat, len: nat)
    requires Consecutive(rows, n, base, len) && base + Rows(n, len) <= |buf|
    ensures forall i :: 0 <= i < n ==> rows[i] + len <= |buf|
    ensures Gather(buf, rows, n, len) == buf[base..base + Rows(n, len)]
  {
    if n != 0 {
      GatherConsecutive(buf, rows, n - 1, base, len);
      GatherLast(buf, rows, n, base, len, base + Rows(n - 1, len), base + Rows(n, len));
    }
  }

  lemma {:induction false} GatherLast(buf: seq<Byte>, rows: seq<nat>, n: nat, base: nat, len: nat, mid: nat, end: nat)
    requires 0 < n <= |rows| && rows[n - 1] == mid && base <= mid && mid + len == end <= |buf|
    requires forall i :: 0 <= i < n ==> rows[i] + len <= |buf|
    requires Gather(buf, rows, n - 1, len) == buf[base..mid]
    ensures Gather(buf, rows, n, len) == buf[base..end]
  {
    Abut(buf, base, mid, end);
  }

  /** The compressor's side: it takes the rows that lie within the image, also where the last
      one of a chroma plane belongs to a single line, and advances by 16 lines. `chromaStep`
      lines share one row of each chroma plane. */
  class JpegSink {
    const width: nat
    const imageHeight: nat
    const chromaStep: nat
    var nextScanline: nat
    var ys: seq<Byte>
    var us: seq<Byte>
    var vs: seq<Byte>

    constructor (width: nat, imageHeight: nat, chromaStep: nat)
      ensures this.width == width && this.imageHeight == imageHeight && this.chromaStep == chromaStep
      ensures nextScanline == 0 && ys == us == vs == []
    {
      this.width, this.imageHeight, this.chromaStep := width, imageHeight, chromaStep;
      nextScanline, ys, us, vs := 0, [], [], [];
    }

    /** The lines of the image that have been taken. */
    function Reached(): nat
      reads `nextScanline
    {
      if nextScanline < imageHeight then nextScanline else imageHeight
    }

    /** The lines of the next strip that lie within the image: 16, unless the image ends before. */
    function Lines(): (n: nat)
      reads `nextScanline
      ensures n <= 16 && Reached() + n <= imageHeight
      ensures n < 16 ==> Reached() + n == imageHeight
    {
      if imageHeight <= nextScanline then 0
      else if nextScanline + 16 > imageHeight then imageHeight - nextScanline else 16
    }

    /** The chroma rows of these lines. */
    function ChromaLines(): nat
      requires chromaStep != 0
      reads `nextScanline
    {
      (Lines() + chromaStep - 1) / chromaStep
    }

    method WriteRawData(yBuf: array<Byte>, y: seq<nat>, uBuf: array<Byte>, cb: seq<nat>, vBuf: array<Byte>,
                        cr: seq<nat>)
      requires chromaStep != 0
      requires Lines() <= |y| && forall i :: 0 <= i < Lines() ==> y[i] + width <= yBuf.Length
      requires ChromaLines() <= |cb| && ChromaLines() <= |cr|
      requires forall i :: 0 <= i < ChromaLines() ==> cb[i] + width / 2 <= uBuf.Length
      requires forall i :: 0 <= i < ChromaLines() ==> cr[i] + width / 2 <= vBuf.Length
      modifies `nextScanline, `ys, `us, `vs
      ensures nextScanline == old(nextScanline) + 16
      ensures ys == old(ys) + Gather(yBuf[..], y, old(Lines()), width)
      ensures us == old(us) + Gather(uBuf[..], cb, old(ChromaLines()), width / 2)
      ensures vs == old(vs) + Gather(vBuf[..], cr, old(ChromaLines()), width / 2)
    {
      var n, c := Lines(), ChromaLines();
      ys := ys + Gather(yBuf[..], y, n, width);
      us := us + Gather(uBuf[..], cb, c, width / 2);
      vs := vs + Gather(vBuf[..], cr, c, width / 2);
      nextScanline := nextScanline + 16;
    }
  }

  /** The inner loop of the semi-planar deinterleave: one row of V and U pairs. */
  method SplitPairs(yuv: array<Byte>, src: nat, uRows: array<Byte>, vRows: array<Byte>, dst: nat, half: nat)
    requires yuv != uRows && yuv != vRows && uRows != vRows
    requires src + 2 * half <= yuv.Length && dst + half <= uRows.Length && dst + half <= vRows.Length
    modifies uRows, vRows
    ensures forall i :: 0 <= i < half ==> uRows[dst + i] == yuv[src + 2 * i]
    ensures forall i :: 0 <= i < half ==> vRows[dst + i] == yuv[src + 2 * i + 1]
    ensures uRows[..dst] == old(uRows[..dst]) && vRows[..dst] == old(vRows[..dst])
    ensures uRows[dst + half..] == old(uRows[dst + half..]) && vRows[dst + half..] == old(vRows[dst + half..])
  {
    for i := 0 to half
      invariant forall j :: 0 <= j < i ==> uRows[dst + j] == yuv[src + 2 * j]
      invariant forall j :: 0 <= j < i ==> vRows[dst + j] == yuv[src + 2 * j + 1]
      invariant uRows[..dst] == old(uRows[..dst]) && vRows[..dst] == old(vRows[..dst])
      invariant uRows[dst + half..] == old(uRows[dst + half..]) && vRows[dst + half..] == old(vRows[dst + half..])
    {
      uRows[dst + i] := yuv[src + 2 * i];
      vRows[dst + i] := yuv[src + 2 * i + 1];
    }
  }

  /** How many chroma rows one call deinterleaves: the loop stops at the last one. */
  function ChromaRows(rowIndex: nat, height: nat, processLines: nat): nat
    requires rowIndex <= height
  {
    if rowIndex / 2 + processLines / 2 <= height / 2 then processLines / 2 else height / 2 - rowIndex / 2
  }

  lemma {:induction false} RowsWithin(r: nat, h: nat, pitch: nat)
    requires r <= h
    ensures Rows(r, pitch) <= Rows(h, pitch)
  {
    if r < h {
      RowsApart(r, h, pitch);
    }
  }

  /** The first m bytes of each buffer are the even, respectively odd, bytes from `src` on. */
  ghost predicate Split(yuv: seq<Byte>, src: nat, uRows: seq<Byte>, vRows: seq<Byte>, m: nat) {
    && src + 2 * m <= |yuv| && m <= |uRows| && m <= |vRows|
    && uRows[..m] == Evens(yuv[src..src + 2 * m])
    && vRows[..m] == Odds(yuv[src..src + 2 * m])
  }

  lemma {:induction false} SplitNext(yuv: seq<Byte>, src: nat, uRows: seq<Byte>, vRows: seq<Byte>, m: nat,
                                     uNext: seq<Byte>, vNext: seq<Byte>, m': nat, mid: nat, end: nat)
    requires Split(yuv, src, uRows, vRows, m) && m <= m' && mid == src + 2 * m && end == src + 2 * m' <= |yuv|
    requires m' <= |uNext| && m' <= |vNext| && uNext[..m] == uRows[..m] && vNext[..m] == vRows[..m]
    requires uNext[m..m'] == Evens(yuv[mid..end]) && vNext[m..m'] == Odds(yuv[mid..end])
    ensures Split(yuv, src, uNext, vNext, m')
  {
    HalvesGrow(yuv, src, mid, end, uRows[..m], vRows[..m], uNext[m..m'], vNext[m..m']);
    Abut(uNext, 0, m, m');
    Abut(vNext, 0, m, m');
  }

  lemma {:induction false} SplitPiece(b: seq<Byte>, us: seq<Byte>, vs: seq<Byte>)
    requires |b| == 2 * |us| == 2 * |vs|
    requires forall i :: 0 <= i < |us| ==> us[i] == b[2 * i]
    requires forall i :: 0 <= i < |vs| ==> vs[i] == b[2 * i + 1]
    ensures us == Evens(b) && vs == Odds(b)
  {
    forall i | 0 <= i < |us|
      ensures us[i] == Evens(b)[i] && vs[i] == Odds(b)[i]
    {
      HalvesAt(b, i);
    }
  }

  lemma {:induction false} HalvesJoin(s: seq<Byte>, a: nat, b: nat, c: nat)
    requires a <= b <= c <= |s| && (b - a) % 2 == 0
    ensures Evens(s[a..b]) + Evens(s[b..c]) == Evens(s[a..c])
    ensures Odds(s[a..b]) + Odds(s[b..c]) == Odds(s[a..c])
  {
    HalvesAppend(s[a..b], (b - a) / 2, s[b..c]);
    Abut(s, a, b, c);
  }

  lemma {:induction false} HalvesGrow(s: seq<Byte>, a: nat, b: nat, c: nat, u: seq<Byte>, v: seq<Byte>,
                                      moreU: seq<Byte>, moreV: seq<Byte>)
    requires a <= b <= c <= |s| && (b - a) % 2 == 0
    requires u == Evens(s[a..b]) && v == Odds(s[a..b]) && moreU == Evens(s[b..c]) && moreV == Odds(s[b..c])
    ensures u + moreU == Evens(s[a..c]) && v + moreV == Odds(s[a..c])
  {
    HalvesJoin(s, a, b, c);
  }

  /** The same row, said of the planes. */
  method SplitHalves(yuv: array<Byte>, src: nat, uRows: array<Byte>, vRows: array<Byte>, dst: nat, half: nat,
                     ghost end: nat, ghost dst': nat)
    requires yuv != uRows && yuv != vRows && uRows != vRows && end == src + 2 * half && dst' == dst + half
    requires end <= yuv.Length && dst' <= uRows.Length && dst' <= vRows.Length
    modifies uRows, vRows
    ensures uRows[..][dst..dst'] == Evens(yuv[..][src..end]) && vRows[..][dst..dst'] == Odds(yuv[..][src..end])
    ensures uRows[..][..dst] == old(uRows[..])[..dst] && vRows[..][..dst] == old(vRows[..])[..dst]
    ensures uRows[..][dst'..] == old(uRows[..])[dst'..] && vRows[..][dst'..] == old(vRows[..])[dst'..]
  {
    SplitPairs(yuv, src, uRows, vRows, dst, half);
    SplitPiece(yuv[..][src..end], uRows[..][dst..dst'], vRows[..][dst..dst']);
  }

  method SplitRow(yuv: array<Byte>, src: nat, uRows: array<Byte>, vRows: array<Byte>, dst: nat, half: nat,
                  ghost from: nat, ghost end: nat, ghost dst': nat)
    requires yuv != uRows && yuv != vRows && uRows != vRows && end == src + 2 * half && dst' == dst + half
    requires end <= yuv.Length && dst' <= uRows.Length && dst' <= vRows.Length
    requires src == from + 2 * dst && Split(yuv[..], from, uRows[..], vRows[..], dst)
    modifies uRows, vRows
    ensures Split(yuv[..], from, uRows[..], vRows[..], dst')
    ensures uRows[..][dst'..] == old(uRows[..])[dst'..] && vRows[..][dst'..] == old(vRows[..])[dst'..]
  {
    SplitHalves(yuv, src, uRows, vRows, dst, half, end, dst');
    SplitNext(yuv[..], from, old(uRows[..]), old(vRows[..]), dst, uRows[..], vRows[..], dst', src, end);
  }

  /** Where row `row` of a strip starts, in a plane of `width` bytes a line from which the
      strip takes rows from `first` on. */
  lemma {:induction false} RowPlaces(first: nat, row: nat, width: nat)
    requires width % 2 == 0
    ensures Rows(first + row, width) == Rows(first, width) + 2 * Rows(row, width / 2)
  {
    RowsAppend(first, row, width);
    RowsScale(row, width / 2, 2);
  }

  lemma {:induction false} SuffixOf(before: seq<Byte>, now: seq<Byte>, next: seq<Byte>, m: nat, m': nat)
    requires m <= m' <= |before| == |now| == |next|
    requires now[m..] == before[m..] && next[m'..] == now[m'..]
    ensures next[m'..] == before[m'..]
  {
    assert now[m'..] == now[m..][m' - m..] && before[m'..] == before[m..][m' - m..];
  }

  /** Where row `row` of such a strip is, and that there is room for it. */
  lemma {:induction false} RowFits(first: nat, row: nat, all: nat, count: nat, width: nat)
    requires width % 2 == 0 && first + row < all && row < count
    ensures Rows(first + row, width) == Rows(first, width) + 2 * Rows(row, width / 2)
    ensures Rows(first + row, width) + width <= Rows(all, width)
    ensures Rows(row + 1, width / 2) == Rows(row, width / 2) + width / 2 <= Rows(count, width / 2)
  {
    RowPlaces(first, row, width);
    RowsApart(first + row, all, width);
    RowsWithin(row + 1, count, width / 2);
  }

  /** One turn of the loop of Yuv420SpToJpegEncoder::deinterleave. */
  method SplitLine(yuv: array<Byte>, vuPlanar: nat, uRows: array<Byte>, vRows: array<Byte>, first: nat, row: nat,
                   width: nat, ghost all: nat, ghost count: nat, ghost from: nat, ghost done: nat,
                   ghost u0: seq<Byte>, ghost v0: seq<Byte>) returns (ghost done': nat)
    requires yuv != uRows && yuv != vRows && uRows != vRows && |u0| == uRows.Length && |v0| == vRows.Length
    requires width % 2 == 0 && from == vuPlanar + Rows(first, width) && done == Rows(row, width / 2)
    requires first + row < all && vuPlanar + Rows(all, width) <= yuv.Length
    requires row < count && Rows(count, width / 2) <= uRows.Length == vRows.Length
    requires Split(yuv[..], from, uRows[..], vRows[..], done)
    requires uRows[..][done..] == u0[done..] && vRows[..][done..] == v0[done..]
    modifies uRows, vRows
    ensures done' == Rows(row + 1, width / 2) && Split(yuv[..], from, uRows[..], vRows[..], done')
    ensures uRows[..][done'..] == u0[done'..] && vRows[..][done'..] == v0[done'..]
  {
    var hoff := first + row;
    var offset := hoff * width;
    RowFits(first, row, all, count, width);
    RowsIsProduct(hoff, width);
    RowsIsProduct(row, width / 2);
    done' := done + width / 2;
    ghost var end := vuPlanar + offset + width;
    SplitRow(yuv, vuPlanar + offset, uRows, vRows, row * (width / 2), width / 2, from, end, done');
    SuffixOf(u0, old(uRows[..]), uRows[..], done, done');
    SuffixOf(v0, old(vRows[..]), vRows[..], done, done');
  }

  /** Yuv420SpToJpegEncoder::deinterleave, for a strip that starts within the image. What
      the buffers hold behind its rows stays. */
  method DeinterleaveSp(yuv: array<Byte>, vuPlanar: nat, uRows: array<Byte>, vRows: array<Byte>, rowIndex: nat,
                        width: nat, height: nat, processLines: nat, ghost from: nat, ghost m: nat)
    requires yuv != uRows && yuv != vRows && uRows != vRows
    requires rowIndex <= height && width % 2 == 0 && vuPlanar + Rows(height / 2, width) <= yuv.Length
    requires from == vuPlanar + Rows(rowIndex / 2, width)
    requires m == Rows(ChromaRows(rowIndex, height, processLines), width / 2)
    requires Rows(processLines / 2, width / 2) <= uRows.Length == vRows.Length
    modifies uRows, vRows
    ensures Split(yuv[..], from, uRows[..], vRows[..], m)
    ensures uRows[..][m..] == old(uRows[..])[m..] && vRows[..][m..] == old(vRows[..])[m..]
  {
    var row := 0;
    ghost var first, done := rowIndex / 2, 0;
    ghost var u0, v0 := uRows[..], vRows[..];
    RowsWithin(first, height / 2, width);
    while row < processLines / 2
      invariant 0 <= row <= ChromaRows(rowIndex, height, processLines)
      invariant done == Rows(row, width / 2) && Split(yuv[..], from, uRows[..], vRows[..], done)
      invariant uRows[..][done..] == u0[done..] && vRows[..][done..] == v0[done..]
    {
      if rowIndex / 2 + row >= height / 2 {
        assert done == m;
        return;
      }
      done := SplitLine(yuv, vuPlanar, uRows, vRows, rowIndex / 2, row, width, height / 2, processLines / 2,
                        from, done, u0, v0);
      row := row + 1;
    }
    assert done == m;
  }

  /** The loop of Yuv420SpToJpegEncoder::compress that sets the row pointers of a strip. */
  method PointSp(y0: seq<nat>, cb0: seq<nat>, cr0: seq<nat>, scanline: nat, processLines: nat, width: nat,
                 ghost luma: nat) returns (y: seq<nat>, cb: seq<nat>, cr: seq<nat>)
    requires processLines <= |y0| && (processLines + 1) / 2 <= |cb0| == |cr0| && luma == Rows(scanline, width)
    ensures |y| == |y0| && |cb| == |cb0| && |cr| == |cr0|
    ensures Consecutive(y, processLines, luma, width)
    ensures Consecutive(cb, (processLines + 1) / 2, 0, width / 2)
    ensures Consecutive(cr, (processLines + 1) / 2, 0, width / 2)
  {
    y, cb, cr := y0, cb0, cr0;
    for i := 0 to processLines
      invariant |y| == |y0| && |cb| == |cb0| && |cr| == |cr0|
      invariant Consecutive(y, i, luma, width)
      invariant Consecutive(cb, (i + 1) / 2, 0, width / 2)
      invariant Consecutive(cr, (i + 1) / 2, 0, width / 2)
    {
      y := y[i := (scanline + i) * width];
      RowsIsProduct(scanline + i, width);
      RowsAppend(scanline, i, width);
      if i % 2 == 0 {
        var offset := i / 2 * (width / 2);
        RowsIsProduct(i / 2, width / 2);
        cb := cb[i / 2 := offset];
        cr := cr[i / 2 := offset];
      }
    }
  }

  /** A semi-planar image: the plane of Y comes first, from `base` on the one of V and U. */
  datatype SpImage = SpImage(yuv: seq<Byte>, width: nat, height: nat, base: nat) {
    ghost predicate Valid() {
      width % 2 == 0 && base == Rows(height, width) && base + Rows(height / 2, width) <= |yuv|
    }
  }

  /** The bytes of the planes that the compressor has taken. */
  datatype Taken = Taken(ys: seq<Byte>, us: seq<Byte>, vs: seq<Byte>)

  /** Bytes of U and V in the same places. */
  datatype Chroma = Chroma(u: seq<Byte>, v: seq<Byte>)

  /** The row pointers of a strip. */
  datatype Pointers = Pointers(y: seq<nat>, cb: seq<nat>, cr: seq<nat>)

  /** The numbers of a strip of n lines from line k on, and line `next` after it: its bytes of
      Y, how many bytes of each of U and V come before it and with it, where they start in the
      image, how many it has, and how many it delivers. */
  datatype Strip = Strip(k: nat, n: nat, next: nat, luma: nat, lumaEnd: nat, chroma: nat, chromaEnd: nat,
                         from: nat, rows: nat, taken: nat)

  ghost predicate StripAt(image: SpImage, s: Strip) {
    var w, half := image.width, image.width / 2;
    && s.k % 16 == 0 && s.k < image.height && s.n == (if s.k + 16 > image.height then image.height - s.k else 16)
    && s.next == (if s.k + 16 < image.height then s.k + 16 else image.height) == s.k + s.n
    && s.luma == Rows(s.k, w) && s.lumaEnd == Rows(s.next, w) == s.luma + Rows(s.n, w) <= image.base
    && s.chroma == Rows(s.k / 2, half) && s.chromaEnd == Rows(s.next / 2, half) == s.chroma + s.rows
    && s.from == image.base + Rows(s.k / 2, w) == image.base + 2 * s.chroma
    && image.base + 2 * s.chromaEnd <= |image.yuv|
    && s.rows == Rows(s.n / 2, half) && s.taken == Rows((s.n + 1) / 2, half)
    && s.rows <= s.taken <= Rows(8, half)
  }

  lemma {:induction false} Sixteens(k: nat)
    requires k % 16 == 0
    ensures k % 2 == 0 && (k + 16) % 16 == 0 && (k == 0 || 16 <= k)
  {
    assert k == 2 * (8 * (k / 16));
  }

  /** Only the last strip can have an odd number of lines, and only if the image has. */
  lemma {:induction false} StripLines(height: nat, k: nat, n: nat, next: nat)
    requires k % 16 == 0 && k < height && n == if k + 16 > height then height - k else 16
    requires next == if k + 16 < height then k + 16 else height
    ensures next == k + n && (k + 16) % 16 == 0 && k % 2 == 0
    ensures n / 2 <= (n + 1) / 2 <= 8 && next % 2 == n % 2
    ensures n % 2 == 1 ==> height / 2 == k / 2 + n / 2 && n < 16 && (16 <= k <==> 16 <= height)
  {
    Sixteens(k);
  }

  lemma {:induction false} LumaPlaces(width: nat, height: nat, k: nat, n: nat)
    requires k + n <= height
    ensures Rows(k + n, width) == Rows(k, width) + Rows(n, width) <= Rows(height, width)
  {
    RowsAppend(k, n, width);
    RowsWithin(k + n, height, width);
  }

  lemma {:induction false} ChromaPlaces(width: nat, height: nat, k: nat, n: nat, next: nat)
    requires width % 2 == 0 && k % 2 == 0 && next == k + n <= height
    ensures Rows(next / 2, width / 2) == Rows(k / 2, width / 2) + Rows(n / 2, width / 2)
    ensures Rows(k / 2, width) == 2 * Rows(k / 2, width / 2)
    ensures 2 * Rows(next / 2, width / 2) <= Rows(height / 2, width)
  {
    assert next / 2 == k / 2 + n / 2;
    RowsAppend(k / 2, n / 2, width / 2);
    RowsWithin(next / 2, height / 2, width / 2);
    RowsScale(k / 2, width / 2, 2);
    RowsScale(height / 2, width / 2, 2);
  }

  /** The places of the chroma bytes that the strip delivers. */
  lemma {:induction false} ChromaTaken(width: nat, n: nat)
    requires (n + 1) / 2 <= 8
    ensures Rows(n / 2, width / 2) <= Rows((n + 1) / 2, width / 2) <= Rows(8, width / 2)
  {
    RowsWithin(n / 2, (n + 1) / 2, width / 2);
    RowsWithin((n + 1) / 2, 8, width / 2);
  }

  lemma {:induction false} StripNumbers(image: SpImage, k: nat, n: nat, next: nat) returns (s: Strip)
    requires image.Valid() && k % 2 == 0 && next == k + n <= image.height && (n + 1) / 2 <= 8
    ensures s.k == k && s.n == n && s.next == next
    ensures var w, half := image.width, image.width / 2;
      && s.luma == Rows(k, w) && s.lumaEnd == Rows(next, w) == s.luma + Rows(n, w) <= image.base
      && s.chroma == Rows(k / 2, half) && s.chromaEnd == Rows(next / 2, half) == s.chroma + s.rows
      && s.from == image.base + Rows(k / 2, w) == image.base + 2 * s.chroma
      && image.base + 2 * s.chromaEnd <= |image.yuv|
      && s.rows == Rows(n / 2, half) && s.taken == Rows((n + 1) / 2, half) && s.rows <= s.taken <= Rows(8, half)
  {
    var w, half, height := image.width, image.width / 2, image.height;
    LumaPlaces(w, height, k, n);
    ChromaPlaces(w, height, k, n, next);
    ChromaTaken(w, n);
    s := Strip(k, n, next, Rows(k, w), Rows(next, w), Rows(k / 2, half), Rows(next / 2, half),
               image.base + Rows(k / 2, w), Rows(n / 2, half), Rows((n + 1) / 2, half));
  }

  lemma {:induction false} StripFrom(image: SpImage, k: nat) returns (s: Strip)
    requires image.Valid() && k % 16 == 0 && k < image.height
    ensures s.k == k && StripAt(image, s)
  {
    var height := image.height;
    var n := if k + 16 > height then height - k else 16;
    var next := if k + 16 < height then k + 16 else height;
    StripLines(height, k, n, next);
    s := StripNumbers(image, k, n, next);
  }

  /** The compressor has the first `luma` bytes of Y and `chroma` bytes of each of U and V. */
  ghost predicate SpTaken(image: SpImage, luma: nat, chroma: nat, t: Taken) {
    && luma <= image.base && image.base + 2 * chroma <= |image.yuv|
    && t.ys == image.yuv[..luma]
    && t.us == Evens(image.yuv[image.base..image.base + 2 * chroma])
    && t.vs == Odds(image.yuv[image.base..image.base + 2 * chroma])
  }

  lemma {:induction false} SpTakenNext(image: SpImage, s: Strip, t: Taken, rows: Chroma, t': Taken)
    requires SpTaken(image, s.luma, s.chroma, t) && s.luma <= s.lumaEnd <= image.base
    requires Split(image.yuv, s.from, rows.u, rows.v, s.rows)
    requires s.from == image.base + 2 * s.chroma && s.chromaEnd == s.chroma + s.rows
    requires t'.ys == t.ys + image.yuv[s.luma..s.lumaEnd]
    requires t'.us == t.us + rows.u[..s.rows] && t'.vs == t.vs + rows.v[..s.rows]
    ensures SpTaken(image, s.lumaEnd, s.chromaEnd, t')
  {
    var yuv, base, mid, end := image.yuv, image.base, s.from, image.base + 2 * s.chromaEnd;
    Abut(yuv, 0, s.luma, s.lumaEnd);
    HalvesGrow(yuv, base, mid, end, t.us, t.vs, rows.u[..s.rows], rows.v[..s.rows]);
  }

  /** The row pointers and the chroma rows of a strip are set up. */
  ghost predicate SpReady(image: SpImage, s: Strip, p: Pointers, rows: Chroma) {
    && Consecutive(p.y, s.n, s.luma, image.width)
    && Consecutive(p.cb, (s.n + 1) / 2, 0, image.width / 2) && Consecutive(p.cr, (s.n + 1) / 2, 0, image.width / 2)
    && Split(image.yuv, s.from, rows.u, rows.v, s.rows)
  }

  /** The sink stands at the strip s of the image in `yuv`; the buffers hold eight rows. */
  ghost predicate AtStrip(sink: JpegSink, yuv: array<Byte>, uRows: array<Byte>, vRows: array<Byte>, image: SpImage,
                          s: Strip)
    reads sink, yuv
  {
    && yuv != uRows && yuv != vRows && uRows != vRows && sink.chromaStep == 2
    && image == SpImage(yuv[..], sink.width, sink.imageHeight, image.base) && image.Valid()
    && StripAt(image, s) && s.k == sink.nextScanline
    && uRows.Length == vRows.Length == Rows(8, sink.width / 2)
  }

  predicate HasPointers(p: Pointers) {
    |p.y| == 16 && |p.cb| == |p.cr| == 8
  }

  /** The first half of a turn of the loop of Yuv420SpToJpegEncoder::compress. */
  method PrepareSp(sink: JpegSink, yuv: array<Byte>, p0: Pointers, uRows: array<Byte>, vRows: array<Byte>,
                   processLines: nat, ghost image: SpImage, ghost s: Strip) returns (p: Pointers)
    requires AtStrip(sink, yuv, uRows, vRows, image, s) && HasPointers(p0) && processLines == s.n
    modifies uRows, vRows
    ensures HasPointers(p)
    ensures uRows[..][s.rows..] == old(uRows[..])[s.rows..] && vRows[..][s.rows..] == old(vRows[..])[s.rows..]
    ensures SpReady(image, s, p, Chroma(uRows[..], vRows[..]))
  {
    var width, height, scanline := sink.width, sink.imageHeight, sink.nextScanline;
    ghost var from, m, luma := s.from, s.rows, s.luma;
    StripLines(height, s.k, s.n, s.next);
    RowsWithin(processLines / 2, 8, width / 2);
    RowsIsProduct(height, width);
    DeinterleaveSp(yuv, height * width, uRows, vRows, scanline, width, height, processLines, from, m);
    var y, cb, cr := PointSp(p0.y, p0.cb, p0.cr, scanline, processLines, width, luma);
    p := Pointers(y, cb, cr);
  }

  lemma {:induction false} SpGathered(image: SpImage, s: Strip, c: nat, p: Pointers, rows: Chroma)
    requires SpReady(image, s, p, rows) && c == (s.n + 1) / 2
    requires s.lumaEnd == s.luma + Rows(s.n, image.width) <= |image.yuv|
    requires s.taken == Rows(c, image.width / 2) && s.taken <= |rows.u| && s.taken <= |rows.v|
    ensures forall i :: 0 <= i < s.n ==> p.y[i] + image.width <= |image.yuv|
    ensures forall i :: 0 <= i < c ==> p.cb[i] + image.width / 2 <= |rows.u|
    ensures forall i :: 0 <= i < c ==> p.cr[i] + image.width / 2 <= |rows.v|
    ensures Gather(image.yuv, p.y, s.n, image.width) == image.yuv[s.luma..s.lumaEnd]
    ensures Gather(rows.u, p.cb, c, image.width / 2) == rows.u[..s.taken]
    ensures Gather(rows.v, p.cr, c, image.width / 2) == rows.v[..s.taken]
  {
    GatherConsecutive(image.yuv, p.y, s.n, s.luma, image.width);
    GatherConsecutive(rows.u, p.cb, c, 0, image.width / 2);
    GatherConsecutive(rows.v, p.cr, c, 0, image.width / 2);
  }

  /** The second half of a turn: the compressor takes `taken` bytes of each chroma buffer. */
  method TakeSp(sink: JpegSink, yuv: array<Byte>, p: Pointers, uRows: array<Byte>, vRows: array<Byte>,
                ghost image: SpImage, ghost s: Strip)
    requires AtStrip(sink, yuv, uRows, vRows, image, s) && SpReady(image, s, p, Chroma(uRows[..], vRows[..]))
    modifies sink
    ensures sink.nextScanline == old(sink.nextScanline) + 16
    ensures sink.ys == old(sink.ys) + image.yuv[s.luma..s.lumaEnd]
    ensures sink.us == old(sink.us) + uRows[..][..s.taken]
    ensures sink.vs == old(sink.vs) + vRows[..][..s.taken]
  {
    ghost var c := sink.ChromaLines();
    assert s.n == sink.Lines() && c == (s.n + 1) / 2;
    SpGathered(image, s, c, p, Chroma(uRows[..], vRows[..]));
    sink.WriteRawData(yuv, p.y, uRows, p.cb, vRows, p.cr);
  }

  /** The buffers still hold the eight chroma rows of the strip before line k. */
  ghost predicate Remembers(image: SpImage, k: nat, rows: Chroma) {
    16 <= k ==>
      Split(image.yuv, image.base + Rows(k / 2 - 8, image.width), rows.u, rows.v, Rows(8, image.width / 2))
  }

  /** One row of `width` bytes of the chroma plane, at p, taken apart. */
  ghost predicate RowAt(yuv: seq<Byte>, p: nat, width: nat, row: Chroma) {
    p + width <= |yuv| && row.u == Evens(yuv[p..p + width]) && row.v == Odds(yuv[p..p + width])
  }

  /** The chroma row of the last line of an image of odd height: there is none in the image,
      so what is delivered is the row of the strip before it that lies in the same place. If
      there is no strip before it, nothing is known of that row. */
  ghost predicate LastRow(image: SpImage, last: Chroma) {
    && |last.u| == |last.v| == image.width / 2
    && (16 <= image.height ==>
          RowAt(image.yuv, image.base + Rows(image.height / 2 - 8, image.width), image.width, last))
  }

  lemma {:induction false} HalvesSliceAt(s: seq<Byte>, a: nat, b: nat, t: seq<Byte>, i: nat)
    requires a <= b <= |s| / 2 && t == s[2 * a..2 * b] && i < b - a
    ensures Evens(s)[a + i] == Evens(t)[i] && Odds(s)[a + i] == Odds(t)[i]
  {
    HalvesAt(s, a + i);
    HalvesAt(t, i);
  }

  lemma {:induction false} HalvesSlice(s: seq<Byte>, a: nat, b: nat, t: seq<Byte>)
    requires a <= b <= |s| / 2 && t == s[2 * a..2 * b]
    ensures Evens(s)[a..b] == Evens(t) && Odds(s)[a..b] == Odds(t)
  {
    forall i | 0 <= i < b - a
      ensures Evens(s)[a + i] == Evens(t)[i] && Odds(s)[a + i] == Odds(t)[i]
    {
      HalvesSliceAt(s, a, b, t, i);
    }
  }

  lemma {:induction false} SliceOfSlice(s: seq<Byte>, lo: nat, hi: nat, a: nat, b: nat, from: nat, to: nat)
    requires lo <= hi <= |s| && a <= b <= hi - lo && from == lo + a && to == lo + b
    ensures s[lo..hi][a..b] == s[from..to]
  {
    var t := s[lo..hi][a..b];
    assert |t| == to - from;
    assert forall i :: 0 <= i < to - from ==> t[i] == s[lo + a + i] == s[from..to][i];
  }

  lemma {:induction false} SplitSlice(yuv: seq<Byte>, src: nat, uRows: seq<Byte>, vRows: seq<Byte>, m: nat, a: nat,
                                      b: nat, from: nat, to: nat)
    requires Split(yuv, src, uRows, vRows, m) && a <= b <= m && from == src + 2 * a && to == src + 2 * b
    ensures to <= |yuv| && uRows[a..b] == Evens(yuv[from..to]) && vRows[a..b] == Odds(yuv[from..to])
  {
    SliceOfSlice(yuv, src, src + 2 * m, 2 * a, 2 * b, from, to);
    HalvesSlice(yuv[src..src + 2 * m], a, b, yuv[from..to]);
    SliceOfSlice(uRows, 0, m, a, b, a, b);
    SliceOfSlice(vRows, 0, m, a, b, a, b);
  }

  /** The row that the last strip lacks, in the strip before it. */
  lemma {:induction false} LastPlace(image: SpImage, s: Strip, src: nat, p: nat)
    requires StripAt(image, s) && image.width % 2 == 0 && 16 <= s.k && s.n % 2 == 1
    requires src == image.base + Rows(s.k / 2 - 8, image.width)
    requires p == image.base + Rows(image.height / 2 - 8, image.width)
    ensures p == src + 2 * s.rows
  {
    StripLines(image.height, s.k, s.n, s.next);
    RowPlaces(s.k / 2 - 8, s.n / 2, image.width);
    assert s.k / 2 - 8 + s.n / 2 == image.height / 2 - 8;
  }

  lemma {:induction false} DeliveredRows(n: nat, pitch: nat)
    ensures Rows((n + 1) / 2, pitch) == Rows(n / 2, pitch) + if n % 2 == 1 then pitch else 0
  {
    assert (n + 1) / 2 == n / 2 + n % 2;
  }

  lemma {:induction false} RowOf(yuv: seq<Byte>, src: nat, rows: Chroma, m: nat, a: nat, b: nat, p: nat, width: nat)
    requires Split(yuv, src, rows.u, rows.v, m) && a <= b <= m && p == src + 2 * a && 2 * b == 2 * a + width
    ensures RowAt(yuv, p, width, Chroma(rows.u[a..b], rows.v[a..b]))
  {
    SplitSlice(yuv, src, rows.u, rows.v, m, a, b, p, p + width);
  }

  /** The row in the place that the last strip lacks, when there is a strip before it. */
  lemma {:induction false} RowBefore(image: SpImage, s: Strip, rows: Chroma, src: nat, p: nat, m: nat)
    requires StripAt(image, s) && image.width % 2 == 0 && 16 <= s.k && s.n % 2 == 1 && s.taken <= m
    requires src == image.base + Rows(s.k / 2 - 8, image.width) && Split(image.yuv, src, rows.u, rows.v, m)
    requires p == image.base + Rows(image.height / 2 - 8, image.width)
    ensures RowAt(image.yuv, p, image.width, Chroma(rows.u[s.rows..s.taken], rows.v[s.rows..s.taken]))
  {
    LastPlace(image, s, src, p);
    DeliveredRows(s.n, image.width / 2);
    RowOf(image.yuv, src, rows, m, s.rows, s.taken, p, image.width);
  }

  lemma {:induction false} OddStrip(image: SpImage, s: Strip)
    requires StripAt(image, s) && s.n % 2 == 1
    ensures (16 <= s.k <==> 16 <= image.height) && s.taken == s.rows + image.width / 2
  {
    StripLines(image.height, s.k, s.n, s.next);
    DeliveredRows(s.n, image.width / 2);
  }

  /** What the strip before the last one has left in the buffers, in the place of the row that
      the last one lacks. */
  lemma {:induction false} LastRowIs(image: SpImage, s: Strip, rows: Chroma)
    requires StripAt(image, s) && image.width % 2 == 0 && s.n % 2 == 1
    requires Remembers(image, s.k, rows) && s.taken <= |rows.u| && s.taken <= |rows.v|
    ensures LastRow(image, Chroma(rows.u[s.rows..s.taken], rows.v[s.rows..s.taken]))
  {
    OddStrip(image, s);
    if 16 <= image.height {
      RowBefore(image, s, rows, image.base + Rows(s.k / 2 - 8, image.width),
                image.base + Rows(image.height / 2 - 8, image.width), Rows(8, image.width / 2));
    }
  }

  /** What a strip leaves behind its own rows is what the strip before it wrote. */
  ghost predicate KeepsBehind(m: nat, before: Chroma, rows: Chroma) {
    && m <= |before.u| == |before.v| == |rows.u| == |rows.v|
    && rows.u[m..] == before.u[m..] && rows.v[m..] == before.v[m..]
  }

  lemma {:induction false} LastTaken(image: SpImage, s: Strip, before: Chroma, rows: Chroma)
    requires StripAt(image, s) && image.width % 2 == 0 && Remembers(image, s.k, before)
    requires KeepsBehind(s.rows, before, rows) && |rows.u| == Rows(8, image.width / 2)
    ensures s.n % 2 == 0 ==> rows.u[s.rows..s.taken] == rows.v[s.rows..s.taken] == []
    ensures s.n % 2 == 1 ==> LastRow(image, Chroma(rows.u[s.rows..s.taken], rows.v[s.rows..s.taken]))
  {
    DeliveredRows(s.n, image.width / 2);
    if s.n % 2 == 1 {
      LastRowIs(image, s, before);
      SameSlice(before.u, rows.u, s.rows, s.taken);
      SameSlice(before.v, rows.v, s.rows, s.taken);
    }
  }

  lemma {:induction false} SameSlice(a: seq<Byte>, b: seq<Byte>, m: nat, n: nat)
    requires m <= n <= |a| == |b| && a[m..] == b[m..]
    ensures a[m..n] == b[m..n]
  {
    assert a[m..n] == a[m..][..n - m];
  }

  /** The body of a turn of the loop of Yuv420SpToJpegEncoder::compress. */
  method WriteSpStrip(sink: JpegSink, yuv: array<Byte>, p0: Pointers, uRows: array<Byte>, vRows: array<Byte>,
                      processLines: nat, ghost image: SpImage, ghost s: Strip) returns (p: Pointers)
    requires AtStrip(sink, yuv, uRows, vRows, image, s) && HasPointers(p0) && processLines == s.n
    modifies sink, uRows, vRows
    ensures HasPointers(p) && yuv[..] == old(yuv[..])
    ensures sink.nextScanline == old(sink.nextScanline) + 16
    ensures sink.ys == old(sink.ys) + image.yuv[s.luma..s.lumaEnd]
    ensures sink.us == old(sink.us) + uRows[..][..s.taken] && sink.vs == old(sink.vs) + vRows[..][..s.taken]
    ensures Split(image.yuv, s.from, uRows[..], vRows[..], s.rows)
    ensures KeepsBehind(s.rows, Chroma(old(uRows[..]), old(vRows[..])), Chroma(uRows[..], vRows[..]))
  {
    p := PrepareSp(sink, yuv, p0, uRows, vRows, processLines, image, s);
    TakeSp(sink, yuv, p, uRows, vRows, image, s);
  }

  /** What has reached the compressor before line k: whole rows, and beside them, at the end
      of an image of odd height, one more of each chroma plane. */
  ghost predicate SpReached(image: SpImage, k: nat, t: Taken, last: Chroma) {
    && SpTaken(image, Rows(k, image.width), Rows(k / 2, image.width / 2), t)
    && (k % 2 == 0 ==> last == Chroma([], []))
    && (k % 2 == 1 ==> LastRow(image, last))
  }

  lemma {:induction false} NextSixteen(k: nat, next: nat)
    requires k % 16 == 0 && next % 16 == 0 && k < next <= k + 16
    ensures next == k + 16 && next / 2 - 8 == k / 2
  {
    Sixteens(k);
  }

  lemma {:induction false} RemembersNext(image: SpImage, s: Strip, rows: Chroma)
    requires StripAt(image, s) && Split(image.yuv, s.from, rows.u, rows.v, s.rows)
    ensures s.next % 16 == 0 ==> Remembers(image, s.next, rows)
  {
    if s.next % 16 == 0 {
      NextSixteen(s.k, s.next);
    }
  }

  /** What a turn does to what has been reached. */
  lemma {:induction false} SpReachedNext(image: SpImage, s: Strip, t: Taken, before: Chroma, rows: Chroma)
    returns (t': Taken, last: Chroma)
    requires image.width % 2 == 0 && StripAt(image, s)
    requires SpReached(image, s.k, t, Chroma([], [])) && Remembers(image, s.k, before)
    requires Split(image.yuv, s.from, rows.u, rows.v, s.rows)
    requires KeepsBehind(s.rows, before, rows) && |rows.u| == Rows(8, image.width / 2)
    ensures t'.ys == t.ys + image.yuv[s.luma..s.lumaEnd]
    ensures t'.us + last.u == t.us + rows.u[..s.taken] && t'.vs + last.v == t.vs + rows.v[..s.taken]
    ensures SpReached(image, s.next, t', last)
  {
    t' := Taken(t.ys + image.yuv[s.luma..s.lumaEnd], t.us + rows.u[..s.rows], t.vs + rows.v[..s.rows]);
    last := Chroma(rows.u[s.rows..s.taken], rows.v[s.rows..s.taken]);
    StripLines(image.height, s.k, s.n, s.next);
    LastTaken(image, s, before, rows);
    Regroup(t.us, rows.u, s.rows, s.taken);
    Regroup(t.vs, rows.v, s.rows, s.taken);
    SpTakenNext(image, s, t, rows, t');
  }

  /** What is known between two strips. */
  ghost predicate SpState(image: SpImage, k: nat, t: Taken, last: Chroma, rows: Chroma) {
    SpReached(image, k, t, last) && (k % 16 == 0 ==> Remembers(image, k, rows))
  }

  lemma {:induction false} SpTurn(image: SpImage, s: Strip, t: Taken, before: Chroma, rows: Chroma)
    returns (t': Taken, last: Chroma)
    requires image.width % 2 == 0 && StripAt(image, s) && SpState(image, s.k, t, Chroma([], []), before)
    requires Split(image.yuv, s.from, rows.u, rows.v, s.rows)
    requires KeepsBehind(s.rows, before, rows) && |rows.u| == Rows(8, image.width / 2)
    ensures t'.ys == t.ys + image.yuv[s.luma..s.lumaEnd]
    ensures t'.us + last.u == t.us + rows.u[..s.taken] && t'.vs + last.v == t.vs + rows.v[..s.taken]
    ensures SpState(image, s.next, t', last, rows)
  {
    t', last := SpReachedNext(image, s, t, before, rows);
    RemembersNext(image, s, rows);
  }

  lemma {:induction false} Regroup(s: seq<Byte>, u: seq<Byte>, a: nat, b: nat)
    requires a <= b <= |u|
    ensures s + u[..a] + u[a..b] == s + u[..b]
  {
  }

  /** The sink has taken t, and after it the row of the last line. */
  ghost predicate HasTaken(sink: JpegSink, t: Taken, last: Chroma)
    reads sink`ys, sink`us, sink`vs
  {
    sink.ys == t.ys && sink.us == t.us + last.u && sink.vs == t.vs + last.v
  }

  lemma {:induction false} NothingBehind(s: seq<Byte>)
    ensures s + [] == s
  {
  }

  /** One turn of the loop of Yuv420SpToJpegEncoder::compress. */
  method CompressSpStrip(sink: JpegSink, yuv: array<Byte>, p0: Pointers, uRows: array<Byte>, vRows: array<Byte>,
                         processLines: nat, ghost image: SpImage, ghost s: Strip)
    returns (p: Pointers, ghost t: Taken, ghost last: Chroma)
    requires AtStrip(sink, yuv, uRows, vRows, image, s) && HasPointers(p0) && processLines == s.n
    requires SpState(image, s.k, Taken(sink.ys, sink.us, sink.vs), Chroma([], []), Chroma(uRows[..], vRows[..]))
    modifies sink, uRows, vRows
    ensures HasPointers(p) && yuv[..] == old(yuv[..])
    ensures sink.nextScanline == old(sink.nextScanline) + 16 && sink.nextScanline % 16 == 0
    ensures SpState(image, s.next, t, last, Chroma(uRows[..], vRows[..])) && HasTaken(sink, t, last)
  {
    Sixteens(s.k);
    ghost var before, sofar := Chroma(uRows[..], vRows[..]), Taken(sink.ys, sink.us, sink.vs);
    p := WriteSpStrip(sink, yuv, p0, uRows, vRows, processLines, image, s);
    t, last := SpTurn(image, s, sofar, before, Chroma(uRows[..], vRows[..]));
  }

  /** What the strips deliver in the end. The planes are complete if the height is even; if it
      is odd, each chroma plane ends with a row that is not its own. */
  ghost predicate SpDelivered(image: SpImage, sink: Taken, last: Chroma) {
    var yuv, base, end := image.yuv, image.base, image.base + Rows(image.height / 2, image.width);
    && base <= end <= |yuv| && sink.ys == yuv[..base]
    && sink.us == Evens(yuv[base..end]) + last.u && sink.vs == Odds(yuv[base..end]) + last.v
    && (image.height % 2 == 0 ==> last == Chroma([], []))
    && (image.height % 2 == 1 ==> LastRow(image, last))
  }

  lemma {:induction false} SpAllReached(image: SpImage, t: Taken, last: Chroma)
    requires SpReached(image, image.height, t, last) && image.Valid()
    ensures SpDelivered(image, Taken(t.ys, t.us + last.u, t.vs + last.v), last)
  {
    RowsScale(image.height / 2, image.width / 2, 2);
  }

  /** What is known between two turns of the strip loop, before line `next`. */
  ghost predicate BetweenSp(sink: JpegSink, yuv: array<Byte>, uRows: array<Byte>, vRows: array<Byte>, image: SpImage,
                            next: nat, t: Taken, last: Chroma)
    reads sink, yuv, uRows, vRows
  {
    && yuv[..] == image.yuv && sink.nextScanline % 16 == 0
    && next == sink.Reached()
    && SpState(image, next, t, last, Chroma(uRows[..], vRows[..])) && HasTaken(sink, t, last)
  }

  method NextSpStrip(sink: JpegSink, yuv: array<Byte>, p0: Pointers, uRows: array<Byte>, vRows: array<Byte>,
                     lines: nat, ghost image: SpImage, ghost next: nat, ghost t: Taken, ghost last: Chroma)
    returns (p: Pointers, processLines: nat, ghost next': nat, ghost t': Taken, ghost last': Chroma)
    requires image == SpImage(yuv[..], sink.width, sink.imageHeight, image.base) && image.Valid()
    requires yuv != uRows && yuv != vRows && uRows != vRows && sink.chromaStep == 2
    requires uRows.Length == vRows.Length == Rows(8, sink.width / 2)
    requires HasPointers(p0) && lines == 16 && sink.nextScanline < sink.imageHeight
    requires BetweenSp(sink, yuv, uRows, vRows, image, next, t, last)
    modifies sink, uRows, vRows
    ensures HasPointers(p) && sink.nextScanline == old(sink.nextScanline) + 16
    ensures sink.nextScanline < sink.imageHeight ==> processLines == 16
    ensures BetweenSp(sink, yuv, uRows, vRows, image, next', t', last')
  {
    processLines := lines;
    if sink.nextScanline + DEINTERLEAVE_LINES_ONE_TIME > sink.imageHeight {
      processLines := sink.imageHeight - sink.nextScanline;
    }
    Sixteens(next);
    ghost var s := StripFrom(image, next);
    NothingBehind(t.us);
    NothingBehind(t.vs);
    p, t', last' := CompressSpStrip(sink, yuv, p0, uRows, vRows, processLines, image, s);
    next' := s.next;
  }

  /** The strip loop of Yuv420SpToJpegEncoder::compress. */
  method SpLoop(sink: JpegSink, yuv: array<Byte>, uRows: array<Byte>, vRows: array<Byte>, ghost image: SpImage)
    returns (ghost last: Chroma)
    requires image == SpImage(yuv[..], sink.width, sink.imageHeight, image.base) && image.Valid()
    requires sink.chromaStep == 2 && sink.nextScanline == 0 && sink.ys == sink.us == sink.vs == []
    requires yuv != uRows && yuv != vRows && uRows != vRows
    requires uRows.Length == vRows.Length == Rows(8, sink.width / 2)
    modifies sink, uRows, vRows
    ensures sink.imageHeight <= sink.nextScanline < sink.imageHeight + 16
    ensures SpDelivered(image, Taken(sink.ys, sink.us, sink.vs), last)
  {
    var height := sink.imageHeight;
    var pointers := new nat[16];
    var p := Pointers(pointers[..], pointers[..8], pointers[..8]);
    var processLines := DEINTERLEAVE_LINES_ONE_TIME;
    ghost var next, t := 0, Taken([], [], []);
    last := Chroma([], []);
    while sink.nextScanline < sink.imageHeight
      invariant HasPointers(p) && sink.nextScanline < height + 16
      invariant sink.nextScanline < height ==> processLines == 16
      invariant BetweenSp(sink, yuv, uRows, vRows, image, next, t, last)
      decreases height + 16 - sink.nextScanline
    {
      p, processLines, next, t, last :=
        NextSpStrip(sink, yuv, p, uRows, vRows, processLines, image, next, t, last);
    }
    SpAllReached(image, t, last);
  }

  /** An image of even height can be put together again from what has been delivered. */
  lemma {:induction false} SpLossless(image: SpImage, sink: Taken, last: Chroma)
    requires image.Valid() && SpDelivered(image, sink, last) && image.height % 2 == 0
    ensures |sink.us| == |sink.vs|
    ensures sink.ys + Interleave(sink.us, sink.vs) == image.yuv[..image.base + Rows(image.height / 2, image.width)]
  {
    var base, end := image.base, image.base + Rows(image.height / 2, image.width);
    RowsScale(image.height / 2, image.width / 2, 2);
    NothingBehind(Evens(image.yuv[base..end]));
    NothingBehind(Odds(image.yuv[base..end]));
    InterleaveRestores(image.yuv[base..end]);
    Abut(image.yuv, 0, base, end);
  }

  /** The planes are complete, and only then nothing is added to them, exactly if the height
      is even (or there is no chroma at all). */
  lemma {:induction false} SpCompleteIff(image: SpImage, sink: Taken, last: Chroma)
    requires image.width % 2 == 0 && SpDelivered(image, sink, last)
    ensures var yuv, base, end := image.yuv, image.base, image.base + Rows(image.height / 2, image.width);
      && (sink.us == Evens(yuv[base..end]) <==> image.height % 2 == 0 || image.width == 0)
      && (sink.vs == Odds(yuv[base..end]) <==> image.height % 2 == 0 || image.width == 0)
  {
  }

  /** Yuv420SpToJpegEncoder::compress, for images of any height: the valid rows of all strips
      are the three planes, with one more chroma row after an odd last line. */
  method CompressSp(yuv: array<Byte>, width: nat, height: nat)
    returns (sink: JpegSink, ghost last: Chroma)
    requires width % 2 == 0
    requires Rows(height, width) + Rows(height / 2, width) <= yuv.Length
    ensures height <= sink.nextScanline < height + 16
    ensures SpDelivered(SpImage(yuv[..], width, height, Rows(height, width)), Taken(sink.ys, sink.us, sink.vs), last)
    ensures height % 2 == 0 ==>
      |sink.us| == |sink.vs| &&
      sink.ys + Interleave(sink.us, sink.vs) == yuv[..][..Rows(height, width) + Rows(height / 2, width)]
  {
    sink := new JpegSink(width, height, 2);
    var size := 8 * (width / 2);
    RowsIsProduct(8, width / 2);
    var uRows, vRows := new Byte[size], new Byte[size];
    ghost var image := SpImage(yuv[..], width, height, Rows(height, width));
    last := SpLoop(sink, yuv, uRows, vRows, image);
    if height % 2 == 0 {
      SpLossless(image, Taken(sink.ys, sink.us, sink.vs), last);
    }
  }

  /** The inner loop of the packed deinterleave: one row of Y, U, Y, V quadruples. */
  method SplitQuads(yuv: array<Byte>, src: nat, yRows: array<Byte>, uRows: array<Byte>, vRows: array<Byte>,
                    dstY: nat, dst: nat, half: nat)
    requires yuv != yRows && yuv != uRows && yuv != vRows && yRows != uRows && yRows != vRows && uRows != vRows
    requires src + 4 * half <= yuv.Length && dstY + 2 * half <= yRows.Length
    requires dst + half <= uRows.Length && dst + half <= vRows.Length
    modifies yRows, uRows, vRows
    ensures forall i :: 0 <= i < 2 * half ==> yRows[dstY + i] == yuv[src + 2 * i]
    ensures forall i :: 0 <= i < half ==> uRows[dst + i] == yuv[src + 4 * i + 1]
    ensures forall i :: 0 <= i < half ==> vRows[dst + i] == yuv[src + 4 * i + 3]
    ensures yRows[..dstY] == old(yRows[..dstY])
    ensures uRows[..dst] == old(uRows[..dst]) && vRows[..dst] == old(vRows[..dst])
  {
    for i := 0 to half
      invariant forall j :: 0 <= j < 2 * i ==> yRows[dstY + j] == yuv[src + 2 * j]
      invariant forall j :: 0 <= j < i ==> uRows[dst + j] == yuv[src + 4 * j + 1]
      invariant forall j :: 0 <= j < i ==> vRows[dst + j] == yuv[src + 4 * j + 3]
      invariant yRows[..dstY] == old(yRows[..dstY])
      invariant uRows[..dst] == old(uRows[..dst]) && vRows[..dst] == old(vRows[..dst])
    {
      var seg := src + 4 * i;
      yRows[dstY + 2 * i] := yuv[seg];
      yRows[dstY + 2 * i + 1] := yuv[seg + 2];
      uRows[dst + i] := yuv[seg + 1];
      vRows[dst + i] := yuv[seg + 3];
    }
  }

  /** Three planes hold the packed image s: Y its even bytes, U and V in turn its odd ones. */
  ghost predicate Unpacked(s: seq<Byte>, ys: seq<Byte>, us: seq<Byte>, vs: seq<Byte>) {
    ys == Evens(s) && us == Evens(Odds(s)) && vs == Odds(Odds(s))
  }

  lemma {:induction false} UnpackedPiece(b: seq<Byte>, ys: seq<Byte>, us: seq<Byte>, vs: seq<Byte>)
    requires |b| == 4 * |us| == 4 * |vs| == 2 * |ys|
    requires forall i :: 0 <= i < |ys| ==> ys[i] == b[2 * i]
    requires forall i :: 0 <= i < |us| ==> us[i] == b[4 * i + 1] && vs[i] == b[4 * i + 3]
    ensures Unpacked(b, ys, us, vs)
  {
    forall j | 0 <= j < |ys|
      ensures ys[j] == Evens(b)[j]
    {
      HalvesAt(b, j);
    }
    forall i | 0 <= i < |us|
      ensures us[i] == Evens(Odds(b))[i] && vs[i] == Odds(Odds(b))[i]
    {
      HalvesAt(Odds(b), i);
      HalvesAt(b, 2 * i);
      HalvesAt(b, 2 * i + 1);
    }
  }

  lemma {:induction false} UnpackedAppend(a: seq<Byte>, ya: seq<Byte>, ua: seq<Byte>, va: seq<Byte>, b: seq<Byte>,
                                          yb: seq<Byte>, ub: seq<Byte>, vb: seq<Byte>, n: nat)
    requires Unpacked(a, ya, ua, va) && Unpacked(b, yb, ub, vb) && |a| == 4 * n
    ensures Unpacked(a + b, ya + yb, ua + ub, va + vb)
  {
    HalvesAppend(a, 2 * n, b);
    HalvesAppend(Odds(a), n, Odds(b));
  }

  /** The buffers hold the first m quadruples from `src` on. */
  ghost predicate PackedSplit(yuv: seq<Byte>, src: nat, yRows: seq<Byte>, uRows: seq<Byte>, vRows: seq<Byte>, m: nat) {
    && src + 4 * m <= |yuv| && 2 * m <= |yRows| && m <= |uRows| && m <= |vRows|
    && Unpacked(yuv[src..src + 4 * m], yRows[..2 * m], uRows[..m], vRows[..m])
  }

  lemma {:induction false} PackedPiece(yuv: seq<Byte>, src: nat, yNext: seq<Byte>, uNext: seq<Byte>,
                                       vNext: seq<Byte>, m: nat, m': nat)
    requires m <= m' && src + 4 * (m' - m) <= |yuv| && 2 * m' <= |yNext| && m' <= |uNext| && m' <= |vNext|
    requires forall i :: 0 <= i < 2 * (m' - m) ==> yNext[2 * m + i] == yuv[src + 2 * i]
    requires forall i :: 0 <= i < m' - m ==> uNext[m + i] == yuv[src + 4 * i + 1]
    requires forall i :: 0 <= i < m' - m ==> vNext[m + i] == yuv[src + 4 * i + 3]
    ensures Unpacked(yuv[src..src + 4 * (m' - m)], yNext[2 * m..2 * m'], uNext[m..m'], vNext[m..m'])
  {
    UnpackedPiece(yuv[src..src + 4 * (m' - m)], yNext[2 * m..2 * m'], uNext[m..m'], vNext[m..m']);
  }

  /** The same row, said of the planes. */
  method UnpackQuads(yuv: array<Byte>, src: nat, yRows: array<Byte>, uRows: array<Byte>, vRows: array<Byte>,
                     dstY: nat, dst: nat, half: nat, ghost m: nat, ghost m': nat)
    requires yuv != yRows && yuv != uRows && yuv != vRows && yRows != uRows && yRows != vRows && uRows != vRows
    requires src + 4 * half <= yuv.Length && 2 * m' <= yRows.Length && m' <= uRows.Length && m' <= vRows.Length
    requires dstY == 2 * m && dst == m && m' == m + half
    modifies yRows, uRows, vRows
    ensures Unpacked(yuv[..][src..src + 4 * half], yRows[..][2 * m..2 * m'], uRows[..][m..m'], vRows[..][m..m'])
    ensures yRows[..][..2 * m] == old(yRows[..])[..2 * m]
    ensures uRows[..][..m] == old(uRows[..])[..m] && vRows[..][..m] == old(vRows[..])[..m]
  {
    SplitQuads(yuv, src, yRows, uRows, vRows, dstY, dst, half);
    PackedPiece(yuv[..], src, yRows[..], uRows[..], vRows[..], m, m');
  }

  lemma {:induction false} PackedJoin(yuv: seq<Byte>, src: nat, mid: nat, yRows: seq<Byte>, uRows: seq<Byte>,
                                      vRows: seq<Byte>, m: nat, yNext: seq<Byte>, uNext: seq<Byte>,
                                      vNext: seq<Byte>, m': nat, end: nat)
    requires PackedSplit(yuv, src, yRows, uRows, vRows, m) && m <= m' && mid == src + 4 * m && end == src + 4 * m'
    requires end <= |yuv| && 2 * m' <= |yNext| && m' <= |uNext| && m' <= |vNext|
    requires yNext[..2 * m] == yRows[..2 * m] && uNext[..m] == uRows[..m] && vNext[..m] == vRows[..m]
    requires Unpacked(yuv[mid..end], yNext[2 * m..2 * m'], uNext[m..m'], vNext[m..m'])
    ensures PackedSplit(yuv, src, yNext, uNext, vNext, m')
  {
    UnpackedAppend(yuv[src..mid], yNext[..2 * m], uNext[..m], vNext[..m],
                   yuv[mid..end], yNext[2 * m..2 * m'], uNext[m..m'], vNext[m..m'], m);
    Abut(yuv, src, mid, end);
    Abut(yNext, 0, 2 * m, 2 * m');
    Abut(uNext, 0, m, m');
    Abut(vNext, 0, m, m');
  }

  method UnpackRow(yuv: array<Byte>, src: nat, yRows: array<Byte>, uRows: array<Byte>, vRows: array<Byte>,
                   dstY: nat, dst: nat, half: nat, ghost from: nat, ghost m: nat, ghost m': nat)
    requires yuv != yRows && yuv != uRows && yuv != vRows && yRows != uRows && yRows != vRows && uRows != vRows
    requires src + 4 * half <= yuv.Length && dstY + 2 * half <= yRows.Length
    requires dst + half <= uRows.Length && dst + half <= vRows.Length
    requires src == from + 4 * m && dstY == 2 * m && dst == m && m' == m + half
    requires PackedSplit(yuv[..], from, yRows[..], uRows[..], vRows[..], m)
    modifies yRows, uRows, vRows
    ensures PackedSplit(yuv[..], from, yRows[..], uRows[..], vRows[..], m')
  {
    UnpackQuads(yuv, src, yRows, uRows, vRows, dstY, dst, half, m, m');
    PackedJoin(yuv[..], from, src, old(yRows[..]), old(uRows[..]), old(vRows[..]), m,
               yRows[..], uRows[..], vRows[..], m', src + 4 * half);
  }

  /** Row `row` of a packed strip that starts at line `first`: where the loops find it. */
  lemma {:induction false} PackedPlaces(first: nat, row: nat, width: nat, from: nat, done: nat, src: nat, dstY: nat,
                                        dst: nat)
    requires width % 2 == 0 && from == 4 * Rows(first, width / 2) && done == Rows(row, width / 2)
    requires src == (first + row) * width * 2 && dstY == row * width && dst == row * (width / 2)
    ensures src == from + 4 * done && dstY == 2 * done && dst == done
  {
    RowsIsProduct(first + row, width);
    RowsIsProduct(row, width);
    RowsIsProduct(row, width / 2);
    RowsAppend(first, row, width);
    RowsScale(first, width / 2, 2);
    RowsScale(row, width / 2, 2);
  }

  /** One turn of the loop of Yuv422IToJpegEncoder::deinterleave. */
  method UnpackLine(yuv: array<Byte>, yRows: array<Byte>, uRows: array<Byte>, vRows: array<Byte>, rowIndex: nat,
                    row: nat, width: nat, ghost from: nat, ghost done: nat, ghost done': nat)
    requires yuv != yRows && yuv != uRows && yuv != vRows && yRows != uRows && yRows != vRows && uRows != vRows
    requires width % 2 == 0 && from == 4 * Rows(rowIndex, width / 2) && done == Rows(row, width / 2)
    requires done' == done + width / 2 && from + 4 * done' <= yuv.Length
    requires 2 * done' <= yRows.Length && done' <= uRows.Length && done' <= vRows.Length
    requires PackedSplit(yuv[..], from, yRows[..], uRows[..], vRows[..], done)
    modifies yRows, uRows, vRows
    ensures PackedSplit(yuv[..], from, yRows[..], uRows[..], vRows[..], done')
  {
    var src, dstY, dst := (rowIndex + row) * width * 2, row * width, row * (width / 2);
    PackedPlaces(rowIndex, row, width, from, done, src, dstY, dst);
    UnpackRow(yuv, src, yRows, uRows, vRows, dstY, dst, width / 2, from, done, done');
  }

  /** Yuv422IToJpegEncoder::deinterleave, and the same body in Yuv422SpToJpegEncoder. */
  method DeinterleavePacked(yuv: array<Byte>, yRows: array<Byte>, uRows: array<Byte>, vRows: array<Byte>,
                            rowIndex: nat, width: nat, processLines: nat, ghost from: nat, ghost m: nat)
    requires yuv != yRows && yuv != uRows && yuv != vRows && yRows != uRows && yRows != vRows && uRows != vRows
    requires width % 2 == 0 && from == 4 * Rows(rowIndex, width / 2) && m == Rows(processLines, width / 2)
    requires from + 4 * m <= yuv.Length
    requires 2 * m <= yRows.Length && m <= uRows.Length && m <= vRows.Length
    modifies yRows, uRows, vRows
    ensures PackedSplit(yuv[..], from, yRows[..], uRows[..], vRows[..], m)
  {
    ghost var done := 0;
    for row := 0 to processLines
      invariant done == Rows(row, width / 2) && PackedSplit(yuv[..], from, yRows[..], uRows[..], vRows[..], done)
    {
      ghost var done' := Rows(row + 1, width / 2);
      RowsWithin(row + 1, processLines, width / 2);
      UnpackLine(yuv, yRows, uRows, vRows, rowIndex, row, width, from, done, done');
      done := done';
    }
  }

  /** The loop of Yuv422IToJpegEncoder::compress that sets the row pointers of a strip. */
  method PointPacked(y0: seq<nat>, cb0: seq<nat>, cr0: seq<nat>, processLines: nat, width: nat)
    returns (y: seq<nat>, cb: seq<nat>, cr: seq<nat>)
    requires processLines <= |y0| == |cb0| == |cr0|
    ensures |y| == |y0| && |cb| == |cb0| && |cr| == |cr0|
    ensures Consecutive(y, processLines, 0, width)
    ensures Consecutive(cb, processLines, 0, width / 2) && Consecutive(cr, processLines, 0, width / 2)
  {
    y, cb, cr := y0, cb0, cr0;
    for i := 0 to processLines
      invariant |y| == |y0| && |cb| == |cb0| && |cr| == |cr0|
      invariant Consecutive(y, i, 0, width)
      invariant Consecutive(cb, i, 0, width / 2) && Consecutive(cr, i, 0, width / 2)
    {
      RowsIsProduct(i, width);
      RowsIsProduct(i, width / 2);
      y := y[i := i * width];
      var offset := i * (width / 2);
      cb := cb[i := offset];
      cr := cr[i := offset];
    }
  }

  lemma {:induction false} PackedGathered(width: nat, n: nat, m: nat, y: seq<nat>, cb: seq<nat>, cr: seq<nat>,
                                          yRows: seq<Byte>, uRows: seq<Byte>, vRows: seq<Byte>)
    requires width % 2 == 0 && m == Rows(n, width / 2) && 2 * m <= |yRows| && m <= |uRows| && m <= |vRows|
    requires Consecutive(y, n, 0, width) && Consecutive(cb, n, 0, width / 2) && Consecutive(cr, n, 0, width / 2)
    ensures forall i :: 0 <= i < n ==> y[i] + width <= |yRows|
    ensures forall i :: 0 <= i < n ==> cb[i] + width / 2 <= |uRows|
    ensures forall i :: 0 <= i < n ==> cr[i] + width / 2 <= |vRows|
    ensures Gather(yRows, y, n, width) == yRows[..2 * m]
    ensures Gather(uRows, cb, n, width / 2) == uRows[..m] && Gather(vRows, cr, n, width / 2) == vRows[..m]
  {
    RowsScale(n, width / 2, 2);
    GatherConsecutive(yRows, y, n, 0, width);
    GatherConsecutive(uRows, cb, n, 0, width / 2);
    GatherConsecutive(vRows, cr, n, 0, width / 2);
  }

  /** Taking a strip of m quadruples. */
  method TakePacked(sink: JpegSink, yRows: array<Byte>, y: seq<nat>, uRows: array<Byte>, cb: seq<nat>,
                    vRows: array<Byte>, cr: seq<nat>, ghost m: nat)
    requires sink.chromaStep == 1 && sink.width % 2 == 0 && m == Rows(sink.Lines(), sink.width / 2)
    requires Consecutive(y, sink.Lines(), 0, sink.width) && Consecutive(cb, sink.Lines(), 0, sink.width / 2)
    requires Consecutive(cr, sink.Lines(), 0, sink.width / 2)
    requires 2 * m <= yRows.Length && m <= uRows.Length && m <= vRows.Length
    modifies sink
    ensures sink.nextScanline == old(sink.nextScanline) + 16
    ensures sink.ys == old(sink.ys) + yRows[..][..2 * m]
    ensures sink.us == old(sink.us) + uRows[..][..m] && sink.vs == old(sink.vs) + vRows[..][..m]
  {
    ghost var n := sink.Lines();
    assert sink.ChromaLines() == n;
    PackedGathered(sink.width, n, m, y, cb, cr, yRows[..], uRows[..], vRows[..]);
    sink.WriteRawData(yRows, y, uRows, cb, vRows, cr);
  }

  lemma {:induction false} PackedTakenNext(yuv: seq<Byte>, done: nat, done': nat, from: nat, ys: seq<Byte>,
                                           us: seq<Byte>, vs: seq<Byte>, m: nat, yRows: seq<Byte>, uRows: seq<Byte>,
                                           vRows: seq<Byte>, ys': seq<Byte>, us': seq<Byte>, vs': seq<Byte>)
    requires from == 4 * done <= |yuv| && Unpacked(yuv[..4 * done], ys, us, vs) && done' == done + m
    requires PackedSplit(yuv, from, yRows, uRows, vRows, m)
    requires ys' == ys + yRows[..2 * m] && us' == us + uRows[..m] && vs' == vs + vRows[..m]
    ensures 4 * done' <= |yuv| && Unpacked(yuv[..4 * done'], ys', us', vs')
  {
    UnpackedAppend(yuv[..4 * done], ys, us, vs, yuv[from..from + 4 * m], yRows[..2 * m], uRows[..m], vRows[..m], done);
    Abut(yuv, 0, from, 4 * done');
  }

  /** One turn of the loop of Yuv422IToJpegEncoder::compress. */
  method CompressPackedStrip(sink: JpegSink, yuv: array<Byte>, yRows: array<Byte>, y0: seq<nat>, uRows: array<Byte>,
                             cb0: seq<nat>, vRows: array<Byte>, cr0: seq<nat>, processLines: nat, ghost done: nat)
    returns (y: seq<nat>, cb: seq<nat>, cr: seq<nat>, ghost done': nat)
    requires |y0| == |cb0| == |cr0| == 16 && processLines == sink.Lines()
    requires yuv != yRows && yuv != uRows && yuv != vRows && yRows != uRows && yRows != vRows && uRows != vRows
    requires sink.chromaStep == 1 && sink.width % 2 == 0 && sink.nextScanline < sink.imageHeight
    requires done == Rows(sink.nextScanline, sink.width / 2)
    requires yuv.Length == 4 * Rows(sink.imageHeight, sink.width / 2)
    requires yRows.Length == 2 * Rows(16, sink.width / 2)
    requires uRows.Length == vRows.Length == Rows(16, sink.width / 2)
    requires 4 * done <= yuv.Length && Unpacked(yuv[..][..4 * done], sink.ys, sink.us, sink.vs)
    modifies sink, yRows, uRows, vRows
    ensures |y| == |cb| == |cr| == 16
    ensures sink.nextScanline == old(sink.nextScanline) + 16
    ensures done' == Rows(sink.Reached(), sink.width / 2)
    ensures 4 * done' <= yuv.Length && Unpacked(yuv[..][..4 * done'], sink.ys, sink.us, sink.vs)
  {
    var width, height, scanline := sink.width, sink.imageHeight, sink.nextScanline;
    ghost var image, from, m := yuv[..], 4 * done, Rows(processLines, width / 2);
    ghost var end := if sink.nextScanline + 16 < height then sink.nextScanline + 16 else height;
    done' := Rows(end, width / 2);
    RowsAppend(scanline, processLines, width / 2);
    RowsWithin(end, height, width / 2);
    RowsWithin(processLines, 16, width / 2);
    DeinterleavePacked(yuv, yRows, uRows, vRows, scanline, width, processLines, from, m);
    assert yuv[..] == image;
    y, cb, cr := PointPacked(y0, cb0, cr0, processLines, width);
    TakePacked(sink, yRows, y, uRows, cb, vRows, cr, m);
    PackedTakenNext(image, done, done', from, old(sink.ys), old(sink.us), old(sink.vs), m,
                    yRows[..], uRows[..], vRows[..], sink.ys, sink.us, sink.vs);
  }

  lemma {:induction false} Restored(s: seq<Byte>, even: seq<Byte>, odd: seq<Byte>)
    requires |s| % 2 == 0 && even == Evens(s) && odd == Odds(s)
    ensures |even| == |odd| == |s| / 2 && Interleave(even, odd) == s
  {
    InterleaveRestores(s);
  }

  /** The planes, interleaved again, are the image. */
  ghost predicate Repacks(yuv: seq<Byte>, ys: seq<Byte>, us: seq<Byte>, vs: seq<Byte>) {
    |us| == |vs| && |ys| == 2 * |us| && Interleave(ys, Interleave(us, vs)) == yuv
  }

  lemma {:induction false} PackedLossless(yuv: seq<Byte>, ys: seq<Byte>, us: seq<Byte>, vs: seq<Byte>)
    requires |yuv| % 4 == 0 && Unpacked(yuv, ys, us, vs)
    ensures Repacks(yuv, ys, us, vs)
  {
    Restored(Odds(yuv), us, vs);
    Restored(yuv, ys, Interleave(us, vs));
  }

  /** The strip loop of Yuv422IToJpegEncoder::compress. */
  method PackedLoop(sink: JpegSink, yuv: array<Byte>, yRows: array<Byte>, uRows: array<Byte>, vRows: array<Byte>)
    requires sink.width % 2 == 0 && sink.chromaStep == 1
    requires sink.nextScanline == 0 && sink.ys == sink.us == sink.vs == []
    requires yuv != yRows && yuv != uRows && yuv != vRows && yRows != uRows && yRows != vRows && uRows != vRows
    requires yuv.Length == 4 * Rows(sink.imageHeight, sink.width / 2)
    requires yRows.Length == 2 * Rows(16, sink.width / 2)
    requires uRows.Length == vRows.Length == Rows(16, sink.width / 2)
    modifies sink, yRows, uRows, vRows
    ensures sink.imageHeight <= sink.nextScanline < sink.imageHeight + 16
    ensures Unpacked(yuv[..], sink.ys, sink.us, sink.vs) && Repacks(yuv[..], sink.ys, sink.us, sink.vs)
  {
    var pointers := new nat[16];
    var y, cb, cr := pointers[..], pointers[..], pointers[..];
    var processLines := DEINTERLEAVE_LINES_ONE_TIME;
    ghost var image, done := yuv[..], 0;
    while sink.nextScanline < sink.imageHeight
      invariant |y| == |cb| == |cr| == 16 && sink.nextScanline < sink.imageHeight + 16
      invariant sink.nextScanline < sink.imageHeight ==> processLines == 16
      invariant done == Rows(sink.Reached(), sink.width / 2)
      invariant yuv[..] == image && 4 * done <= |image| && Unpacked(image[..4 * done], sink.ys, sink.us, sink.vs)
      decreases sink.imageHeight + 16 - sink.nextScanline
    {
      if sink.nextScanline + DEINTERLEAVE_LINES_ONE_TIME > sink.imageHeight {
        processLines := sink.imageHeight - sink.nextScanline;
      }
      y, cb, cr, done := CompressPackedStrip(sink, yuv, yRows, y, uRows, cb, vRows, cr, processLines, done);
    }
    assert image[..4 * done] == image;
    PackedLossless(image, sink.ys, sink.us, sink.vs);
  }

  /** Yuv422IToJpegEncoder::compress, for images of any height. */
  method CompressPacked(yuv: array<Byte>, width: nat, height: nat) returns (sink: JpegSink)
    requires width % 2 == 0 && yuv.Length == 2 * Rows(height, width)
    ensures height <= sink.nextScanline < height + 16
    ensures Unpacked(yuv[..], sink.ys, sink.us, sink.vs)
    ensures Repacks(yuv[..], sink.ys, sink.us, sink.vs)
  {
    sink := new JpegSink(width, height, 1);
    var size := 16 * (width / 2);
    assert size == Rows(16, width / 2) && yuv.Length == 4 * Rows(height, width / 2) by {
      RowsIsProduct(16, width / 2);
      RowsScale(height, width / 2, 2);
    }
    var yRows, uRows, vRows := new Byte[16 * width], new Byte[size], new Byte[size];
    PackedLoop(sink, yuv, yRows, uRows, vRows);
  }
}
