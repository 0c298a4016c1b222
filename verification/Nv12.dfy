/** The word-packed YUYV to NV12 conversion. Both buffers are accessed as 32-bit words, so
    the model's arrays hold words; byte k of a word is its k-th byte in memory
    (little-endian). */
module Nv12 {

  import opened Planes

  type Word = bv32

  function ByteOf(w: Word, k: nat): Word
    requires k < 4
  {
    match k
    case 0 => w & 0xff
    case 1 => (w >> 8) & 0xff
    case 2 => (w >> 16) & 0xff
    case _ => (w >> 24) & 0xff
  }

  /** Byte x of a buffer of words. */
  function ByteAt(ws: seq<Word>, x: nat): Word
    requires x / 4 < |ws|
  {
    ByteOf(ws[x / 4], x % 4)
  }

  /** The luma word that the loop packs from two source words. */
  function PackY(value: Word, value2: Word): Word {
    ((value & 0x000000ff) >> 0) | ((value & 0x00ff0000) >> 8) |
    ((value2 & 0x000000ff) << 16) | ((value2 & 0x00ff0000) << 8)
  }

  /** The chroma word, in the default branch of the source. */
  function PackUV(value: Word, value2: Word): Word {
    ((value & 0x0000ff00) >> 8) | ((value & 0xff000000) >> 16) |
    ((value2 & 0x0000ff00) << 8) | ((value2 & 0xff000000) << 0)
  }

  lemma {:induction false} PackYBytes(v: Word, v2: Word)
    ensures ByteOf(PackY(v, v2), 0) == ByteOf(v, 0)
    ensures ByteOf(PackY(v, v2), 1) == ByteOf(v, 2)
    ensures ByteOf(PackY(v, v2), 2) == ByteOf(v2, 0)
    ensures ByteOf(PackY(v, v2), 3) == ByteOf(v2, 2)
  {
  }

  lemma {:induction false} PackUVBytes(v: Word, v2: Word)
    ensures ByteOf(PackUV(v, v2), 0) == ByteOf(v, 1)
    ensures ByteOf(PackUV(v, v2), 1) == ByteOf(v, 3)
    ensures ByteOf(PackUV(v, v2), 2) == ByteOf(v2, 1)
    ensures ByteOf(PackUV(v, v2), 3) == ByteOf(v2, 3)
  {
  }

  /** The luma words of n pairs of source words, from word `src` on. */
  function YRow(input: seq<Word>, src: nat, n: nat): (r: seq<Word>)
    requires src + 2 * n <= |input|
    ensures |r| == n
  {
    seq(n, i requires 0 <= i < n => PackY(input[src + 2 * i], input[src + 2 * i + 1]))
  }

  function UVRow(input: seq<Word>, src: nat, n: nat): (r: seq<Word>)
    requires src + 2 * n <= |input|
    ensures |r| == n
  {
    seq(n, i requires 0 <= i < n => PackUV(input[src + 2 * i], input[src + 2 * i + 1]))
  }

  /** Only n words from yDst on and n words from uvDst on may differ. */
  ghost predicate KeptBut(before: seq<Word>, after: seq<Word>, yDst: nat, uvDst: nat, n: nat) {
    && |after| == |before|
    && forall i :: 0 <= i < |before| && !(yDst <= i < yDst + n) && !(uvDst <= i < uvDst + n) ==> after[i] == before[i]
  }

  /** The inner loop of an even line, which packs luma and chroma. */
  method ConvertEvenLine(input: array<Word>, output: array<Word>, src: nat, yDst: nat, uvDst: nat, n: nat)
    requires input != output && src + 2 * n <= input.Length
    requires yDst + n <= uvDst && uvDst + n <= output.Length
    modifies output
    ensures output[..][yDst..yDst + n] == YRow(input[..], src, n)
    ensures output[..][uvDst..uvDst + n] == UVRow(input[..], src, n)
    ensures KeptBut(old(output[..]), output[..], yDst, uvDst, n)
  {
    ghost var ys, uvs := YRow(input[..], src, n), UVRow(input[..], src, n);
    for w := 0 to n
      invariant forall i :: 0 <= i < w ==> output[yDst + i] == ys[i]
      invariant forall i :: 0 <= i < w ==> output[uvDst + i] == uvs[i]
      invariant forall i :: 0 <= i < output.Length && !(yDst <= i < yDst + n) && !(uvDst <= i < uvDst + n) ==>
        output[i] == old(output[i])
    {
      var value := input[src + 2 * w];
      var value2 := input[src + 2 * w + 1];
      output[yDst + w] := PackY(value, value2);
      output[uvDst + w] := PackUV(value, value2);
    }
  }

  /** The inner loop of an odd line, which packs luma only. */
  method ConvertOddLine(input: array<Word>, output: array<Word>, src: nat, yDst: nat, n: nat)
    requires input != output && src + 2 * n <= input.Length && yDst + n <= output.Length
    modifies output
    ensures output[..][yDst..yDst + n] == YRow(input[..], src, n)
    ensures KeptBut(old(output[..]), output[..], yDst, yDst, n)
  {
    ghost var ys := YRow(input[..], src, n);
    for w := 0 to n
      invariant forall i :: 0 <= i < w ==> output[yDst + i] == ys[i]
      invariant forall i :: 0 <= i < output.Length && !(yDst <= i < yDst + n) ==> output[i] == old(output[i])
    {
      var value := input[src + 2 * w];
      var value2 := input[src + 2 * w + 1];
      output[yDst + w] := PackY(value, value2);
    }
  }

  /** The words of one line, and of half the gap after it, in each buffer. */
  datatype Layout = Layout(height: nat, words: nat, half: nat, odd: bool)
  {
    function Gap(): nat {
      2 * half + if odd then 1 else 0
    }

    /** From one destination line to the next. */
    function Pitch(): nat {
      words + Gap()
    }

    /** The strides of the two buffers in bytes. */
    predicate Of(srcStride: nat, dstStride: nat) {
      srcStride == 4 * words && dstStride == 4 * Pitch()
    }

    /** What the chroma pointer gains over two lines. */
    function ChromaPitch(): nat {
      words + 2 * half
    }

    function Source(h: nat): nat {
      Rows(h, 2 * words)
    }

    function Luma(h: nat): nat {
      Rows(h, Pitch())
    }

    function Chroma(k: nat): nat {
      Rows(height, Pitch()) + Rows(k, ChromaPitch())
    }

    function ChromaLines(): nat {
      (height + 1) / 2
    }
  }

  /** Lines 0 .. h - 1 are converted: their luma, and the chroma of the even ones. */
  ghost predicate Converted(l: Layout, input: seq<Word>, output: seq<Word>, h: nat) {
    && h <= l.height && l.Source(l.height) <= |input| && l.Chroma(l.ChromaLines()) <= |output|
    && (forall r: nat :: r < h ==> LumaLine(l, input, output, r))
    && (forall k: nat :: 2 * k < h ==> ChromaLine(l, input, output, k))
  }

  ghost predicate LumaLine(l: Layout, input: seq<Word>, output: seq<Word>, r: nat) {
    && l.Source(r) + 2 * l.words <= |input| && l.Luma(r) + l.words <= |output|
    && output[l.Luma(r)..l.Luma(r) + l.words] == YRow(input, l.Source(r), l.words)
  }

  ghost predicate ChromaLine(l: Layout, input: seq<Word>, output: seq<Word>, k: nat) {
    && l.Source(2 * k) + 2 * l.words <= |input| && l.Chroma(k) + l.words <= |output|
    && output[l.Chroma(k)..l.Chroma(k) + l.words] == UVRow(input, l.Source(2 * k), l.words)
  }

  /** A line that lies outside what a step writes stays as it is. */
  lemma {:induction false} LumaLineKept(l: Layout, input: seq<Word>, before: seq<Word>, after: seq<Word>, r: nat)
    requires LumaLine(l, input, before, r) && |after| == |before|
    requires forall i :: l.Luma(r) <= i < l.Luma(r) + l.words ==> after[i] == before[i]
    ensures LumaLine(l, input, after, r)
  {
    assert after[l.Luma(r)..l.Luma(r) + l.words] == before[l.Luma(r)..l.Luma(r) + l.words];
  }

  lemma {:induction false} ChromaLineKept(l: Layout, input: seq<Word>, before: seq<Word>, after: seq<Word>, k: nat)
    requires ChromaLine(l, input, before, k) && |after| == |before|
    requires forall i :: l.Chroma(k) <= i < l.Chroma(k) + l.words ==> after[i] == before[i]
    ensures ChromaLine(l, input, after, k)
  {
    assert after[l.Chroma(k)..l.Chroma(k) + l.words] == before[l.Chroma(k)..l.Chroma(k) + l.words];
  }

  /** Whether line h of the source may change word i of the destination. */
  predicate Touches(l: Layout, h: nat, i: int) {
    || l.Luma(h) <= i < l.Luma(h) + l.words
    || (h % 2 == 0 && l.Chroma(h / 2) <= i < l.Chroma(h / 2) + l.words)
  }

  ghost predicate WritesLine(l: Layout, h: nat, before: seq<Word>, after: seq<Word>) {
    |after| == |before| && forall i :: 0 <= i < |before| && !Touches(l, h, i) ==> after[i] == before[i]
  }

  /** Line h does not write on the luma of an earlier line. */
  lemma {:induction false} LumaApart(l: Layout, h: nat, r: nat, i: int)
    requires r < h < l.height && l.Luma(r) <= i < l.Luma(r) + l.words
    ensures !Touches(l, h, i)
  {
    RowsApart(r, h, l.Pitch());
    RowsApart(r, l.height, l.Pitch());
  }

  /** Nor on the chroma of an earlier line. */
  lemma {:induction false} ChromaApart(l: Layout, h: nat, k: nat, i: int)
    requires 2 * k < h < l.height && l.Chroma(k) <= i < l.Chroma(k) + l.words
    ensures !Touches(l, h, i)
  {
    RowsApart(h, l.height, l.Pitch());
    if h % 2 == 0 {
      RowsApart(k, h / 2, l.ChromaPitch());
    }
  }

  lemma {:induction false} ConvertedNext(l: Layout, input: seq<Word>, before: seq<Word>, after: seq<Word>, h: nat)
    requires h < l.height && Converted(l, input, before, h) && WritesLine(l, h, before, after)
    requires LumaLine(l, input, after, h)
    requires h % 2 == 0 ==> ChromaLine(l, input, after, h / 2)
    ensures Converted(l, input, after, h + 1)
  {
    forall r: nat | r < h
      ensures LumaLine(l, input, after, r)
    {
      assert LumaLine(l, input, before, r);
      forall i | l.Luma(r) <= i < l.Luma(r) + l.words
        ensures after[i] == before[i]
      {
        LumaApart(l, h, r, i);
      }
      LumaLineKept(l, input, before, after, r);
    }
    forall k: nat | 2 * k < h
      ensures ChromaLine(l, input, after, k)
    {
      assert ChromaLine(l, input, before, k);
      forall i | l.Chroma(k) <= i < l.Chroma(k) + l.words
        ensures after[i] == before[i]
      {
        ChromaApart(l, h, k, i);
      }
      ChromaLineKept(l, input, before, after, k);
    }
  }

  /** Where the chroma pointer stands before line h: it gains a row on even lines and half
      the gap, rounded down, on every line. */
  function ChromaPointer(l: Layout, h: nat): nat {
    Rows(l.height, l.Pitch()) + Rows((h + 1) / 2, l.words) + Rows(h, l.half)
  }

  lemma {:induction false} ChromaRows(k: nat, words: nat, half: nat)
    ensures Rows(k, words) + Rows(2 * k, half) == Rows(k, words + 2 * half)
  {
    if k != 0 {
      ChromaRows(k - 1, words, half);
      assert Rows(2 * k, half) == Rows(2 * k - 1, half) + half == Rows(2 * (k - 1), half) + half + half;
    }
  }

  lemma {:induction false} ChromaPointerOnEvenLine(l: Layout, h: nat)
    requires h % 2 == 0
    ensures ChromaPointer(l, h) == l.Chroma(h / 2)
  {
    ChromaRows(h / 2, l.words, l.half);
  }

  lemma {:induction false} ChromaPointerNext(l: Layout, h: nat)
    ensures ChromaPointer(l, h + 1) == ChromaPointer(l, h) + (if h % 2 == 0 then l.words else 0) + l.half
  {
    if h % 2 == 0 {
      assert (h + 2) / 2 == (h + 1) / 2 + 1;
    }
  }

  lemma {:induction false} RoomForLine(l: Layout, h: nat)
    requires h < l.height
    ensures l.Source(h) + 2 * l.words == l.Source(h + 1) <= l.Source(l.height)
    ensures l.Luma(h) + l.Pitch() == l.Luma(h + 1) <= l.Luma(l.height) <= l.Chroma(h / 2)
    ensures l.Chroma(h / 2) + l.words <= l.Chroma(l.ChromaLines())
  {
    RowsApart(h, l.height, 2 * l.words);
    RowsApart(h, l.height, l.Pitch());
    RowsApart(h / 2, l.ChromaLines(), l.ChromaPitch());
  }

  /** There is a layout for any strides that are whole words, the destination's the larger one. */
  lemma {:induction false} LayoutOf(height: nat, srcStride: nat, dstStride: nat) returns (l: Layout)
    requires srcStride % 4 == 0 && dstStride % 4 == 0 && srcStride <= dstStride
    ensures l.height == height && l.Of(srcStride, dstStride)
  {
    var words, gap := srcStride / 4, dstStride / 4 - srcStride / 4;
    l := Layout(height, words, gap / 2, gap % 2 == 1);
    assert l.Gap() == gap;
  }

  /** No line before h writes word i: it is padding, or lies behind the planes. */
  ghost predicate Untouched(l: Layout, h: nat, i: int) {
    forall r: nat :: r < h ==> !Touches(l, r, i)
  }

  /** What the loop of line h has written completes the line; `uvDst` is `yDst` if it writes
      no chroma. */
  lemma {:induction false} LineConverted(l: Layout, input: seq<Word>, before: seq<Word>, after: seq<Word>, h: nat,
                                         src: nat, yDst: nat, uvDst: nat, n: nat)
    requires h < l.height && Converted(l, input, before, h) && KeptBut(before, after, yDst, uvDst, n)
    requires n == l.words && src == l.Source(h) && yDst == l.Luma(h)
    requires uvDst == if h % 2 == 0 then l.Chroma(h / 2) else yDst
    requires src + 2 * n <= |input| && yDst + n <= |after| && uvDst + n <= |after|
    requires after[yDst..yDst + n] == YRow(input, src, n)
    requires h % 2 == 0 ==> after[uvDst..uvDst + n] == UVRow(input, src, n)
    ensures Converted(l, input, after, h + 1) && WritesLine(l, h, before, after)
  {
    ConvertedNext(l, input, before, after, h);
  }

  /** Word i belongs to a line of luma, or to one of chroma, by the numbers of the layout. */
  ghost predicate OnLuma(l: Layout, r: nat, i: int) {
    Rows(r, l.words + 2 * l.half + if l.odd then 1 else 0) <= i
      < Rows(r, l.words + 2 * l.half + if l.odd then 1 else 0) + l.words
  }

  ghost predicate OnChroma(l: Layout, k: nat, i: int) {
    var luma := Rows(l.height, l.words + 2 * l.half + if l.odd then 1 else 0);
    luma + Rows(k, l.words + 2 * l.half) <= i < luma + Rows(k, l.words + 2 * l.half) + l.words
  }

  /** The words that no line writes are those between the end of a line and the next one, and
      those behind the chroma lines. */
  lemma {:induction false} UntouchedIff(l: Layout, i: int)
    ensures Untouched(l, l.height, i) <==>
      && (forall r: nat :: r < l.height ==> !OnLuma(l, r, i))
      && (forall k: nat :: 2 * k < l.height ==> !OnChroma(l, k, i))
  {
    if Untouched(l, l.height, i) {
      forall k: nat | 2 * k < l.height
        ensures !OnChroma(l, k, i)
      {
        assert !Touches(l, 2 * k, i);
      }
      forall r: nat | r < l.height
        ensures !OnLuma(l, r, i)
      {
        assert !Touches(l, r, i);
      }
    } else {
      var r: nat :| r < l.height && Touches(l, r, i);
      assert OnLuma(l, r, i) || (r % 2 == 0 && OnChroma(l, r / 2, i));
    }
  }

  /** One turn of the outer loop, at the places that belong to line h. */
  method ConvertLine(input: array<Word>, output: array<Word>, ghost l: Layout, h: nat, pYSrc: nat, pYDst: nat,
                     pUVDst: nat, nWidthDiv4: nat) returns (pUVNext: nat)
    requires h < l.height && input != output && nWidthDiv4 == l.words
    requires pYSrc == l.Source(h) && pYDst == l.Luma(h) && pUVDst == ChromaPointer(l, h)
    requires Converted(l, input[..], output[..], h)
    modifies output
    ensures Converted(l, input[..], output[..], h + 1)
    ensures WritesLine(l, h, old(output[..]), output[..])
    ensures pUVNext == pUVDst + if h % 2 == 0 then l.words else 0
  {
    RoomForLine(l, h);
    pUVNext := pUVDst;
    if h % 2 == 0 {
      ChromaPointerOnEvenLine(l, h);
      ConvertEvenLine(input, output, pYSrc, pYDst, pUVDst, nWidthDiv4);
      pUVNext := pUVDst + nWidthDiv4;
      LineConverted(l, input[..], old(output[..]), output[..], h, pYSrc, pYDst, pUVDst, nWidthDiv4);
    } else {
      ConvertOddLine(input, output, pYSrc, pYDst, nWidthDiv4);
      LineConverted(l, input[..], old(output[..]), output[..], h, pYSrc, pYDst, pYDst, nWidthDiv4);
    }
  }

  lemma {:induction false} Quarters(n: nat, q: nat)
    requires n == 4 * q
    ensures n / 4 == q && (n % 8 == 0 <==> q % 2 == 0)
  {
    if q % 2 == 0 {
      assert n == 8 * (q / 2);
    }
  }

  /** convertYUYVtoNV12SP for word-aligned strides. */
  method ConvertYUYVtoNV12SP(input: array<Word>, output: array<Word>, height: nat, srcStride: nat, dstStride: nat,
                             ghost l: Layout)
    requires l.height == height && l.Of(srcStride, dstStride)
    requires input != output
    requires Rows(height, 2 * l.words) <= input.Length
    requires Rows(height, l.Pitch()) + Rows((height + 1) / 2, l.ChromaPitch()) <= output.Length
    modifies output
    ensures Converted(l, input[..], output[..], height)
    ensures forall i :: 0 <= i < output.Length && Untouched(l, height, i) ==> output[i] == old(output[i])
  {
    var nWidthDiv4 := srcStride / 4;
    var gap := (dstStride - srcStride) / 4;
    Quarters(srcStride, l.words);
    Quarters(dstStride, l.Pitch());
    Quarters(dstStride - srcStride, l.Gap());
    var pYSrc, pYDst, pUVDst := 0, 0, height * (dstStride / 4);
    RowsIsProduct(height, l.Pitch());
    for h := 0 to height
      invariant pYSrc == l.Source(h) && pYDst == l.Luma(h) && pUVDst == ChromaPointer(l, h)
      invariant Converted(l, input[..], output[..], h)
      invariant forall i :: 0 <= i < output.Length && Untouched(l, h, i) ==> output[i] == old(output[i])
    {
      RoomForLine(l, h);
      ChromaPointerNext(l, h);
      pUVDst := ConvertLine(input, output, l, h, pYSrc, pYDst, pUVDst, nWidthDiv4);
      pYSrc := pYSrc + 2 * nWidthDiv4;
      pYDst := pYDst + nWidthDiv4 + gap;
      pUVDst := pUVDst + gap / 2;
    }
  }

  lemma {:induction false} AtWord(ws: seq<Word>, a: nat, b: nat)
    requires a < |ws| && b < 4
    ensures (4 * a + b) / 4 == a && ByteAt(ws, 4 * a + b) == ByteOf(ws[a], b)
  {
  }

  /** Byte b of a packed luma word is the even byte 2b of its pair of source words. */
  lemma {:induction false} PackedY(ws: seq<Word>, a: nat, b: nat)
    requires a + 1 < |ws| && b < 4
    ensures (4 * a + 2 * b) / 4 < |ws|
    ensures ByteOf(PackY(ws[a], ws[a + 1]), b) == ByteAt(ws, 4 * a + 2 * b)
  {
    PackYBytes(ws[a], ws[a + 1]);
    AtWord(ws, a + (2 * b) / 4, (2 * b) % 4);
    assert 4 * a + 2 * b == 4 * (a + (2 * b) / 4) + (2 * b) % 4;
  }

  /** Byte b of a packed chroma word is the odd byte 2b + 1 of its pair of source words. */
  lemma {:induction false} PackedUV(ws: seq<Word>, a: nat, b: nat)
    requires a + 1 < |ws| && b < 4
    ensures (4 * a + 2 * b + 1) / 4 < |ws|
    ensures ByteOf(PackUV(ws[a], ws[a + 1]), b) == ByteAt(ws, 4 * a + 2 * b + 1)
  {
    PackUVBytes(ws[a], ws[a + 1]);
    AtWord(ws, a + (2 * b + 1) / 4, (2 * b + 1) % 4);
    assert 4 * a + 2 * b + 1 == 4 * (a + (2 * b + 1) / 4) + (2 * b + 1) % 4;
  }

  /** Word i of the output is packed from source words j and j + 1. */
  predicate PackedLuma(input: seq<Word>, output: seq<Word>, j: nat, i: nat) {
    i < |output| && j + 1 < |input| && output[i] == PackY(input[j], input[j + 1])
  }

  predicate PackedChroma(input: seq<Word>, output: seq<Word>, j: nat, i: nat) {
    i < |output| && j + 1 < |input| && output[i] == PackUV(input[j], input[j + 1])
  }

  lemma {:induction false} LumaWord(l: Layout, input: seq<Word>, output: seq<Word>, h: nat, w: nat)
    requires LumaLine(l, input, output, h) && w < l.words
    ensures PackedLuma(input, output, l.Source(h) + 2 * w, l.Luma(h) + w)
  {
    assert output[l.Luma(h) + w] == output[l.Luma(h)..l.Luma(h) + l.words][w];
  }

  lemma {:induction false} ChromaWord(l: Layout, input: seq<Word>, output: seq<Word>, k: nat, w: nat)
    requires ChromaLine(l, input, output, k) && w < l.words
    ensures PackedChroma(input, output, l.Source(2 * k) + 2 * w, l.Chroma(k) + w)
  {
    assert output[l.Chroma(k) + w] == output[l.Chroma(k)..l.Chroma(k) + l.words][w];
  }

  /** Byte x of the one buffer is byte y of the other. */
  predicate SameByte(a: seq<Word>, x: nat, b: seq<Word>, y: nat) {
    x / 4 < |a| && y / 4 < |b| && ByteAt(a, x) == ByteAt(b, y)
  }

  /** Byte b of word i of a packed luma row, by its place in the two buffers. */
  lemma {:induction false} LumaInRow(input: seq<Word>, output: seq<Word>, j: nat, i: nat, b: nat, dst: nat, src: nat)
    requires PackedLuma(input, output, j, i) && b < 4
    requires dst == 4 * i + b && src == 4 * j + 2 * b
    ensures SameByte(output, dst, input, src)
  {
    AtWord(output, i, b);
    PackedY(input, j, b);
  }

  lemma {:induction false} ChromaInRow(input: seq<Word>, output: seq<Word>, j: nat, i: nat, b: nat, dst: nat, src: nat)
    requires PackedChroma(input, output, j, i) && b < 4
    requires dst == 4 * i + b && src == 4 * j + 2 * b + 1
    ensures SameByte(output, dst, input, src)
  {
    AtWord(output, i, b);
    PackedUV(input, j, b);
  }

  lemma {:induction false} WordOfByte(x: nat, words: nat)
    requires x < 4 * words
    ensures x / 4 < words && x == 4 * (x / 4) + x % 4
  {
  }

  /** Destination luma (h, x) is source byte 2 * (h * srcStride + x). */
  lemma {:induction false} LumaByte(l: Layout, input: seq<Word>, output: seq<Word>, h: nat, x: nat, dst: nat, src: nat)
    requires Converted(l, input, output, l.height) && h < l.height && x < 4 * l.words
    requires dst == Rows(h, 4 * l.Pitch()) + x && src == 2 * (Rows(h, 4 * l.words) + x)
    ensures SameByte(output, dst, input, src)
  {
    WordOfByte(x, l.words);
    LumaWord(l, input, output, h, x / 4);
    RowsScale(h, l.Pitch(), 4);
    RowsScale(h, l.words, 4);
    RowsScale(h, l.words, 2);
    LumaInRow(input, output, l.Source(h) + 2 * (x / 4), l.Luma(h) + x / 4, x % 4, dst, src);
  }

  /** Destination chroma (k, x) is the odd byte 2 * (2k * srcStride + x) + 1 of source line
      2k: U in even places, V in odd ones. */
  lemma {:induction false} ChromaByte(l: Layout, input: seq<Word>, output: seq<Word>, k: nat, x: nat, dst: nat,
                                      src: nat)
    requires Converted(l, input, output, l.height) && 2 * k < l.height && x < 4 * l.words
    requires dst == 4 * l.Chroma(k) + x && src == 2 * (Rows(2 * k, 4 * l.words) + x) + 1
    ensures SameByte(output, dst, input, src)
  {
    WordOfByte(x, l.words);
    ChromaWord(l, input, output, k, x / 4);
    RowsScale(2 * k, l.words, 4);
    RowsScale(2 * k, l.words, 2);
    ChromaInRow(input, output, l.Source(2 * k) + 2 * (x / 4), l.Chroma(k) + x / 4, x % 4, dst, src);
  }

  /** Chroma line k is where NV12 wants it. */
  predicate Placed(l: Layout, k: nat) {
    4 * l.Chroma(k) == Rows(l.height, 4 * l.Pitch()) + Rows(k, 4 * l.Pitch())
  }

  ghost predicate AllPlaced(l: Layout) {
    forall k: nat :: k < l.ChromaLines() ==> Placed(l, k)
  }

  lemma {:induction false} EvenGapPlaces(l: Layout, k: nat)
    requires !l.odd
    ensures Placed(l, k)
  {
    assert l.ChromaPitch() == l.Pitch();
    RowsScale(l.height, l.Pitch(), 4);
    RowsScale(k, l.Pitch(), 4);
  }

  lemma {:induction false} FirstChromaLinePlaced(l: Layout)
    ensures Placed(l, 0)
  {
    RowsScale(l.height, l.Pitch(), 4);
  }

  lemma {:induction false} OddGapMisplaces(l: Layout)
    requires l.odd
    ensures !Placed(l, 1)
  {
    RowsScale(l.height, l.Pitch(), 4);
    assert Rows(1, l.ChromaPitch()) == Rows(0, l.ChromaPitch()) + l.ChromaPitch();
    assert Rows(1, 4 * l.Pitch()) == Rows(0, 4 * l.Pitch()) + 4 * l.Pitch();
  }

  /** The chroma lines lie dstStride bytes apart behind the luma plane, as NV12 wants them,
      exactly when the stride difference is divisible by 8 or there is but one of them. */
  lemma {:induction false} ChromaPlacedIff(l: Layout, srcStride: nat, dstStride: nat)
    requires l.Of(srcStride, dstStride)
    ensures AllPlaced(l) <==> (dstStride - srcStride) % 8 == 0 || l.height <= 2
  {
    Quarters(dstStride - srcStride, l.Gap());
    if !l.odd {
      forall k: nat
        ensures Placed(l, k)
      {
        EvenGapPlaces(l, k);
      }
    } else {
      FirstChromaLinePlaced(l);
      OddGapMisplaces(l);
    }
  }

  /** The per-pixel definition of luma, in bytes and strides: destination byte
      h * dstStride + x is source byte 2 * (h * srcStride + x). */
  lemma {:induction false} LumaPixel(l: Layout, srcStride: nat, dstStride: nat, input: seq<Word>,
                                     output: seq<Word>, h: nat, x: nat, dst: nat, src: nat)
    requires l.Of(srcStride, dstStride) && Converted(l, input, output, l.height)
    requires h < l.height && x < srcStride
    requires dst == h * dstStride + x && src == 2 * (h * srcStride + x)
    ensures SameByte(output, dst, input, src)
  {
    RowsIsProduct(h, dstStride);
    RowsIsProduct(h, srcStride);
    LumaByte(l, input, output, h, x, dst, src);
  }

  lemma {:induction false} ChromaIndex(l: Layout, k: nat, srcStride: nat, dstStride: nat)
    requires !l.odd && l.Of(srcStride, dstStride)
    ensures 4 * l.Chroma(k) == dstStride * l.height + k * dstStride
    ensures Rows(2 * k, 4 * l.words) == 2 * k * srcStride
  {
    RowsIsProduct(l.height, dstStride);
    RowsIsProduct(k, dstStride);
    RowsIsProduct(2 * k, srcStride);
    EvenGapPlaces(l, k);
  }

  /** The per-pixel definition of chroma: byte x of chroma line k, which NV12 puts
      dstStride * height + k * dstStride bytes into the destination, is an odd byte of
      source line 2k. It needs the stride difference to be divisible by 8. */
  lemma {:induction false} ChromaPixel(l: Layout, srcStride: nat, dstStride: nat, input: seq<Word>,
                                       output: seq<Word>, k: nat, x: nat, dst: nat, src: nat)
    requires l.Of(srcStride, dstStride) && (dstStride - srcStride) % 8 == 0
    requires Converted(l, input, output, l.height)
    requires 2 * k < l.height && x < srcStride
    requires dst == dstStride * l.height + k * dstStride + x && src == 2 * (2 * k * srcStride + x) + 1
    ensures SameByte(output, dst, input, src)
  {
    Quarters(dstStride - srcStride, l.Gap());
    ChromaIndex(l, k, srcStride, dstStride);
    ChromaByte(l, input, output, k, x, dst, src);
  }
}
