/** JpegBuilder::InsertEXIFAndJpeg: the EXIF block and the coded image are spliced into one
    JPEG file, and what a JPEG reader makes of the result. */
module ExifSplice {

  import opened Wrappers

  const SOI: seq<Byte> := [0xff, 0xd8]
  const EOI: seq<Byte> := [0xff, 0xd9]
  const APP1_MARK: seq<Byte> := [0xff, 0xe1]
  const HEAD_SIZE: nat := 6
  const TWO_TO_THE_16: nat := 0x1_0000
  const TWO_TO_THE_32: nat := 0x1_0000_0000

  /** A quantization-table or restart-interval marker starts at i. */
  predicate MarkAt(main: seq<Byte>, i: int) {
    0 <= i && i + 2 <= |main| && main[i] == 0xff && (main[i + 1] == 0xdd || main[i + 1] == 0xdb)
  }

  /** The marker bytes: FF DB for the tables, FF DD for the restart interval. */
  lemma {:induction false} MarkIs(main: seq<Byte>, i: int)
    ensures MarkAt(main, i) <==> 0 <= i < |main| - 1 && main[i..i + 2] in {[0xff, 0xdb], [0xff, 0xdd]}
  {
    if 0 <= i < |main| - 1 {
      assert main[i..i + 2] == [main[i], main[i + 1]];
    }
  }

  predicate FirstMarkAt(main: seq<Byte>, i: nat) {
    MarkAt(main, i) && forall j :: 0 <= j < i ==> !MarkAt(main, j)
  }

  /** The two length bytes: uint16_t(offset) - 4, first as int and then as uint32_t. */
  function LengthBytes(offset: nat): (r: seq<Byte>) {
    var mapp1Size := (offset % TWO_TO_THE_16 - 4) % TWO_TO_THE_32;
    [mapp1Size / 256 % 256, mapp1Size % 256]
  }

  function BigEndian(s: seq<Byte>): nat
    requires |s| == 2
  {
    var high: int := s[0];
    256 * high + s[1]
  }

  function Head(offset: nat): (r: seq<Byte>)
    ensures |r| == HEAD_SIZE
  {
    SOI + APP1_MARK + LengthBytes(offset)
  }

  /** A number with the low bytes b and c. */
  lemma {:induction false} LowBytes(w: nat, a: nat, b: nat, c: nat)
    requires w == TWO_TO_THE_16 * a + 256 * b + c && b < 256 && c < 256
    ensures w / 256 % 256 == b && w % 256 == c
  {
    assert w == 256 * (256 * a + b) + c;
    assert w / 256 == 256 * a + b;
  }

  /** The residues of an offset and of the length it stands for. */
  lemma {:induction false} Residues(offset: nat, q: nat, r: nat)
    requires offset == TWO_TO_THE_16 * q + r && r < TWO_TO_THE_16
    ensures offset % TWO_TO_THE_16 == r
    ensures (offset - 4) % TWO_TO_THE_16 == if 4 <= r then r - 4 else r - 4 + TWO_TO_THE_16
  {
    if 4 <= r {
      assert offset - 4 == TWO_TO_THE_16 * q + (r - 4);
    } else {
      assert offset - 4 == TWO_TO_THE_16 * (q - 1) + (r - 4 + TWO_TO_THE_16);
    }
  }

  /** The value of mapp1Size: what is below zero wraps. */
  lemma {:induction false} Wraps(r: nat)
    requires r < TWO_TO_THE_16
    ensures (r - 4) % TWO_TO_THE_32 == if 4 <= r then r - 4 else r - 4 + TWO_TO_THE_32
  {
  }

  lemma {:induction false} BytesOf(offset: nat, w: nat, a: nat, b: nat, c: nat)
    requires w == (offset % TWO_TO_THE_16 - 4) % TWO_TO_THE_32
    requires w == TWO_TO_THE_16 * a + 256 * b + c && b < 256 && c < 256
    ensures BigEndian(LengthBytes(offset)) == 256 * b + c
  {
    LowBytes(w, a, b, c);
  }

  /** What the length bytes say, even where the casts wrap. */
  lemma {:induction false} LengthDecodes(offset: nat)
    ensures BigEndian(LengthBytes(offset)) == (offset - 4) % TWO_TO_THE_16
  {
    var r := offset % TWO_TO_THE_16;
    Residues(offset, offset / TWO_TO_THE_16, r);
    Wraps(r);
    if 4 <= r {
      var b := (r - 4) / 256;
      BytesOf(offset, r - 4, 0, b, r - 4 - 256 * b);
    } else {
      BytesOf(offset, r - 4 + TWO_TO_THE_32, TWO_TO_THE_16 - 1, 255, r + 252);
    }
  }

  lemma HeadPlus(n: nat)
    requires n <= 65533
    ensures (HEAD_SIZE + n) % TWO_TO_THE_16 == if n < 65530 then HEAD_SIZE + n else HEAD_SIZE + n - TWO_TO_THE_16
  {
  }

  /** When the length bytes are right for a block of n bytes; the block then ends where the
      coded image starts, or earlier. */
  lemma LengthFitsIff(offset: nat, n: nat)
    ensures BigEndian(LengthBytes(offset)) == n + 2 <==>
            n <= 65533 && offset % TWO_TO_THE_16 == (HEAD_SIZE + n) % TWO_TO_THE_16
    ensures BigEndian(LengthBytes(offset)) == n + 2 && HEAD_SIZE <= offset ==> HEAD_SIZE + n <= offset
  {
    LengthDecodes(offset);
    var length, r := BigEndian(LengthBytes(offset)), offset % TWO_TO_THE_16;
    Residues(offset, offset / TWO_TO_THE_16, r);
    assert length == if 4 <= r then r - 4 else r - 4 + TWO_TO_THE_16;
    if n <= 65533 {
      HeadPlus(n);
    }
  }

  /** Byte i of the destination after a splice: later copies lie over earlier ones. */
  function ByteAfter(was: seq<Byte>, offset: nat, exif: seq<Byte>, tail: seq<Byte>, end: nat, i: nat): Byte
    requires i < |was|
  {
    if end <= i < end + |EOI| then EOI[i - end]
    else if offset <= i < offset + |tail| then tail[i - offset]
    else if HEAD_SIZE <= i < HEAD_SIZE + |exif| then exif[i - HEAD_SIZE]
    else if i < HEAD_SIZE then Head(offset)[i]
    else was[i]
  }

  ghost predicate Spliced(was: seq<Byte>, out: seq<Byte>, offset: nat, exif: seq<Byte>, tail: seq<Byte>, end: nat) {
    |out| == |was| && forall i :: 0 <= i < |was| ==> out[i] == ByteAfter(was, offset, exif, tail, end, i)
  }

  method CopyInto(dst: array<Byte>, at: nat, src: seq<Byte>)
    requires at + |src| <= dst.Length
    modifies dst
    ensures forall i :: 0 <= i < dst.Length ==>
      dst[i] == if at <= i < at + |src| then src[i - at] else old(dst[i])
  {
    for k := 0 to |src|
      invariant forall i :: 0 <= i < dst.Length ==>
        dst[i] == if at <= i < at + k then src[i - at] else old(dst[i])
    {
      dst[at + k] := src[k];
    }
  }

  /** The copies before the search for the tables. */
  method WriteHead(dst: array<Byte>, offset: nat, exif: seq<Byte>)
    requires HEAD_SIZE + |exif| <= dst.Length
    modifies dst
    ensures Spliced(old(dst[..]), dst[..], offset, exif, [], dst.Length)
  {
    CopyInto(dst, 0, SOI);
    CopyInto(dst, |SOI|, APP1_MARK + LengthBytes(offset));
    CopyInto(dst, HEAD_SIZE, exif);
  }

  /** The copies after it. */
  method WriteTail(dst: array<Byte>, ghost was: seq<Byte>, offset: nat, ghost exif: seq<Byte>, tail: seq<Byte>,
                   end: nat)
    requires Spliced(was, dst[..], offset, exif, [], dst.Length)
    requires offset + |tail| <= end && end + |EOI| <= dst.Length
    modifies dst
    ensures Spliced(was, dst[..], offset, exif, tail, end)
  {
    CopyInto(dst, offset, tail);
    CopyInto(dst, end, EOI);
  }

  /** The marker scan, which tests its bound first. */
  method FindTables(main: seq<Byte>) returns (i: nat)
    ensures i + 2 <= |main| ==> FirstMarkAt(main, i)
    ensures i + 2 > |main| ==> forall j :: !MarkAt(main, j)
  {
    i := 0;
    while i + 2 <= |main| && !MarkAt(main, i)
      invariant forall j :: 0 <= j < i ==> !MarkAt(main, j)
    {
      i := i + 1;
    }
  }

  class JpegBuilder {
    var exifData: seq<Byte>
    var mRequestSize: nat
    /** g_mainJpgOffset: a static local, set by the first call and never again. */
    var mainJpgOffset: Option<nat>

    constructor (exifData: seq<Byte>)
      ensures this.exifData == exifData && mainJpgOffset == None
    {
      this.exifData, mRequestSize, mainJpgOffset := exifData, 0, None;
    }

    /** The offset that this call uses. */
    function Offset(): nat
      reads `mainJpgOffset, `exifData
    {
      if mainJpgOffset.Some? then mainJpgOffset.value else HEAD_SIZE + |exifData|
    }

    /** Returns 0, or -1 if the destination is too small or the image has no tables. */
    method InsertEXIFAndJpeg(main: seq<Byte>, dst: array<Byte>) returns (ret: int, ghost first: nat)
      requires HEAD_SIZE <= Offset() && Offset() + |main| + |EOI| < TWO_TO_THE_32
      requires Offset() + |main| + |EOI| <= dst.Length ==> HEAD_SIZE + |exifData| <= dst.Length
      modifies `mRequestSize, `mainJpgOffset, dst
      ensures mainJpgOffset == Some(old(Offset()))
      ensures mainJpgOffset == if old(mainJpgOffset) == None then Some(6 + |exifData|) else old(mainJpgOffset)
      ensures mRequestSize == old(Offset()) + |main| + |EOI|
      ensures ret == 0 || ret == -1
      ensures ret == 0 <==> mRequestSize <= dst.Length && exists j :: MarkAt(main, j)
      ensures dst.Length < mRequestSize ==> dst[..] == old(dst[..])
      ensures ret == 0 ==> FirstMarkAt(main, first)
      ensures ret == 0 ==>
        Spliced(old(dst[..]), dst[..], old(Offset()), exifData, main[first..], mRequestSize - |EOI|)
      ensures ret == -1 && mRequestSize <= dst.Length ==>
        Spliced(old(dst[..]), dst[..], old(Offset()), exifData, [], dst.Length)
    {
      if mainJpgOffset.None? {
        mainJpgOffset := Some(HEAD_SIZE + |exifData|);
      }
      var offset := mainJpgOffset.value;
      mRequestSize := (offset + |main| + |EOI|) % TWO_TO_THE_32;
      if dst.Length < mRequestSize {
        return -1, 0;
      }
      ghost var was := dst[..];
      WriteHead(dst, offset, exifData);
      var i := FindTables(main);
      if i + 2 > |main| {
        return -1, 0;
      }
      WriteTail(dst, was, offset, exifData, main[i..], mRequestSize - |EOI|);
      ret, first := 0, i;
    }
  }

  /** What a JPEG reader finds: the EXIF block and what follows it. */
  datatype Image = Image(exif: seq<Byte>, rest: seq<Byte>)

  function Parse(file: seq<Byte>): Option<Image> {
    if |file| < HEAD_SIZE || file[..2] != SOI || file[2..4] != APP1_MARK then None
    else
      var length := BigEndian(file[4..6]);
      if length < 2 || 4 + length > |file| then None
      else Some(Image(file[HEAD_SIZE..4 + length], file[4 + length..]))
  }

  lemma HeadKept(was: seq<Byte>, out: seq<Byte>, offset: nat, exif: seq<Byte>, tail: seq<Byte>, end: nat)
    requires Spliced(was, out, offset, exif, tail, end)
    requires HEAD_SIZE <= offset <= end && HEAD_SIZE <= |was|
    ensures out[..2] == SOI && out[2..4] == APP1_MARK && out[4..6] == LengthBytes(offset)
  {
    assert out[..6] == Head(offset);
    assert Head(offset)[..2] == SOI && Head(offset)[2..4] == APP1_MARK && Head(offset)[4..6] == LengthBytes(offset);
    assert out[2..4] == out[..6][2..4] && out[4..6] == out[..6][4..6];
  }

  /** The EXIF block reads back exactly when it is short enough for a 16-bit length and the
      offset, which may be left over from an earlier call, fits its size modulo 65536. */
  lemma ExifReadsBackIff(was: seq<Byte>, out: seq<Byte>, offset: nat, exif: seq<Byte>, tail: seq<Byte>, end: nat)
    requires Spliced(was, out, offset, exif, tail, end)
    requires HEAD_SIZE <= offset && offset + |tail| <= end && end + |EOI| <= |was| && HEAD_SIZE + |exif| <= |was|
    ensures var parsed := Parse(out[..end + |EOI|]);
      (parsed.Some? && parsed.value.exif == exif) <==>
      (|exif| <= 65533 && offset % TWO_TO_THE_16 == (HEAD_SIZE + |exif|) % TWO_TO_THE_16)
  {
    var file := out[..end + |EOI|];
    HeadKept(was, out, offset, exif, tail, end);
    assert file[..2] == out[..2] && file[2..4] == out[2..4] && file[4..6] == out[4..6];
    LengthFitsIff(offset, |exif|);
    if BigEndian(file[4..6]) == |exif| + 2 {
      assert file[HEAD_SIZE..HEAD_SIZE + |exif|] == exif;
    }
  }

  lemma RestOfFile(was: seq<Byte>, out: seq<Byte>, offset: nat, exif: seq<Byte>, tail: seq<Byte>, gap: nat, end: nat)
    requires Spliced(was, out, offset, exif, tail, end)
    requires HEAD_SIZE + |exif| <= offset && offset + |tail| + gap == end && end + |EOI| <= |was|
    ensures out[offset..end + |EOI|] == tail + was[end - gap..end] + EOI
  {
    assert out[offset..end - gap] == tail;
    assert out[end - gap..end] == was[end - gap..end];
    assert out[end..end + |EOI|] == EOI;
    assert out[offset..end + |EOI|] == out[offset..end - gap] + out[end - gap..end] + out[end..end + |EOI|];
  }

  /** With the offset that belongs to this EXIF block, the file is SOI, APP1 with its length,
      the EXIF block, the coded image from its first table on, `first` bytes that the splice
      does not write, and EOI. */
  lemma SplicedParsesBackIff(was: seq<Byte>, out: seq<Byte>, exif: seq<Byte>, main: seq<Byte>, first: nat, end: nat)
    requires FirstMarkAt(main, first) && end == HEAD_SIZE + |exif| + |main| && end + |EOI| <= |was|
    requires Spliced(was, out, HEAD_SIZE + |exif|, exif, main[first..], end)
    ensures Parse(out[..end + |EOI|]) == Some(Image(exif, main[first..] + was[end - first..end] + EOI)) <==>
            |exif| <= 65533
    ensures out[..4] == [0xff, 0xd8, 0xff, 0xe1] && out[end..end + 2] == [0xff, 0xd9]
    ensures forall i :: end + |EOI| <= i < |was| ==> out[i] == was[i]
  {
    var offset, tail := HEAD_SIZE + |exif|, main[first..];
    ExifReadsBackIff(was, out, offset, exif, tail, end);
    if |exif| <= 65533 {
      var file := out[..end + |EOI|];
      HeadKept(was, out, offset, exif, tail, end);
      assert file[4..6] == out[4..6];
      LengthFitsIff(offset, |exif|);
      assert 4 + BigEndian(file[4..6]) == offset;
      RestOfFile(was, out, offset, exif, tail, first, end);
      assert file[offset..] == out[offset..end + |EOI|];
    }
  }
}
