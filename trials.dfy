/** doTest in per-pixel (getRGB/setRGB) mode, one pass: allocate a source and
    a destination buffer with padded pitches, fill the source with the
    gradient, copy every pixel through the two formats' accessors, validate
    the destination, free whatever was allocated. */
module Trials {
  import opened Formats
  import opened Layouts
  import opened Patterns
  import opened Images
  import opened Buffers
  import opened Arith

  /** What the pass writes into destination slot (i, j): the colour decoded
      from source pixel (i, j), encoded into the slot's current bytes. */
  function CopyMap(src: seq<bv8>, Ls: Layout, srcpf: PF, dstpf: PF): PixelMap
  {
    (i: nat, j: nat, slot: seq<bv8>) => dstpf.setRGB(slot, srcpf.getRGB(Pixel(src, Ls, i, j)))
  }

  /** The destination after one per-pixel pass over src. */
  function PassImage(src: seq<bv8>, dst: seq<bv8>, width: nat, height: nat,
                     srcPitch: nat, dstPitch: nat, srcpf: PF, dstpf: PF): seq<bv8>
  {
    MapPixels(dst, Layout(width, dstPitch, height, dstpf.size),
              CopyMap(src, Layout(width, srcPitch, height, srcpf.size), srcpf, dstpf))
  }

  lemma CopyMapKeepsSize(src: seq<bv8>, Ls: Layout, Ld: Layout, srcpf: PF, dstpf: PF)
    requires WellFormed(dstpf) && Ld.size == dstpf.size
    ensures KeepsSize(Ld, CopyMap(src, Ls, srcpf, dstpf))
  {
    var f := CopyMap(src, Ls, srcpf, dstpf);
    forall i: nat, j: nat, slot: seq<bv8> | |slot| == Ld.size
      ensures |f(i, j, slot)| == Ld.size
    {
      assert |dstpf.setRGB(slot, srcpf.getRGB(Pixel(src, Ls, i, j)))| == dstpf.size;
    }
  }

  /** The getRGB/setRGB pass of doTest: walk both buffers row by row, each
      row pointer advancing by its own pitch and each pixel pointer by its
      format's size. */
  method CopyPass(srcBuf: array<bv8>, dstBuf: array<bv8>, width: nat, height: nat,
                  srcPitch: nat, dstPitch: nat, srcpf: PF, dstpf: PF)
    requires srcBuf != dstBuf
    requires srcpf.size > 0 && WellFormed(dstpf)
    requires width * srcpf.size <= srcPitch && height * srcPitch <= srcBuf.Length
    requires width * dstpf.size <= dstPitch && height * dstPitch <= dstBuf.Length
    modifies dstBuf
    ensures dstBuf[..] == PassImage(srcBuf[..], old(dstBuf[..]), width, height, srcPitch, dstPitch, srcpf, dstpf)
  {
    ghost var d0 := dstBuf[..];
    ghost var Ls := Layout(width, srcPitch, height, srcpf.size);
    ghost var Ld := Layout(width, dstPitch, height, dstpf.size);
    ghost var f := CopyMap(srcBuf[..], Ls, srcpf, dstpf);
    CopyMapKeepsSize(srcBuf[..], Ls, Ld, srcpf, dstpf);
    RewrittenStart(d0, Ld, f);
    var h := height;
    var srcRow, dstRow := 0, 0;
    while h > 0
      invariant h <= height
      invariant srcRow == (height - h) * srcPitch && dstRow == (height - h) * dstPitch
      invariant dstBuf[..] == Rewritten(d0, Ld, f, height - h, 0)
    {
      ghost var j := height - h;
      h := h - 1;
      var w := width;
      var srcPixel, dstPixel := srcRow, dstRow;
      ghost var i := 0;
      while w > 0
        invariant i + w == width
        invariant srcPixel == srcRow + i * srcpf.size && dstPixel == dstRow + i * dstpf.size
        invariant dstBuf[..] == Rewritten(d0, Ld, f, j, i)
      {
        assert srcPixel == Ls.Offset(i, j) && dstPixel == Ld.Offset(i, j);
        CopyStep(srcBuf[..], dstBuf[..], d0, Ls, Ld, srcpf, dstpf, i, j);
        var c := srcpf.getRGB(srcBuf[srcPixel..srcPixel + srcpf.size]);
        var px := dstpf.setRGB(dstBuf[dstPixel..dstPixel + dstpf.size], c);
        StoreSlot(dstBuf, dstPixel, px);
        w := w - 1;
        srcPixel, dstPixel := srcPixel + srcpf.size, dstPixel + dstpf.size;
        MulSucc(i, srcpf.size);
        MulSucc(i, dstpf.size);
        i := i + 1;
      }
      RewrittenRowEnd(d0, Ld, f, j);
      srcRow, dstRow := srcRow + srcPitch, dstRow + dstPitch;
      MulSucc(j, srcPitch);
      MulSucc(j, dstPitch);
    }
  }

  /** One step of the pass: the slots of pixel (i, j) lie inside both
      buffers, the destination slot still holds its original bytes, and
      writing setRGB of the source pixel's colour into it extends the pass by
      that pixel. */
  lemma {:induction false} CopyStep(src: seq<bv8>, cur: seq<bv8>, d0: seq<bv8>, Ls: Layout, Ld: Layout,
                                    srcpf: PF, dstpf: PF, i: nat, j: nat)
    requires Ls.Valid() && Ld.Valid() && Ls.size == srcpf.size && Ld.size == dstpf.size && WellFormed(dstpf)
    requires i < Ls.width && j < Ls.height && i < Ld.width && j < Ld.height
    requires Ls.Extent() <= |src| && Ld.Extent() <= |d0|
    requires cur == Rewritten(d0, Ld, CopyMap(src, Ls, srcpf, dstpf), j, i)
    ensures Ls.Offset(i, j) + Ls.size <= |src| && Ld.Offset(i, j) + Ld.size <= |cur|
    ensures var so, do := Ls.Offset(i, j), Ld.Offset(i, j);
      Overwrite(cur, do, dstpf.setRGB(cur[do..do + Ld.size], srcpf.getRGB(src[so..so + Ls.size])))
        == Rewritten(d0, Ld, CopyMap(src, Ls, srcpf, dstpf), j, i + 1)
  {
    var f := CopyMap(src, Ls, srcpf, dstpf);
    CopyMapKeepsSize(src, Ls, Ld, srcpf, dstpf);
    SlotInBounds(Ls, i, j);
    SlotInBounds(Ld, i, j);
    RewrittenStep(d0, Ld, f, i, j);
    var so, do := Ls.Offset(i, j), Ld.Offset(i, j);
    assert src[so..so + Ls.size] == Pixel(src, Ls, i, j);
    assert cur[do..do + Ld.size] == Pixel(d0, Ld, i, j);
  }

  /** Destination pixel (i, j) after the pass is setRGB of its old bytes with
      the colour getRGB reads from source pixel (i, j). */
  lemma {:induction false} PassImageAt(src: seq<bv8>, dst: seq<bv8>, width: nat, height: nat,
                                       srcPitch: nat, dstPitch: nat, srcpf: PF, dstpf: PF, i: nat, j: nat)
    requires WellFormed(dstpf) && width * dstpf.size <= dstPitch && height * dstPitch <= |dst|
    requires i < width && j < height
    ensures Pixel(PassImage(src, dst, width, height, srcPitch, dstPitch, srcpf, dstpf),
                  Layout(width, dstPitch, height, dstpf.size), i, j)
         == dstpf.setRGB(Pixel(dst, Layout(width, dstPitch, height, dstpf.size), i, j),
                         srcpf.getRGB(Pixel(src, Layout(width, srcPitch, height, srcpf.size), i, j)))
  {
    var Ls := Layout(width, srcPitch, height, srcpf.size);
    var Ld := Layout(width, dstPitch, height, dstpf.size);
    CopyMapKeepsSize(src, Ls, Ld, srcpf, dstpf);
    MapPixelsAt(dst, Ld, CopyMap(src, Ls, srcpf, dstpf), i, j);
  }

  /** The pass reads the source only through its pixel slots: sources that
      agree on every pixel give the same destination. */
  lemma {:induction false} PassImageSrcPixels(src1: seq<bv8>, src2: seq<bv8>, dst: seq<bv8>, width: nat, height: nat,
                                              srcPitch: nat, dstPitch: nat, srcpf: PF, dstpf: PF)
    requires width * dstpf.size <= dstPitch && dstpf.size > 0
    requires forall i: nat, j: nat :: i < width && j < height ==>
      Pixel(src1, Layout(width, srcPitch, height, srcpf.size), i, j)
      == Pixel(src2, Layout(width, srcPitch, height, srcpf.size), i, j)
    ensures PassImage(src1, dst, width, height, srcPitch, dstPitch, srcpf, dstpf)
         == PassImage(src2, dst, width, height, srcPitch, dstPitch, srcpf, dstpf)
  {
    var Ls := Layout(width, srcPitch, height, srcpf.size);
    var Ld := Layout(width, dstPitch, height, dstpf.size);
    var r1 := PassImage(src1, dst, width, height, srcPitch, dstPitch, srcpf, dstpf);
    var r2 := PassImage(src2, dst, width, height, srcPitch, dstPitch, srcpf, dstpf);
    forall k | 0 <= k < |dst|
      ensures r1[k] == r2[k]
    {
      if Ld.InImage(k) {
        ByteSlot(Ld, k);
        assert Pixel(src1, Ls, Ld.Col(k), Ld.Row(k)) == Pixel(src2, Ls, Ld.Col(k), Ld.Row(k));
      }
    }
  }

  /** The getRGB/setRGB pass from a gradient-filled source into a zeroed
      destination yields a destination that decodes to the gradient, for any
      two formats that round-trip and whatever the source held before. */
  lemma {:induction false} ConversionValidates(srcInit: seq<bv8>, n: nat, width: nat, height: nat,
                                               srcPitch: nat, dstPitch: nat, srcpf: PF, dstpf: PF)
    requires WellFormed(srcpf) && RoundTrips(srcpf) && WellFormed(dstpf) && RoundTrips(dstpf)
    requires width * srcpf.size <= srcPitch && height * srcPitch <= |srcInit|
    requires width * dstpf.size <= dstPitch && height * dstPitch <= n
    ensures Matches(PassImage(InitImage(srcInit, width, srcPitch, height, srcpf), Zeros(n),
                              width, height, srcPitch, dstPitch, srcpf, dstpf),
                    width, dstPitch, height, dstpf)
  {
    var src := InitImage(srcInit, width, srcPitch, height, srcpf);
    var Ls := Layout(width, srcPitch, height, srcpf.size);
    var Ld := Layout(width, dstPitch, height, dstpf.size);
    var r := PassImage(src, Zeros(n), width, height, srcPitch, dstPitch, srcpf, dstpf);
    forall i: nat, j: nat | i < width && j < height
      ensures dstpf.getRGB(Pixel(r, Ld, i, j)) == Gradient(i, j, width, height)
    {
      var c := Gradient(i, j, width, height);
      InitImageAt(srcInit, width, srcPitch, height, srcpf, i, j);
      assert srcpf.getRGB(Pixel(src, Ls, i, j)) == c;
      SlotInBounds(Ld, i, j);
      assert Pixel(Zeros(n), Ld, i, j) == Zeros(dstpf.size);
      PassImageAt(src, Zeros(n), width, height, srcPitch, dstPitch, srcpf, dstpf, i, j);
    }
  }

  /** Largest row width in bytes whose padded pitch still fits the int
      variables srcPitch and dstPitch. */
  const MaxRowBytes: nat := 0x7FFF_FFFC

  datatype BufferId = SrcBuf | DstBuf

  /** The allocation history of one trial. */
  datatype Event = Malloc(id: BufferId) | Free(id: BufferId)

  /** Every buffer allocated is freed exactly once: the log is allocations of
      distinct buffers followed by one free per allocation, in the same order. */
  predicate Released(log: seq<Event>)
  {
    && |log| % 2 == 0
    && (forall k :: 0 <= k < |log| / 2 ==> log[k].Malloc? && log[|log| / 2 + k] == Free(log[k].id))
    && (forall a, b :: 0 <= a < b < |log| / 2 ==> log[a].id != log[b].id)
  }

  /** The buffers doTest obtains, in allocation order: the source first, the
      destination only after the source. */
  function Allocations(srcMallocOk: bool, dstMallocOk: bool): seq<Event>
  {
    (if srcMallocOk then [Malloc(SrcBuf)] else []) + (if srcMallocOk && dstMallocOk then [Malloc(DstBuf)] else [])
  }

  /** One free per event of `allocs`, in the same order. */
  function Frees(allocs: seq<Event>): (r: seq<Event>)
    ensures |r| == |allocs| && forall k :: 0 <= k < |r| ==> r[k] == Free(allocs[k].id)
  {
    if allocs == [] then [] else [Free(allocs[0].id)] + Frees(allocs[1..])
  }

  /** The destination buffer after doTest's per-pixel pass; malloc's contents
      are taken as zero here, which PassImageSrcPixels shows does not matter
      for the source. */
  function PerPixelResult(width: nat, height: nat, srcpf: PF, dstpf: PF): seq<bv8>
    requires width * srcpf.size <= MaxRowBytes && width * dstpf.size <= MaxRowBytes
  {
    var srcPitch, dstPitch := BmpPad(width * srcpf.size), BmpPad(width * dstpf.size);
    PassImage(InitImage(Zeros(srcPitch * height), width, srcPitch, height, srcpf), Zeros(dstPitch * height),
              width, height, srcPitch, dstPitch, srcpf, dstpf)
  }

  /** doTest's return value when the destination is validated with row
      stride `stride`: -1 if an allocation failed or the destination does
      not decode to the gradient, 0 otherwise. */
  ghost function TrialOutcome(width: nat, height: nat, srcpf: PF, dstpf: PF,
                              srcMallocOk: bool, dstMallocOk: bool, stride: nat): int
    requires width * srcpf.size <= MaxRowBytes && width * dstpf.size <= MaxRowBytes
  {
    if !srcMallocOk || !dstMallocOk then -1
    else if Matches(PerPixelResult(width, height, srcpf, dstpf), width, stride, height, dstpf) then 0
    else -1
  }

  /** The allocate-fill-convert part of doTest shared by both validations. */
  method Prepare(width: nat, height: nat, srcpf: PF, dstpf: PF, srcMallocOk: bool, dstMallocOk: bool)
    returns (srcBuf: array?<bv8>, dstBuf: array?<bv8>, log: seq<Event>)
    requires WellFormed(srcpf) && WellFormed(dstpf)
    requires width * srcpf.size <= MaxRowBytes && width * dstpf.size <= MaxRowBytes
    ensures (srcBuf != null) == srcMallocOk && (dstBuf != null) == (srcMallocOk && dstMallocOk)
    ensures log == (if srcBuf != null then [Malloc(SrcBuf)] else []) + (if dstBuf != null then [Malloc(DstBuf)] else [])
    ensures dstBuf != null ==> dstBuf[..] == PerPixelResult(width, height, srcpf, dstpf)
    ensures dstBuf != null ==> dstBuf.Length == BmpPad(width * dstpf.size) * height
  {
    var srcPitch, dstPitch := BmpPad(width * srcpf.size), BmpPad(width * dstpf.size);
    srcBuf, dstBuf, log := null, null, [];
    if !srcMallocOk {
      return;
    }
    srcBuf := new bv8[srcPitch * height];
    log := log + [Malloc(SrcBuf)];
    ghost var garbage := srcBuf[..];
    InitBuf(srcBuf, width, srcPitch, height, srcpf);
    if !dstMallocOk {
      return;
    }
    dstBuf := new bv8[dstPitch * height];
    log := log + [Malloc(DstBuf)];
    Memset(dstBuf, 0, dstPitch * height);
    assert dstBuf[..] == Zeros(dstPitch * height);
    CopyPass(srcBuf, dstBuf, width, height, srcPitch, dstPitch, srcpf, dstpf);
    ghost var Ls := Layout(width, srcPitch, height, srcpf.size);
    forall i: nat, j: nat | i < width && j < height
      ensures Pixel(srcBuf[..], Ls, i, j) == Pixel(InitImage(Zeros(srcPitch * height), width, srcPitch, height, srcpf), Ls, i, j)
    {
      InitImageAt(garbage, width, srcPitch, height, srcpf, i, j);
      InitImageAt(Zeros(srcPitch * height), width, srcPitch, height, srcpf, i, j);
    }
    PassImageSrcPixels(srcBuf[..], InitImage(Zeros(srcPitch * height), width, srcPitch, height, srcpf),
                       Zeros(dstPitch * height), width, height, srcPitch, dstPitch, srcpf, dstpf);
  }

  /** The bailout path of doTest: free each buffer that was allocated. */
  method Release(srcBuf: array?<bv8>, dstBuf: array?<bv8>, mallocs: seq<Event>) returns (log: seq<Event>)
    requires mallocs == (if srcBuf != null then [Malloc(SrcBuf)] else []) + (if dstBuf != null then [Malloc(DstBuf)] else [])
    ensures log == mallocs + Frees(mallocs)
    ensures Released(log)
    ensures Malloc(SrcBuf) in log <==> srcBuf != null
    ensures Malloc(DstBuf) in log <==> dstBuf != null
  {
    log := mallocs;
    if srcBuf != null {
      log := log + [Free(SrcBuf)];
    }
    if dstBuf != null {
      log := log + [Free(DstBuf)];
    }
  }

  /** doTest in per-pixel mode, as written: the destination is validated with
      row stride width*dstpf.size although it was filled with the padded
      pitch. Returns -1 on an allocation failure or a validation failure, 0
      otherwise, and frees every buffer it allocated on every path. */
  method DoTest(width: nat, height: nat, srcpf: PF, dstpf: PF, srcMallocOk: bool, dstMallocOk: bool)
    returns (retval: int, log: seq<Event>)
    requires WellFormed(srcpf) && WellFormed(dstpf)
    requires width * srcpf.size <= MaxRowBytes && width * dstpf.size <= MaxRowBytes
    ensures retval == TrialOutcome(width, height, srcpf, dstpf, srcMallocOk, dstMallocOk, width * dstpf.size)
    ensures !srcMallocOk || !dstMallocOk ==> retval == -1
    ensures log == Allocations(srcMallocOk, dstMallocOk) + Frees(Allocations(srcMallocOk, dstMallocOk))
    ensures Released(log)
    ensures Malloc(SrcBuf) in log <==> srcMallocOk
    ensures Malloc(DstBuf) in log <==> srcMallocOk && dstMallocOk
  {
    retval := 0;
    var srcBuf, dstBuf, mallocs := Prepare(width, height, srcpf, dstpf, srcMallocOk, dstMallocOk);
    if srcBuf == null || dstBuf == null {
      retval := -1;
    } else {
      var stride := width * dstpf.size;
      Arith.MulMono(stride, BmpPad(stride), height);
      var ok, _ := CmpBuf(dstBuf, width, stride, height, dstpf);
      if ok == 0 {
        retval := -1;
      }
    }
    log := Release(srcBuf, dstBuf, mallocs);
  }

  /** doTest as evidently intended: the destination is validated with the
      pitch it was written with. */
  method DoTestPadded(width: nat, height: nat, srcpf: PF, dstpf: PF, srcMallocOk: bool, dstMallocOk: bool)
    returns (retval: int, log: seq<Event>)
    requires WellFormed(srcpf) && WellFormed(dstpf)
    requires width * srcpf.size <= MaxRowBytes && width * dstpf.size <= MaxRowBytes
    ensures retval == TrialOutcome(width, height, srcpf, dstpf, srcMallocOk, dstMallocOk, BmpPad(width * dstpf.size))
    ensures !srcMallocOk || !dstMallocOk ==> retval == -1
    ensures log == Allocations(srcMallocOk, dstMallocOk) + Frees(Allocations(srcMallocOk, dstMallocOk))
    ensures Released(log)
    ensures Malloc(SrcBuf) in log <==> srcMallocOk
    ensures Malloc(DstBuf) in log <==> srcMallocOk && dstMallocOk
  {
    retval := 0;
    var srcBuf, dstBuf, mallocs := Prepare(width, height, srcpf, dstpf, srcMallocOk, dstMallocOk);
    if srcBuf == null || dstBuf == null {
      retval := -1;
    } else {
      var ok, _ := CmpBuf(dstBuf, width, BmpPad(width * dstpf.size), height, dstpf);
      if ok == 0 {
        retval := -1;
      }
    }
    log := Release(srcBuf, dstBuf, mallocs);
  }

  /** With the padded pitch, a trial whose allocations succeed always
      validates, for any pair of formats that round-trip. */
  lemma {:induction false} PaddedTrialSucceeds(width: nat, height: nat, srcpf: PF, dstpf: PF)
    requires WellFormed(srcpf) && RoundTrips(srcpf) && WellFormed(dstpf) && RoundTrips(dstpf)
    requires width * srcpf.size <= MaxRowBytes && width * dstpf.size <= MaxRowBytes
    ensures TrialOutcome(width, height, srcpf, dstpf, true, true, BmpPad(width * dstpf.size)) == 0
  {
    var srcPitch, dstPitch := BmpPad(width * srcpf.size), BmpPad(width * dstpf.size);
    ConversionValidates(Zeros(srcPitch * height), dstPitch * height, width, height, srcPitch, dstPitch, srcpf, dstpf);
  }

  /** When a destination row is already a multiple of sizeof(int) bytes the
      unpadded stride is the pitch, so the as-written validation agrees with
      the intended one. */
  lemma AlignedStrideIsPitch(width: nat, size: nat)
    requires width * size <= MaxRowBytes && (width * size) % IntSize == 0
    ensures BmpPad(width * size) == width * size
  {
  }

  /** main's fixed width of 1024 makes every destination row a multiple of
      four bytes, so there the as-written validation returns exactly what the
      intended one returns, for any formats and any malloc outcome. */
  lemma {:induction false} Width1024StridesAgree(height: nat, srcpf: PF, dstpf: PF, srcMallocOk: bool, dstMallocOk: bool)
    requires 1024 * srcpf.size <= MaxRowBytes && 1024 * dstpf.size <= MaxRowBytes
    ensures TrialOutcome(1024, height, srcpf, dstpf, srcMallocOk, dstMallocOk, 1024 * dstpf.size)
         == TrialOutcome(1024, height, srcpf, dstpf, srcMallocOk, dstMallocOk, BmpPad(1024 * dstpf.size))
  {
    assert 1024 * dstpf.size == IntSize * (256 * dstpf.size);
    AlignedStrideIsPitch(1024, dstpf.size);
  }

  /** As written, a 1 x 2 image in a three-byte format fails validation: the
      destination's rows are 4 bytes apart, the check reads them 3 bytes apart,
      so pixel (0, 1) is read from the padding byte and the first two bytes of
      the real pixel, decoding (0, 0, 128) instead of (0, 128, 128). The
      intended validation accepts the same image (PaddedStrideAcceptsSmallImage). */
  lemma UnpaddedStrideRejectsValidImage()
    ensures TrialOutcome(1, 2, Rgb24(), Rgb24(), true, true, 1 * Rgb24().size) == -1
  {
    var r := PerPixelResult(1, 2, Rgb24(), Rgb24());
    SmallImageBytes();
    ReadWithStride3(r);
    GradientAt01();
    assert Rgb24().getRGB(Pixel(r, Layout(1, 3, 2, 3), 0, 1)) == RGB(0, 0, 128);
    assert !Matches(r, 1, 3, 2, Rgb24());
  }

  lemma PaddedStrideAcceptsSmallImage()
    ensures TrialOutcome(1, 2, Rgb24(), Rgb24(), true, true, BmpPad(1 * Rgb24().size)) == 0
  {
    Rgb24IsValid();
    PaddedTrialSucceeds(1, 2, Rgb24(), Rgb24());
  }

  /** Byte 3 is row 0's padding; the pass leaves it zero. */
  lemma SmallImagePadding()
    ensures var r := PerPixelResult(1, 2, Rgb24(), Rgb24());
      |r| == 8 && r[3] == 0
  {
    var pf := Rgb24();
    Rgb24IsValid();
    assert BmpPad(3) == 4;
    var src := InitImage(Zeros(8), 1, 4, 2, pf);
    MapPixelsFrame(Zeros(8), Layout(1, 4, 2, 3), CopyMap(src, Layout(1, 4, 2, 3), pf, pf), 3);
  }

  /** Row 1 starts at byte 4 and holds (0, 128, 128). */
  lemma SmallImageRow1()
    ensures var r := PerPixelResult(1, 2, Rgb24(), Rgb24());
      |r| == 8 && r[4..7] == Rgb24Set(Zeros(3), RGB(0, 128, 128))
  {
    var pf := Rgb24();
    Rgb24IsValid();
    assert BmpPad(3) == 4;
    var src := InitImage(Zeros(8), 1, 4, 2, pf);
    var r := PerPixelResult(1, 2, pf, pf);
    var Ld := Layout(1, 4, 2, 3);
    GradientAt01();
    InitImageAt(Zeros(8), 1, 4, 2, pf, 0, 1);
    PassImageAt(src, Zeros(8), 1, 2, 4, 4, pf, pf, 0, 1);
    assert Pixel(Zeros(8), Ld, 0, 1) == Zeros(3);
  }

  /** The bytes (0, 128) that start row 1's pixel. */
  lemma SmallImageBytes()
    ensures var r := PerPixelResult(1, 2, Rgb24(), Rgb24());
      |r| == 8 && r[3] == 0 && r[4] == 0 && r[5] == 128
  {
    SmallImagePadding();
    SmallImageRow1();
    var r := PerPixelResult(1, 2, Rgb24(), Rgb24());
    assert r[4] == r[4..7][0] && r[5] == r[4..7][1];
  }

  lemma GradientAt01()
    ensures Gradient(0, 1, 1, 2) == RGB(0, 128, 128)
  {
  }

  lemma ReadWithStride3(r: seq<bv8>)
    requires |r| == 8
    ensures Pixel(r, Layout(1, 3, 2, 3), 0, 1) == r[3..6]
  {
  }
}
