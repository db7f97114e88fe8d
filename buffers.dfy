/** initBuf and cmpBuf: write the gradient into a pitched buffer through a
    format's setRGB, and check a buffer against the gradient through its
    getRGB. */
module Buffers {
  import opened Formats
  import opened Layouts
  import opened Patterns
  import opened Images
  import opened Arith

  /** memset(&buf[off], 0, n). */
  method Memset(buf: array<bv8>, off: nat, n: nat)
    requires off + n <= buf.Length
    modifies buf
    ensures buf[..] == Overwrite(old(buf[..]), off, Zeros(n))
  {
    forall k | off <= k < off + n {
      buf[k] := 0;
    }
  }

  /** The bytes setRGB leaves in the slot at `off`, stored back into the buffer. */
  method StoreSlot(buf: array<bv8>, off: nat, px: seq<bv8>)
    requires off + |px| <= buf.Length
    modifies buf
    ensures buf[..] == Overwrite(old(buf[..]), off, px)
  {
    forall k | off <= k < off + |px| {
      buf[k] := px[k - off];
    }
  }

  /** What initBuf writes into slot (i, j): the gradient colour, encoded into
      a zeroed slot. */
  function GradientMap(pf: PF, width: nat, height: nat): PixelMap
  {
    (i: nat, j: nat, slot: seq<bv8>) =>
      if i < width && j < height then pf.setRGB(Zeros(pf.size), Gradient(i, j, width, height))
      else slot
  }

  /** The buffer initBuf leaves behind, given the bytes it found. */
  function InitImage(s: seq<bv8>, width: nat, pitch: nat, height: nat, pf: PF): seq<bv8>
  {
    MapPixels(s, Layout(width, pitch, height, pf.size), GradientMap(pf, width, height))
  }

  /** Every pixel of the buffer decodes to the gradient colour. */
  ghost predicate Matches(s: seq<bv8>, width: nat, pitch: nat, height: nat, pf: PF)
  {
    MatchesBefore(s, width, pitch, height, pf, height, 0)
  }

  /** Every pixel before (rows, cols) in row-major order decodes to the gradient. */
  ghost predicate MatchesBefore(s: seq<bv8>, width: nat, pitch: nat, height: nat, pf: PF,
                                rows: nat, cols: nat)
  {
    forall i: nat, j: nat ::
      i < width && j < height && (j < rows || (j == rows && i < cols)) ==>
      pf.getRGB(Pixel(s, Layout(width, pitch, height, pf.size), i, j)) == Gradient(i, j, width, height)
  }

  lemma GradientMapKeepsSize(pf: PF, width: nat, pitch: nat, height: nat)
    requires WellFormed(pf)
    ensures KeepsSize(Layout(width, pitch, height, pf.size), GradientMap(pf, width, height))
  {
    var f := GradientMap(pf, width, height);
    forall i: nat, j: nat, slot: seq<bv8> | |slot| == pf.size
      ensures |f(i, j, slot)| == pf.size
    {
      if i < width && j < height {
        var c := Gradient(i, j, width, height);
        assert |pf.setRGB(Zeros(pf.size), c)| == pf.size;
      }
    }
  }

  /** initBuf: for each row, for each pixel, zero the slot and encode the
      gradient colour into it. The buffer must hold `height` rows of `pitch`
      bytes, and a row's pixels must fit in its pitch. */
  method InitBuf(buf: array<bv8>, width: nat, pitch: nat, height: nat, pf: PF)
    requires WellFormed(pf)
    requires width * pf.size <= pitch && height * pitch <= buf.Length
    modifies buf
    ensures buf[..] == InitImage(old(buf[..]), width, pitch, height, pf)
  {
    ghost var s0 := buf[..];
    ghost var L := Layout(width, pitch, height, pf.size);
    ghost var f := GradientMap(pf, width, height);
    GradientMapKeepsSize(pf, width, pitch, height);
    RewrittenStart(s0, L, f);
    var j := 0;
    while j < height
      invariant 0 <= j <= height
      invariant buf[..] == Rewritten(s0, L, f, j, 0)
    {
      var i := 0;
      while i < width
        invariant 0 <= i <= width
        invariant buf[..] == Rewritten(s0, L, f, j, i)
      {
        var off := j * pitch + i * pf.size;
        SlotInBounds(L, i, j);
        RewrittenStep(s0, L, f, i, j);
        ghost var cur := buf[..];
        Memset(buf, off, pf.size);
        assert buf[off..off + pf.size] == Zeros(pf.size);
        var px := pf.setRGB(buf[off..off + pf.size], Gradient(i, j, width, height));
        assert px == f(i, j, Pixel(s0, L, i, j));
        StoreSlot(buf, off, px);
        assert buf[..] == Overwrite(cur, off, px);
        i := i + 1;
      }
      RewrittenRowEnd(s0, L, f, j);
      j := j + 1;
    }
  }

  /** cmpBuf: decode every pixel and compare it with the gradient; a mismatch
      clears the result but the scan goes on over the whole image (`visited`
      counts the pixels decoded). */
  method CmpBuf(buf: array<bv8>, width: nat, pitch: nat, height: nat, pf: PF)
    returns (retval: int, ghost visited: nat)
    requires pf.size > 0
    requires width * pf.size <= pitch && height * pitch <= buf.Length
    ensures retval == 1 || retval == 0
    ensures retval == 1 <==> Matches(buf[..], width, pitch, height, pf)
    ensures visited == width * height
  {
    ghost var L := Layout(width, pitch, height, pf.size);
    retval := 1;
    visited := 0;
    var j := 0;
    while j < height
      invariant 0 <= j <= height
      invariant visited == j * width
      invariant retval == 1 || retval == 0
      invariant retval == 1 <==> MatchesBefore(buf[..], width, pitch, height, pf, j, 0)
    {
      var i := 0;
      while i < width
        invariant 0 <= i <= width
        invariant visited == j * width + i
        invariant retval == 1 || retval == 0
        invariant retval == 1 <==> MatchesBefore(buf[..], width, pitch, height, pf, j, i)
      {
        var off := j * pitch + i * pf.size;
        SlotInBounds(L, i, j);
        assert buf[off..off + pf.size] == Pixel(buf[..], L, i, j);
        var c := pf.getRGB(buf[off..off + pf.size]);
        if c != Gradient(i, j, width, height) {
          retval := 0;
        }
        visited := visited + 1;
        i := i + 1;
      }
      MulSucc(j, width);
      j := j + 1;
    }
  }

  /** initBuf followed by cmpBuf with the same geometry and format succeeds,
      whatever the buffer held before, provided the format round-trips. */
  lemma {:induction false} InitThenMatches(s: seq<bv8>, width: nat, pitch: nat, height: nat, pf: PF)
    requires WellFormed(pf) && RoundTrips(pf)
    requires width * pf.size <= pitch && height * pitch <= |s|
    ensures Matches(InitImage(s, width, pitch, height, pf), width, pitch, height, pf)
  {
    var L := Layout(width, pitch, height, pf.size);
    var f := GradientMap(pf, width, height);
    GradientMapKeepsSize(pf, width, pitch, height);
    forall i: nat, j: nat | i < width && j < height
      ensures pf.getRGB(Pixel(InitImage(s, width, pitch, height, pf), L, i, j)) == Gradient(i, j, width, height)
    {
      MapPixelsAt(s, L, f, i, j);
    }
  }

  /** Slot (i, j) of initBuf's result holds the encoded gradient colour. */
  lemma {:induction false} InitImageAt(s: seq<bv8>, width: nat, pitch: nat, height: nat, pf: PF, i: nat, j: nat)
    requires WellFormed(pf)
    requires width * pf.size <= pitch && height * pitch <= |s|
    requires i < width && j < height
    ensures Pixel(InitImage(s, width, pitch, height, pf), Layout(width, pitch, height, pf.size), i, j)
         == pf.setRGB(Zeros(pf.size), Gradient(i, j, width, height))
  {
    var L := Layout(width, pitch, height, pf.size);
    GradientMapKeepsSize(pf, width, pitch, height);
    MapPixelsAt(s, L, GradientMap(pf, width, height), i, j);
  }

  /** initBuf writes only pixel slots: row padding, the bytes past the last
      row, and the whole buffer when width or height is zero stay as they were. */
  lemma {:induction false} InitImageFrame(s: seq<bv8>, width: nat, pitch: nat, height: nat, pf: PF, k: nat)
    requires WellFormed(pf) && width * pf.size <= pitch && k < |s|
    requires pitch > 0 ==> k % pitch >= width * pf.size || k >= height * pitch
    ensures InitImage(s, width, pitch, height, pf)[k] == s[k]
  {
    MapPixelsFrame(s, Layout(width, pitch, height, pf.size), GradientMap(pf, width, height), k);
  }

  lemma {:induction false} InitImageEmpty(s: seq<bv8>, width: nat, pitch: nat, height: nat, pf: PF)
    requires WellFormed(pf) && width * pf.size <= pitch && (width == 0 || height == 0)
    ensures InitImage(s, width, pitch, height, pf) == s
  {
    MapPixelsEmpty(s, Layout(width, pitch, height, pf.size), GradientMap(pf, width, height));
  }
}
