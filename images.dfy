/** Byte-level images. A pass over a pitched buffer that visits the pixels in
    row-major order and replaces each slot by some function of its
    coordinates and old bytes is specified by Rewritten: the bytes of the
    pixels already visited are replaced, every other byte is as it was. */
module Images {
  import opened Formats
  import opened Layouts

  /** What a pass writes into slot (i, j), given the slot's bytes before. */
  type PixelMap = (nat, nat, seq<bv8>) -> seq<bv8>

  /** The bytes of slot (i, j); a slot that does not fit reads as zeros. */
  function Pixel(s: seq<bv8>, L: Layout, i: nat, j: nat): seq<bv8>
  {
    var o := L.Offset(i, j);
    if o + L.size <= |s| then s[o..o + L.size] else Zeros(L.size)
  }

  /** s with the bytes from `off` on replaced by px (bytes past the end dropped). */
  function Overwrite(s: seq<bv8>, off: nat, px: seq<bv8>): (r: seq<bv8>)
    ensures |r| == |s|
    ensures forall k :: 0 <= k < |s| && !(off <= k < off + |px|) ==> r[k] == s[k]
    ensures forall k :: off <= k < off + |px| && k < |s| ==> r[k] == px[k - off]
  {
    seq(|s|, k requires 0 <= k < |s| => if off <= k < off + |px| then px[k - off] else s[k])
  }

  /** Byte k belongs to a pixel that precedes (rows, cols) in row-major order. */
  predicate Visited(L: Layout, k: int, rows: nat, cols: nat)
  {
    L.InImage(k) && (L.Row(k) < rows || (L.Row(k) == rows && L.Col(k) < cols))
  }

  /** The byte that f puts at position k, where k is in the image. */
  function NewByte(s: seq<bv8>, L: Layout, f: PixelMap, k: nat): bv8
    requires k < |s| && L.InImage(k)
  {
    var px := f(L.Col(k), L.Row(k), Pixel(s, L, L.Col(k), L.Row(k)));
    if L.Lane(k) < |px| then px[L.Lane(k)] else s[k]
  }

  /** s after f has been applied to every pixel before (rows, cols). */
  function Rewritten(s: seq<bv8>, L: Layout, f: PixelMap, rows: nat, cols: nat): (r: seq<bv8>)
    ensures |r| == |s|
  {
    seq(|s|, k requires 0 <= k < |s| => if Visited(L, k, rows, cols) then NewByte(s, L, f, k) else s[k])
  }

  /** s after f has been applied to every pixel of the image. */
  function MapPixels(s: seq<bv8>, L: Layout, f: PixelMap): (r: seq<bv8>)
    ensures |r| == |s|
    ensures forall k :: 0 <= k < |s| && !L.InImage(k) ==> r[k] == s[k]
  {
    Rewritten(s, L, f, L.height, 0)
  }

  /** f keeps the length of every slot it is applied to. */
  ghost predicate KeepsSize(L: Layout, f: PixelMap)
  {
    forall i, j, slot :: |slot| == L.size ==> |f(i, j, slot)| == L.size
  }

  lemma RewrittenStart(s: seq<bv8>, L: Layout, f: PixelMap)
    ensures Rewritten(s, L, f, 0, 0) == s
  {
  }

  /** Finishing a row is starting the next one. */
  lemma RewrittenRowEnd(s: seq<bv8>, L: Layout, f: PixelMap, j: nat)
    requires L.Valid()
    ensures Rewritten(s, L, f, j, L.width) == Rewritten(s, L, f, j + 1, 0)
  {
    forall k | 0 <= k < |s|
      ensures Visited(L, k, j, L.width) == Visited(L, k, j + 1, 0)
    {
      if L.InImage(k) {
        ByteSlot(L, k);
      }
    }
  }

  /** Pixel (i, j) read from bytes that agree with s on its slot. */
  lemma PixelAgrees(s: seq<bv8>, t: seq<bv8>, L: Layout, i: nat, j: nat)
    requires |s| == |t| && L.Offset(i, j) + L.size <= |s|
    requires forall k :: L.Offset(i, j) <= k < L.Offset(i, j) + L.size ==> s[k] == t[k]
    ensures Pixel(s, L, i, j) == Pixel(t, L, i, j)
  {
  }

  /** Inside the next slot (i, j): not yet rewritten, rewritten one step later. */
  lemma StepSlotByte(s: seq<bv8>, L: Layout, f: PixelMap, i: nat, j: nat, t: nat)
    requires L.Valid() && L.Extent() <= |s| && i < L.width && j < L.height && t < L.size
    requires KeepsSize(L, f)
    ensures L.Offset(i, j) + t < |s|
    ensures Rewritten(s, L, f, j, i)[L.Offset(i, j) + t] == s[L.Offset(i, j) + t]
    ensures Rewritten(s, L, f, j, i + 1)[L.Offset(i, j) + t] == f(i, j, Pixel(s, L, i, j))[t]
  {
    SlotInBounds(L, i, j);
    SlotByte(L, i, j, t);
  }

  /** Outside the next slot one more step changes nothing. */
  lemma StepOtherByte(s: seq<bv8>, L: Layout, f: PixelMap, i: nat, j: nat, k: nat)
    requires L.Valid() && i < L.width && k < |s|
    requires !(L.Offset(i, j) <= k < L.Offset(i, j) + L.size)
    ensures Rewritten(s, L, f, j, i)[k] == Rewritten(s, L, f, j, i + 1)[k]
  {
    if L.InImage(k) {
      ByteSlot(L, k);
      if L.Row(k) == j && L.Col(k) == i {
        assert false;
      }
    }
  }

  /** Writing f's bytes into the next slot (i, j) extends the pass by one
      pixel; before the write that slot still holds its original bytes. */
  lemma {:induction false} RewrittenStep(s: seq<bv8>, L: Layout, f: PixelMap, i: nat, j: nat)
    requires L.Valid() && L.Extent() <= |s| && i < L.width && j < L.height
    requires KeepsSize(L, f)
    ensures Pixel(Rewritten(s, L, f, j, i), L, i, j) == Pixel(s, L, i, j)
    ensures Overwrite(Rewritten(s, L, f, j, i), L.Offset(i, j), f(i, j, Pixel(s, L, i, j)))
         == Rewritten(s, L, f, j, i + 1)
  {
    var cur, next := Rewritten(s, L, f, j, i), Rewritten(s, L, f, j, i + 1);
    var off := L.Offset(i, j);
    var px := f(i, j, Pixel(s, L, i, j));
    SlotInBounds(L, i, j);
    forall k | off <= k < off + L.size
      ensures cur[k] == s[k] && next[k] == px[k - off]
    {
      StepSlotByte(s, L, f, i, j, k - off);
    }
    PixelAgrees(cur, s, L, i, j);
    var w := Overwrite(cur, off, px);
    forall k | 0 <= k < |s|
      ensures w[k] == next[k]
    {
      if !(off <= k < off + L.size) {
        StepOtherByte(s, L, f, i, j, k);
      }
    }
  }

  /** After a full pass, slot (i, j) holds f applied to its original bytes. */
  lemma {:induction false} MapPixelsAt(s: seq<bv8>, L: Layout, f: PixelMap, i: nat, j: nat)
    requires L.Valid() && L.Extent() <= |s| && i < L.width && j < L.height
    requires KeepsSize(L, f)
    ensures Pixel(MapPixels(s, L, f), L, i, j) == f(i, j, Pixel(s, L, i, j))
  {
    var r := MapPixels(s, L, f);
    var off := L.Offset(i, j);
    SlotInBounds(L, i, j);
    forall t | 0 <= t < L.size
      ensures r[off + t] == f(i, j, Pixel(s, L, i, j))[t]
    {
      SlotByte(L, i, j, t);
    }
  }

  /** A pass touches neither row padding nor the bytes past the last row, and
      an image without columns or rows leaves the buffer unchanged. */
  lemma {:induction false} MapPixelsFrame(s: seq<bv8>, L: Layout, f: PixelMap, k: nat)
    requires L.Valid() && k < |s|
    requires L.pitch > 0 ==> k % L.pitch >= L.width * L.size || k >= L.Extent()
    ensures MapPixels(s, L, f)[k] == s[k]
  {
    if L.pitch > 0 && k >= L.Extent() {
      assert k / L.pitch >= L.height by {
        if k / L.pitch < L.height {
          Arith.MulMono(k / L.pitch + 1, L.height, L.pitch);
          assert false;
        }
      }
    }
  }

  lemma {:induction false} MapPixelsEmpty(s: seq<bv8>, L: Layout, f: PixelMap)
    requires L.Valid() && (L.width == 0 || L.height == 0)
    ensures MapPixels(s, L, f) == s
  {
    forall k | 0 <= k < |s|
      ensures MapPixels(s, L, f)[k] == s[k]
    {
      if L.pitch > 0 && L.width != 0 {
        assert L.Extent() == 0;
        MapPixelsFrame(s, L, f, k);
      }
    }
  }
}
