/** Geometry of a pitched image buffer: `height` rows of `pitch` bytes, each
    row holding `width` pixel slots of `size` bytes followed by padding.
    Pixel (i, j) occupies bytes [j*pitch + i*size, j*pitch + (i+1)*size). */
module Layouts {
  import opened Arith

  /** sizeof(int) on the platforms the benchmark targets. */
  const IntSize: nat := 4

  /** BMPPAD: round a row's byte count up to a multiple of sizeof(int). The
      source adds sizeof(int)-1 and masks with ~(sizeof(int)-1); on a
      non-negative value the mask clears the two low bits, i.e. subtracts the
      value modulo 4. The arithmetic is unsigned (sizeof yields a size_t), but
      the result is stored in the int variables srcPitch and dstPitch, hence
      the upper bound. */
  function BmpPad(pitch: int): (r: nat)
    requires 0 <= pitch <= 0x7FFF_FFFC
    ensures r % IntSize == 0
    ensures pitch <= r < pitch + IntSize
    ensures r <= 0x7FFF_FFFF
  {
    var sum := pitch + (IntSize - 1);
    sum - sum % IntSize
  }

  datatype Layout = Layout(width: nat, pitch: nat, height: nat, size: nat) {

    /** Slots are non-empty and a row's slots fit within its pitch. */
    predicate Valid()
    {
      size > 0 && width * size <= pitch
    }

    /** The bytes the source allocates for the image: pitch * height. */
    function Extent(): nat
    {
      height * pitch
    }

    function Offset(i: nat, j: nat): nat
    {
      j * pitch + i * size
    }

    /** Byte k lies in some pixel slot (not in row padding, not past the last row). */
    predicate InImage(k: int)
    {
      pitch > 0 && size > 0 && 0 <= k && k / pitch < height && k % pitch < width * size
    }

    // The slot coordinates (Col, Row) of a byte and its position inside the slot.

    function Row(k: nat): nat
      requires pitch > 0
    {
      k / pitch
    }

    function Col(k: nat): nat
      requires pitch > 0 && size > 0
    {
      k % pitch / size
    }

    function Lane(k: nat): nat
      requires pitch > 0 && size > 0
    {
      k % pitch % size
    }
  }

  /** The last slot of a row ends at or before the row's end, and the last row
      ends at or before Extent. */
  lemma SlotInBounds(L: Layout, i: nat, j: nat)
    requires L.Valid() && i < L.width && j < L.height
    ensures L.Offset(i, j) + L.size <= (j + 1) * L.pitch <= L.Extent()
  {
    var w, p, h, s := L.width, L.pitch, L.height, L.size;
    MulMono(i + 1, w, s);
    MulMono(j + 1, h, p);
    assert (i + 1) * s == i * s + s;
    assert (j + 1) * p == j * p + p;
  }

  /** Every byte of slot (i, j) is in the image, and maps back to (i, j) and
      its position t inside the slot. */
  lemma SlotByte(L: Layout, i: nat, j: nat, t: nat)
    requires L.Valid() && i < L.width && j < L.height && t < L.size
    ensures var k := L.Offset(i, j) + t;
      && L.InImage(k) && k < L.Extent()
      && L.Row(k) == j && L.Col(k) == i && L.Lane(k) == t
  {
    var w, p, s := L.width, L.pitch, L.size;
    var k := L.Offset(i, j) + t;
    SlotInBounds(L, i, j);
    var rem := i * s + t;
    assert rem < (i + 1) * s <= w * s by {
      MulMono(i + 1, w, s);
      assert (i + 1) * s == i * s + s;
    }
    DivModUnique(k, p, j, rem);
    DivModUnique(rem, s, i, t);
  }

  /** Every byte in the image belongs to exactly the slot its coordinates name. */
  lemma ByteSlot(L: Layout, k: nat)
    requires L.Valid() && L.InImage(k)
    ensures L.Col(k) < L.width && L.Row(k) < L.height && L.Lane(k) < L.size
    ensures k == L.Offset(L.Col(k), L.Row(k)) + L.Lane(k)
  {
    DivBelow(k % L.pitch, L.width, L.size);
  }
}
