/** Pixel formats as the benchmark sees them: a byte size and two accessors.
    The format catalog itself (pf.h) is outside this model; a format is
    given by its accessors, and what the benchmark relies on is stated as
    the predicates WellFormed and RoundTrips. */
module Formats {

  /** A colour as the accessors pass it: three C ints. */
  datatype RGB = RGB(r: int, g: int, b: int)

  /** A pixel format: `getRGB` decodes a pixel slot of `size` bytes, `setRGB`
      encodes a colour into a slot and yields the slot's new bytes (it may
      keep bits of the old slot, which is why callers zero it first). */
  datatype PF = PF(
    name: string,
    size: nat,
    getRGB: seq<bv8> -> RGB,
    setRGB: (seq<bv8>, RGB) -> seq<bv8>)

  /** `size` zero bytes: what memset(p, 0, size) leaves in a slot. */
  function Zeros(n: nat): (z: seq<bv8>)
    ensures |z| == n && forall k :: 0 <= k < n ==> z[k] == 0
  {
    seq(n, _ => 0)
  }

  /** The format's slot is at least one byte and setRGB writes only inside it. */
  ghost predicate WellFormed(pf: PF)
  {
    && pf.size > 0
    && forall slot, c :: |slot| == pf.size ==> |pf.setRGB(slot, c)| == pf.size
  }

  predicate ChannelsInRange(c: RGB)
  {
    0 <= c.r < 256 && 0 <= c.g < 256 && 0 <= c.b < 256
  }

  /** Decoding a freshly zeroed and encoded slot gives the colour back, for
      every colour whose channels are 8-bit values. */
  ghost predicate RoundTrips(pf: PF)
  {
    forall c :: ChannelsInRange(c) ==> pf.getRGB(pf.setRGB(Zeros(pf.size), c)) == c
  }

  // A three-byte R, G, B layout, the simplest format that meets both
  // predicates; the lemmas use it as a concrete instance.

  function Byte(x: int): (b: bv8)
    ensures 0 <= x < 256 ==> b as int == x
  {
    (x % 256) as bv8
  }

  function Rgb24Get(slot: seq<bv8>): (c: RGB)
    ensures |slot| >= 3 ==> c == RGB(slot[0] as int, slot[1] as int, slot[2] as int)
    ensures ChannelsInRange(c)
  {
    if |slot| >= 3 then RGB(slot[0] as int, slot[1] as int, slot[2] as int) else RGB(0, 0, 0)
  }

  function Rgb24Set(slot: seq<bv8>, c: RGB): (s: seq<bv8>)
    ensures |s| == |slot|
    ensures |slot| >= 3 ==> s[0] == Byte(c.r) && s[1] == Byte(c.g) && s[2] == Byte(c.b)
  {
    if |slot| >= 3 then [Byte(c.r), Byte(c.g), Byte(c.b)] + slot[3..] else slot
  }

  function Rgb24(): (pf: PF)
    ensures pf.size == 3
  {
    PF("RGB", 3, Rgb24Get, Rgb24Set)
  }

  lemma Rgb24IsValid()
    ensures WellFormed(Rgb24()) && RoundTrips(Rgb24())
  {
    forall c | ChannelsInRange(c)
      ensures Rgb24().getRGB(Rgb24().setRGB(Zeros(3), c)) == c
    {
      var s := Rgb24Set(Zeros(3), c);
      assert s[0] as int == c.r && s[1] as int == c.g && s[2] as int == c.b;
    }
  }
}
