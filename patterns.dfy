/** The reference image: the gradient that initBuf writes and cmpBuf expects. */
module Patterns {
  import opened Formats
  import opened Arith

  /** The colour expected at pixel (x, y) of a width x height image. Red and
      green are the truncated quotients x*256/width and y*256/height reduced
      mod 256; blue reduces their unreduced sum. All operands are non-negative,
      so Dafny's division agrees with C's truncating division here. */
  function Gradient(x: nat, y: nat, width: nat, height: nat): (c: RGB)
    requires width > 0 && height > 0
    ensures ChannelsInRange(c)
  {
    RGB((x * 256 / width) % 256,
        (y * 256 / height) % 256,
        (y * 256 / height + x * 256 / width) % 256)
  }

  /** Blue is red plus green mod 256 for every coordinate, even where the
      quotients themselves exceed 255 and red or green has already wrapped. */
  lemma {:induction false} BlueIsRedPlusGreen(x: nat, y: nat, width: nat, height: nat)
    requires width > 0 && height > 0
    ensures var c := Gradient(x, y, width, height);
      c.b == (c.r + c.g) % 256
  {
    var a, b := x * 256 / width, y * 256 / height;
    ModOfSum(b, a, 256);
  }

  /** Inside the image the quotients stay below 256, so red and green are the
      plain quotients and never wrap. */
  lemma {:induction false} GradientInside(x: nat, y: nat, width: nat, height: nat)
    requires x < width && y < height
    ensures var c := Gradient(x, y, width, height);
      && c.r == x * 256 / width && c.g == y * 256 / height
      && c.b == (c.r + c.g) % 256
  {
    QuotientBelow256(x, width);
    QuotientBelow256(y, height);
    BlueIsRedPlusGreen(x, y, width, height);
  }

  lemma QuotientBelow256(x: nat, n: nat)
    requires x < n
    ensures x * 256 / n < 256
  {
    assert x * 256 < 256 * n;
  }

  /** Pixel (2, 1) of a 4 x 2 image is (128, 128, 0): blue wraps to zero. */
  lemma GradientExample()
    ensures Gradient(2, 1, 4, 2) == RGB(128, 128, 0)
  {
  }
}
