/**
 The colour values the palette view works with: one colour as three 8-bit
 channels, as the clustering library hands them to the page (main.py:55).
 */
module Colour {

  /** One colour channel, an integer in [0, 255]. */
  type Byte = x: int | 0 <= x < 256

  /** A colour as red, green and blue channels. */
  datatype Rgb = Rgb(r: Byte, g: Byte, b: Byte)

  /** The largest of three channels, `max(r, g, b)`. */
  function MaxChannel(r: Byte, g: Byte, b: Byte): (mx: Byte)
    ensures r <= mx && g <= mx && b <= mx
    ensures mx == r || mx == g || mx == b
  {
    var rg := if r < g then g else r;
    if rg < b then b else rg
  }
}
