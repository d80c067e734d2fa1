/** Grayscale frames shared by both glyph pipelines: 8-bit samples and row-major positions. */
module Frames {

  /** One grayscale sample of a decoded frame, 0 (black) to 255 (white). */
  type Intensity = v: int | 0 <= v < 256

  /** The flat position of column `x` of row `y` in a row-major buffer `width` samples wide. */
  function RowMajor(x: int, y: int, width: int): (i: int)
  {
    y * width + x
  }

  /** Multiplying both sides of an inequality by a non-negative factor keeps it. */
  lemma MulLeMono(a: int, b: int, c: nat)
    requires a <= b
    ensures a * c <= b * c
  {
    assert b * c - a * c == (b - a) * c;
  }

  /** Quotient and remainder are determined by any decomposition `a == q * d + r` with `0 <= r < d`. */
  lemma DivModUnique(a: int, d: int, q: int, r: int)
    requires d > 0 && 0 <= r < d && a == q * d + r
    ensures a / d == q && a % d == r
  {
    var q0, r0 := a / d, a % d;
    if q0 < q { MulLeMono(q0 + 1, q, d); }
    if q < q0 { MulLeMono(q + 1, q0, d); }
  }

  /** Column `x` of row `y` of a `width` x `height` grid lies inside the flat buffer. */
  lemma RowMajorInRange(x: int, y: int, width: nat, height: nat)
    requires 0 <= x < width && 0 <= y < height
    ensures 0 <= RowMajor(x, y, width) < width * height
  {
    MulLeMono(0, y, width);
    MulLeMono(y + 1, height, width);
  }

  /** The flat position gives back its column and row. */
  lemma RowMajorDivMod(x: int, y: int, width: nat)
    requires 0 <= x < width
    ensures RowMajor(x, y, width) / width == y && RowMajor(x, y, width) % width == x
  {
    DivModUnique(y * width + x, width, y, x);
  }
}
