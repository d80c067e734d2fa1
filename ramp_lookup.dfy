/**
 * The brightness-ramp glyph mapper of the terminal player: a 256-entry table
 * maps each intensity to a glyph of a light-to-dark ramp, using integer
 * arithmetic only, and a frame is rendered by one table lookup per pixel.
 */
module RampLookup {
  import opened Frames

  /** The default ramp, ordered light to dark: space first, the densest glyph last. */
  const AsciiRamp: string := " .:-=+*#%@"

  /** One table entry per 8-bit intensity. */
  const LutSize: nat := 256

  /** The raw ramp position of intensity `v` on a ramp of `n` glyphs: floor(v * n / 256). */
  function ScaledIndex(v: Intensity, n: nat): (idx: nat)
  {
    (v * n) / LutSize
  }

  /**
   * The position the table builder actually uses: the raw position clamped to
   * the last glyph `n - 1`. On an empty ramp the clamp yields -1, which is not
   * a position of the ramp.
   */
  function ClampedIndex(v: Intensity, n: nat): (idx: int)
    ensures n == 0 ==> idx == -1
    ensures n > 0 ==> 0 <= idx < n
  {
    var lastIdx := n - 1;
    var idx := ScaledIndex(v, n);
    if idx > lastIdx then lastIdx else idx
  }

  /** The table that `BuildLut` produces, as a value. */
  function Lut(ramp: string): (lut: seq<char>)
    requires |ramp| > 0
  {
    seq(LutSize, v requires 0 <= v < LutSize => ramp[ClampedIndex(v, |ramp|)])
  }

  /** The clamp never fires: every raw position of an intensity already lies on the ramp. */
  lemma ClampNeverFires(v: Intensity, n: nat)
    requires n > 0
    ensures ScaledIndex(v, n) < n
    ensures ClampedIndex(v, n) == ScaledIndex(v, n)
  {
    MulLeMono(v, LutSize - 1, n);
    MulLeMono(0, v, n);
  }

  /** Darker never comes before lighter: the raw position is non-decreasing in the intensity. */
  lemma ScaledIndexMonotone(v: Intensity, w: Intensity, n: nat)
    requires v <= w
    ensures ScaledIndex(v, n) <= ScaledIndex(w, n)
  {
    MulLeMono(v, w, n);
  }

  /**
   * Intensity 0 always takes the first (lightest) glyph, and intensity 255 takes
   * the last (darkest) glyph exactly when the ramp has at most 256 glyphs.
   */
  lemma RampEndpoints(n: nat)
    requires n > 0
    ensures ScaledIndex(0, n) == 0
    ensures ScaledIndex(255, n) == n - 1 <==> n <= LutSize
  {
    if n <= LutSize {
      DivModUnique(255 * n, LutSize, n - 1, LutSize - n);
    } else {
      ClampNeverFires(255, n);
      DivModUnique(255 * n, LutSize, ScaledIndex(255, n), (255 * n) % LutSize);
    }
  }

  /** Every entry of the table is the glyph at the unclamped position, hence a glyph of the ramp. */
  lemma LutEntries(ramp: string)
    requires |ramp| > 0
    ensures |Lut(ramp)| == LutSize
    ensures forall v: Intensity :: Lut(ramp)[v] == ramp[ScaledIndex(v, |ramp|)]
    ensures forall v: Intensity :: Lut(ramp)[v] in ramp
  {
    forall v: Intensity ensures Lut(ramp)[v] == ramp[ScaledIndex(v, |ramp|)] {
      ClampNeverFires(v, |ramp|);
    }
  }

  /** The table's ends: the lightest glyph at 0 and, for a ramp of at most 256 glyphs, the darkest at 255. */
  lemma LutEndpoints(ramp: string)
    requires |ramp| > 0
    ensures Lut(ramp)[0] == ramp[0]
    ensures |ramp| <= LutSize ==> Lut(ramp)[255] == ramp[|ramp| - 1]
  {
    LutEntries(ramp);
    RampEndpoints(|ramp|);
  }

  /** With the default ramp, black renders as a space and white as '@'. */
  lemma DefaultRampEndpoints()
    ensures Lut(AsciiRamp)[0] == ' '
    ensures Lut(AsciiRamp)[255] == '@'
  {
    LutEndpoints(AsciiRamp);
  }

  /** Builds the table entry by entry, clamping each raw position to the last glyph. */
  method BuildLut(ramp: string) returns (lut: seq<char>)
    requires |ramp| > 0
    ensures |lut| == LutSize
    ensures forall v: Intensity :: lut[v] == ramp[ScaledIndex(v, |ramp|)]
    ensures lut == Lut(ramp)
  {
    lut := [];
    var n := |ramp|;
    var lastIdx := n - 1;
    for v := 0 to LutSize
      invariant |lut| == v
      invariant forall k: Intensity :: k < v ==> lut[k] == ramp[ScaledIndex(k, n)]
    {
      var idx := (v * n) / LutSize;
      if idx > lastIdx {
        idx := lastIdx;
      }
      ClampNeverFires(v, n);
      lut := lut + [ramp[idx]];
    }
    LutEntries(ramp);
  }

  /** Renders a flat grayscale frame by passing every pixel, in order, through the table. */
  function FrameToAscii(pixels: seq<Intensity>, ramp: string): (s: string)
    requires |ramp| > 0
    ensures |s| == |pixels|
    ensures forall i :: 0 <= i < |pixels| ==> s[i] == ramp[ScaledIndex(pixels[i], |ramp|)]
  {
    LutEntries(ramp);
    var lut := Lut(ramp);
    seq(|pixels|, i requires 0 <= i < |pixels| => lut[pixels[i]])
  }

  /** Rendering is per pixel: rendering two pieces of a frame and concatenating is rendering the whole. */
  lemma FrameToAsciiConcat(a: seq<Intensity>, b: seq<Intensity>, ramp: string)
    requires |ramp| > 0
    ensures FrameToAscii(a + b, ramp) == FrameToAscii(a, ramp) + FrameToAscii(b, ramp)
  {
  }

  /**
   * Within a frame, a pixel at least as bright as another gets its glyph from
   * the same or a later position of the ramp.
   */
  lemma FrameToAsciiMonotone(pixels: seq<Intensity>, ramp: string, i: nat, j: nat)
    requires |ramp| > 0 && i < |pixels| && j < |pixels| && pixels[i] <= pixels[j]
    ensures ScaledIndex(pixels[i], |ramp|) <= ScaledIndex(pixels[j], |ramp|) < |ramp|
    ensures FrameToAscii(pixels, ramp)[i] == ramp[ScaledIndex(pixels[i], |ramp|)]
    ensures FrameToAscii(pixels, ramp)[j] == ramp[ScaledIndex(pixels[j], |ramp|)]
  {
    ScaledIndexMonotone(pixels[i], pixels[j], |ramp|);
    ClampNeverFires(pixels[j], |ramp|);
  }
}
