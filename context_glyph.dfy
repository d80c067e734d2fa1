/**
 * The contextual-gradient glyph mapper: each pixel is classified from its own
 * intensity and its four neighbours (missing neighbours read as black) into an
 * isolated star, empty background, solid fill, or an edge glyph chosen by the
 * dominant gradient axis.
 */
module ContextGlyph {
  import opened Frames

  /** A pixel brighter than this whose neighbours are all dark is a star. */
  const StarThreshold: int := 21
  /** Every neighbour of a star is darker than this. */
  const StarNeighbourMax: int := 20
  /** A pixel darker than this is background. */
  const EmptyThreshold: int := 10
  /** A pixel brighter than this is solid fill. */
  const FullThreshold: int := 200
  /** A gradient beyond this magnitude picks the glyph for the side the light comes from. */
  const GradientStrong: int := 50

  /** The keys of the glyph table. */
  datatype Shape = Empty | Full | Top | Bottom | Left | Right | Vertical | Horizontal | Star

  /** The glyph table: the character drawn for each shape. The top glyph is U+2033, DOUBLE PRIME. */
  function AsciiChar(shape: Shape): (c: char)
  {
    match shape
    case Empty => ' '
    case Full => '@'
    case Top => '\U{2033}'
    case Bottom => '_'
    case Left => ')'
    case Right => '('
    case Vertical => '|'
    case Horizontal => '-'
    case Star => '.'
  }

  /** The nine values of the glyph table. */
  const AsciiChars: set<char> := {' ', '@', '\U{2033}', '_', ')', '(', '|', '-', '.'}

  /** The table has nine distinct glyphs, so a drawn glyph names its shape, and they are exactly `AsciiChars`. */
  lemma AsciiCharTable(a: Shape, b: Shape)
    ensures AsciiChar(a) in AsciiChars
    ensures AsciiChar(a) == AsciiChar(b) <==> a == b
    ensures forall c :: c in AsciiChars ==> exists s: Shape :: AsciiChar(s) == c
  {
    forall c | c in AsciiChars ensures exists s: Shape :: AsciiChar(s) == c {
      if c == ' ' { assert AsciiChar(Empty) == c; }
      else if c == '@' { assert AsciiChar(Full) == c; }
      else if c == '\U{2033}' { assert AsciiChar(Top) == c; }
      else if c == '_' { assert AsciiChar(Bottom) == c; }
      else if c == ')' { assert AsciiChar(Left) == c; }
      else if c == '(' { assert AsciiChar(Right) == c; }
      else if c == '|' { assert AsciiChar(Vertical) == c; }
      else if c == '-' { assert AsciiChar(Horizontal) == c; }
      else { assert AsciiChar(Star) == c; }
    }
  }

  /**
   * The sample at column `px` of row `py` of a `width` x `height` frame, or 0
   * (black) for any coordinate outside the frame.
   */
  function GetPixel(pixels: seq<Intensity>, px: int, py: int, width: nat, height: nat): (v: Intensity)
    requires |pixels| == width * height
    ensures !(0 <= px < width && 0 <= py < height) ==> v == 0
    ensures 0 <= px < width && 0 <= py < height ==>
      0 <= RowMajor(px, py, width) < |pixels| && v == pixels[RowMajor(px, py, width)]
  {
    if 0 <= px < width && 0 <= py < height then
      RowMajorInRange(px, py, width, height);
      pixels[RowMajor(px, py, width)]
    else
      0
  }

  /** The five samples a pixel is classified from. */
  datatype Neighbourhood = Neighbourhood(current: int, top: int, bottom: int, left: int, right: int)
  {
    function VGradient(): int { bottom - top }
    function HGradient(): int { right - left }

    /** A bright pixel with no neighbour reaching the neighbour bound. */
    predicate IsStar()
    {
      current > StarThreshold && top < StarNeighbourMax && bottom < StarNeighbourMax
      && left < StarNeighbourMax && right < StarNeighbourMax
    }
    predicate IsEmpty() { current < EmptyThreshold }
    predicate IsFull() { current > FullThreshold }
    predicate IsVertical() { Abs(VGradient()) > Abs(HGradient()) }
  }

  /** The magnitude of a gradient. */
  function Abs(a: int): (m: nat) { if a < 0 then -a else a }

  /** The vertical axis dominates exactly when its gradient has the larger square. */
  lemma NeighbourhoodTests(n: Neighbourhood)
    ensures n.IsVertical() <==> n.VGradient() * n.VGradient() > n.HGradient() * n.HGradient()
  {
    var a, b := Abs(n.VGradient()), Abs(n.HGradient());
    assert a * a == n.VGradient() * n.VGradient();
    assert b * b == n.HGradient() * n.HGradient();
    if a > b {
      Frames.MulLeMono(b, a, b);
      Frames.MulLeMono(b + 1, a, a);
    } else {
      Frames.MulLeMono(a, b, a);
      Frames.MulLeMono(a, b, b);
    }
  }

  /** Whether column `px` of row `py` lies inside a `width` x `height` frame. */
  predicate InFrame(px: int, py: int, width: nat, height: nat)
  {
    0 <= px < width && 0 <= py < height
  }

  /**
   * The samples around column `x` of row `y`: the pixel itself and the pixels
   * above, below, to the left and to the right, each read at its row-major
   * position when inside the frame and as 0 otherwise.
   */
  function Around(pixels: seq<Intensity>, x: int, y: int, width: nat, height: nat): (n: Neighbourhood)
    requires |pixels| == width * height
    ensures InFrame(x, y, width, height) ==>
      0 <= RowMajor(x, y, width) < |pixels| && n.current == pixels[RowMajor(x, y, width)]
    ensures !InFrame(x, y, width, height) ==> n.current == 0
    ensures InFrame(x, y - 1, width, height) ==>
      0 <= RowMajor(x, y - 1, width) < |pixels| && n.top == pixels[RowMajor(x, y - 1, width)]
    ensures !InFrame(x, y - 1, width, height) ==> n.top == 0
    ensures InFrame(x, y + 1, width, height) ==>
      0 <= RowMajor(x, y + 1, width) < |pixels| && n.bottom == pixels[RowMajor(x, y + 1, width)]
    ensures !InFrame(x, y + 1, width, height) ==> n.bottom == 0
    ensures InFrame(x - 1, y, width, height) ==>
      0 <= RowMajor(x - 1, y, width) < |pixels| && n.left == pixels[RowMajor(x - 1, y, width)]
    ensures !InFrame(x - 1, y, width, height) ==> n.left == 0
    ensures InFrame(x + 1, y, width, height) ==>
      0 <= RowMajor(x + 1, y, width) < |pixels| && n.right == pixels[RowMajor(x + 1, y, width)]
    ensures !InFrame(x + 1, y, width, height) ==> n.right == 0
    ensures 0 <= n.current < 256 && 0 <= n.top < 256 && 0 <= n.bottom < 256
    ensures 0 <= n.left < 256 && 0 <= n.right < 256
  {
    Neighbourhood(
      GetPixel(pixels, x, y, width, height),
      GetPixel(pixels, x, y - 1, width, height),
      GetPixel(pixels, x, y + 1, width, height),
      GetPixel(pixels, x - 1, y, width, height),
      GetPixel(pixels, x + 1, y, width, height))
  }

  /** The first-match classification: star, then empty, then full, then the dominant gradient axis. */
  function Classify(n: Neighbourhood): (c: char)
    ensures c in AsciiChars
  {
    if n.IsStar() then AsciiChar(Star)
    else if n.IsEmpty() then AsciiChar(Empty)
    else if n.IsFull() then AsciiChar(Full)
    else if n.IsVertical() then
      if n.VGradient() > GradientStrong then AsciiChar(Bottom)
      else if n.VGradient() < -GradientStrong then AsciiChar(Top)
      else AsciiChar(Vertical)
    else
      if n.HGradient() > GradientStrong then AsciiChar(Right)
      else if n.HGradient() < -GradientStrong then AsciiChar(Left)
      else AsciiChar(Horizontal)
  }

  /** The glyph for column `x` of row `y` of the frame. */
  function AnalyzeContext(pixels: seq<Intensity>, x: int, y: int, width: nat, height: nat): (c: char)
    requires |pixels| == width * height
    ensures c in AsciiChars
  {
    Classify(Around(pixels, x, y, width, height))
  }

  /** A star is recognised before anything else, and '.' is drawn for stars only. */
  lemma StarCase(n: Neighbourhood)
    ensures Classify(n) == '.' <==> n.current > 21 && n.top < 20 && n.bottom < 20 && n.left < 20 && n.right < 20
  {
  }

  /** Every pixel darker than 10 is background (it cannot be a star, as 10 <= 21); ' ' is drawn for those only. */
  lemma EmptyCase(n: Neighbourhood)
    ensures n.current < 10 ==> Classify(n) == ' '
    ensures Classify(n) == ' ' ==> n.current < 10
  {
  }

  /** A pixel brighter than 200 with some neighbour of at least 20 is solid whatever the gradients; '@' means exactly that. */
  lemma FullCase(n: Neighbourhood)
    ensures Classify(n) == '@' <==>
      n.current > 200 && (n.top >= 20 || n.bottom >= 20 || n.left >= 20 || n.right >= 20)
  {
  }

  /**
   * Edge glyphs are drawn only for mid-range pixels that are not stars; a
   * strictly dominant vertical gradient picks the vertical family, otherwise
   * (ties included) the horizontal family.
   */
  lemma GradientFamilies(n: Neighbourhood)
    ensures Classify(n) in {'_', '\U{2033}', '|'} <==>
      10 <= n.current <= 200 && !n.IsStar() && Abs(n.bottom - n.top) > Abs(n.right - n.left)
    ensures Classify(n) in {'(', ')', '-'} <==>
      10 <= n.current <= 200 && !n.IsStar() && Abs(n.bottom - n.top) <= Abs(n.right - n.left)
  {
  }

  /** Within the chosen axis: beyond +50 the bottom/right glyph, beyond -50 the top/left glyph, else the plain one. */
  lemma GradientGlyphs(n: Neighbourhood)
    requires 10 <= n.current <= 200 && !n.IsStar()
    ensures n.IsVertical() ==>
      Classify(n) == (if n.bottom - n.top > 50 then '_' else if n.bottom - n.top < -50 then '\U{2033}' else '|')
    ensures !n.IsVertical() ==>
      Classify(n) == (if n.right - n.left > 50 then '(' else if n.right - n.left < -50 then ')' else '-')
  {
  }

  /** A pixel outside the frame reads as black and is drawn as background. */
  lemma OutsideIsEmpty(pixels: seq<Intensity>, x: int, y: int, width: nat, height: nat)
    requires |pixels| == width * height
    requires !(0 <= x < width && 0 <= y < height)
    ensures AnalyzeContext(pixels, x, y, width, height) == ' '
  {
  }

  /** The glyphs of a whole frame, in row-major order, as a value. */
  function ContextFrame(pixels: seq<Intensity>, width: nat, height: nat): (frame: seq<char>)
    requires |pixels| == width * height
  {
    seq(width * height, i requires 0 <= i < width * height =>
      AnalyzeContext(pixels, i % width, i / width, width, height))
  }

  /** The row-major position of column `x` of row `y` in the rendered frame holds that pixel's glyph. */
  lemma ContextFrameAt(pixels: seq<Intensity>, width: nat, height: nat, x: int, y: int)
    requires |pixels| == width * height
    requires 0 <= x < width && 0 <= y < height
    ensures 0 <= RowMajor(x, y, width) < |ContextFrame(pixels, width, height)|
    ensures ContextFrame(pixels, width, height)[RowMajor(x, y, width)] == AnalyzeContext(pixels, x, y, width, height)
  {
    RowMajorInRange(x, y, width, height);
    RowMajorDivMod(x, y, width);
  }

  /** The rendered frame has one glyph per pixel, each at its pixel's row-major position. */
  lemma ContextFrameRowMajor(pixels: seq<Intensity>, width: nat, height: nat)
    requires |pixels| == width * height
    ensures |ContextFrame(pixels, width, height)| == width * height
    ensures forall y, x :: 0 <= y < height && 0 <= x < width ==>
      0 <= RowMajor(x, y, width) < width * height
      && ContextFrame(pixels, width, height)[RowMajor(x, y, width)] == AnalyzeContext(pixels, x, y, width, height)
  {
    forall y, x | 0 <= y < height && 0 <= x < width
      ensures 0 <= RowMajor(x, y, width) < width * height
      ensures ContextFrame(pixels, width, height)[RowMajor(x, y, width)] == AnalyzeContext(pixels, x, y, width, height)
    {
      ContextFrameAt(pixels, width, height, x, y);
    }
  }

  /** Classifies every pixel of the frame, row by row and left to right. */
  method PixelsToAscii(pixels: seq<Intensity>, width: nat, height: nat) returns (s: string)
    requires |pixels| == width * height
    ensures s == ContextFrame(pixels, width, height)
    ensures |s| == width * height
    ensures forall y, x :: 0 <= y < height && 0 <= x < width ==>
      0 <= RowMajor(x, y, width) < |s| && s[RowMajor(x, y, width)] == AnalyzeContext(pixels, x, y, width, height)
  {
    ghost var frame := ContextFrame(pixels, width, height);
    var chars: seq<char> := [];
    for y := 0 to height
      invariant |chars| == y * width <= |frame|
      invariant chars == frame[..|chars|]
    {
      for x := 0 to width
        invariant |chars| == y * width + x <= |frame|
        invariant chars == frame[..|chars|]
      {
        ContextFrameAt(pixels, width, height, x, y);
        assert frame[..|chars| + 1] == frame[..|chars|] + [frame[RowMajor(x, y, width)]];
        chars := chars + [AnalyzeContext(pixels, x, y, width, height)];
      }
      assert y * width + width == (y + 1) * width;
      MulLeMono(y + 1, height, width);
    }
    assert |chars| == |frame|;
    s := chars;
    ContextFrameRowMajor(pixels, width, height);
  }
}
