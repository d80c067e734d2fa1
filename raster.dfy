/**
 * The frame rasterizer's integer parts: the target grid of a resize (at least
 * one row) and the split of a rendered frame into rows of the grid's width.
 */
module Raster {
  import Frames

  /** The character grid a frame is resized to. */
  datatype Size = Size(width: int, height: int)

  /**
   * The target grid for `targetWidth` columns, given the height computed from the
   * source aspect ratio: the width is kept and the height is raised to one row
   * when the computation gives less.
   */
  function ResizeForAscii(targetWidth: int, computedHeight: int): (size: Size)
    ensures size.width == targetWidth
    ensures size.height >= 1
    ensures computedHeight >= 1 ==> size.height == computedHeight
    ensures computedHeight < 1 ==> size.height == 1
  {
    var newHeight := if computedHeight < 1 then 1 else computedHeight;
    Size(targetWidth, newHeight)
  }

  /** The smaller of two offsets; a slice end past the string is cut at its length. */
  function Min(a: int, b: int): (m: int) { if a <= b then a else b }

  /**
   * The offset at which row `k` starts. It is kept as a function of its own,
   * rather than the bare product, so that the quantified row facts below have
   * a term to trigger on.
   */
  function RowStart(k: nat, width: nat): (offset: nat) { k * width }

  /**
   * The rows of a flat frame string: consecutive slices of `width` characters,
   * the last one holding what remains.
   */
  function Rows(s: string, width: nat): (rows: seq<string>)
    requires width > 0
    ensures |s| > 0 <==> |rows| > 0
    ensures |rows| <= |s|
    decreases |s|
  {
    if |s| == 0 then []
    else
      var end := Min(width, |s|);
      [s[..end]] + Rows(s[end..], width)
  }

  /** Concatenation of rows with no separator. */
  function Concat(rows: seq<string>): (s: string)
  {
    if rows == [] then [] else rows[0] + Concat(rows[1..])
  }

  /** Joining the rows gives back the frame string exactly. */
  lemma {:induction false} RowsConcat(s: string, width: nat)
    requires width > 0
    ensures Concat(Rows(s, width)) == s
    decreases |s|
  {
    if |s| > 0 {
      var end := Min(width, |s|);
      RowsConcat(s[end..], width);
      assert Rows(s, width)[1..] == Rows(s[end..], width);
      assert s == s[..end] + s[end..];
    }
  }

  /** There are ceil(|s| / width) rows. */
  lemma {:induction false} RowsCount(s: string, width: nat)
    requires width > 0
    ensures |Rows(s, width)| == (|s| + width - 1) / width
    decreases |s|
  {
    if |s| == 0 {
      Frames.DivModUnique(width - 1, width, 0, width - 1);
    } else if |s| <= width {
      Frames.DivModUnique(|s| + width - 1, width, 1, |s| - 1);
    } else {
      RowsCount(s[width..], width);
      var q := (|s| - width + width - 1) / width;
      var r := (|s| - width + width - 1) % width;
      Frames.DivModUnique(|s| + width - 1, width, q + 1, r);
    }
  }

  /** Every row is non-empty and at most `width` long, and every row but the last is exactly `width` long. */
  lemma {:induction false} RowsShape(s: string, width: nat)
    requires width > 0
    ensures forall k :: 0 <= k < |Rows(s, width)| ==> 0 < |Rows(s, width)[k]| <= width
    ensures forall k :: 0 <= k < |Rows(s, width)| - 1 ==> |Rows(s, width)[k]| == width
    decreases |s|
  {
    if |s| > 0 {
      var end := Min(width, |s|);
      RowsShape(s[end..], width);
      assert Rows(s, width)[1..] == Rows(s[end..], width);
    }
  }

  /** Row `k` is the slice of `width` characters starting at offset `k * width`, cut at the end of the string. */
  lemma {:induction false} RowAt(s: string, width: nat, k: nat)
    requires width > 0 && k < |Rows(s, width)|
    ensures RowStart(k, width) < |s|
    ensures Rows(s, width)[k] == s[RowStart(k, width) .. Min(RowStart(k + 1, width), |s|)]
    decreases |s|
  {
    if k > 0 {
      var t := s[width..];
      assert Rows(s, width) == [s[..width]] + Rows(t, width);
      RowAt(t, width, k - 1);
      var lo, hi := RowStart(k - 1, width), Min(RowStart(k, width), |t|);
      assert lo + width == RowStart(k, width) by { assert (k - 1) * width + width == k * width; }
      assert hi + width == Min(RowStart(k + 1, width), |s|) by { assert k * width + width == (k + 1) * width; }
      assert t[lo..hi] == s[lo + width .. hi + width];
    }
  }

  /** In a frame of `height` full rows, row `k` is the `k`-th run of `width` characters. */
  lemma FullRowAt(s: string, width: nat, height: nat, k: nat)
    requires width > 0 && |s| == width * height && k < height
    ensures k < |Rows(s, width)|
    ensures RowStart(k, width) + width <= |s|
    ensures Rows(s, width)[k] == s[RowStart(k, width) .. RowStart(k, width) + width]
  {
    RowsCount(s, width);
    Frames.DivModUnique(height * width + width - 1, width, height, width - 1);
    Frames.MulLeMono(k + 1, height, width);
    RowAt(s, width, k);
  }

  /** A frame of `height` full rows splits into exactly `height` rows, each `width` long. */
  lemma RowsOfGrid(s: string, width: nat, height: nat)
    requires width > 0 && |s| == width * height
    ensures |Rows(s, width)| == height
    ensures forall k :: 0 <= k < height ==>
      RowStart(k, width) + width <= |s| && Rows(s, width)[k] == s[RowStart(k, width) .. RowStart(k, width) + width]
  {
    RowsCount(s, width);
    Frames.DivModUnique(height * width + width - 1, width, height, width - 1);
    forall k | 0 <= k < height
      ensures RowStart(k, width) + width <= |s| && Rows(s, width)[k] == s[RowStart(k, width) .. RowStart(k, width) + width]
    {
      FullRowAt(s, width, height, k);
    }
  }
}
