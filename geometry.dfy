/** Integer geometry of the puzzle: how the picture is cut into a 5x5 grid of
    fragments and where each grid position is drawn and hit-tested on screen
    (`run_game`, PYGAME_312.py lines 135-152, 164-167 and 193-198). */
module Geometry {

  import opened Wrappers

  const Rows: nat := 5
  const Cols: nat := 5
  /** Number of grid positions, `Rows * Cols`. */
  const TileCount: nat := 25
  /** Gap in pixels between two tiles on screen. */
  const Margin: nat := 2

  /** A pygame rectangle: left, top, width, height. */
  datatype Rect = Rect(x: int, y: int, w: int, h: int)

  /** `TILE_WIDTH = image_width // COLS`: the width of every fragment. The
      pixels left over on the right, fewer than `Cols`, belong to no fragment. */
  function TileWidth(imageWidth: nat): (tw: nat)
    ensures tw * Cols <= imageWidth < tw * Cols + Cols
  {
    imageWidth / Cols
  }

  /** `TILE_HEIGHT = image_height // ROWS`, with the same truncation. */
  function TileHeight(imageHeight: nat): (th: nat)
    ensures th * Rows <= imageHeight < th * Rows + Rows
  {
    imageHeight / Rows
  }

  /** The region of the picture that fragment `k` is cut from: fragments are
      cut row by row, so fragment `k` sits in row `k / Cols`, column `k % Cols`. */
  function CutRect(k: nat, tw: nat, th: nat): (r: Rect)
    ensures r.w == tw && r.h == th && 0 <= r.x && 0 <= r.y
    ensures k < TileCount ==> r.x + r.w <= Cols * tw && r.y + r.h <= Rows * th
  {
    var r := Rect((k % Cols) * tw, (k / Cols) * th, tw, th);
    if k < TileCount then
      MulMonotone(k % Cols + 1, Cols, tw);
      MulMonotone(k / Cols + 1, Rows, th);
      r
    else r
  }

  /** Two rectangles share a pixel (pygame rectangles are half-open). */
  predicate Overlap(a: Rect, b: Rect)
  {
    a.x < b.x + b.w && b.x < a.x + a.w && a.y < b.y + b.h && b.y < a.y + a.h
  }

  lemma MulMonotone(a: int, b: int, c: nat)
    requires a <= b
    ensures a * c <= b * c
  {
    assert b * c - a * c == (b - a) * c;
  }

  lemma RowMajor(i: nat, j: nat)
    requires j < Cols
    ensures (i * Cols + j) % Cols == j && (i * Cols + j) / Cols == i
  {
  }

  /** The nested loops of lines 147-152: for each row `i` and each column `j`,
      the fragment at `(j * TILE_WIDTH, i * TILE_HEIGHT)`. The list they build
      is, position by position, the row-major cut of `CutRect`. */
  method SliceImage(imageWidth: nat, imageHeight: nat) returns (cuts: seq<Rect>)
    ensures |cuts| == TileCount
    ensures forall k :: 0 <= k < TileCount ==>
      cuts[k] == CutRect(k, TileWidth(imageWidth), TileHeight(imageHeight))
  {
    var tw := TileWidth(imageWidth);
    var th := TileHeight(imageHeight);
    cuts := [];
    for i := 0 to Rows
      invariant |cuts| == i * Cols
      invariant forall k :: 0 <= k < |cuts| ==> cuts[k] == CutRect(k, tw, th)
    {
      for j := 0 to Cols
        invariant |cuts| == i * Cols + j
        invariant forall k :: 0 <= k < |cuts| ==> cuts[k] == CutRect(k, tw, th)
      {
        RowMajor(i, j);
        cuts := cuts + [Rect(j * tw, i * th, tw, th)];
      }
    }
  }

  /** Every fragment lies inside the `imageWidth` x `imageHeight` picture, so
      `image.subsurface(rect)` at line 151 never reaches outside it. */
  lemma CutWithinImage(k: nat, imageWidth: nat, imageHeight: nat)
    requires k < TileCount
    ensures var r := CutRect(k, TileWidth(imageWidth), TileHeight(imageHeight));
      0 <= r.x && r.x + r.w <= imageWidth && 0 <= r.y && r.y + r.h <= imageHeight
  {
  }

  /** No pixel of the picture belongs to two fragments. */
  lemma CutsDisjoint(k1: nat, k2: nat, tw: nat, th: nat)
    requires k1 < TileCount && k2 < TileCount && k1 != k2
    ensures !Overlap(CutRect(k1, tw, th), CutRect(k2, tw, th))
  {
    var c1, c2, r1, r2 := k1 % Cols, k2 % Cols, k1 / Cols, k2 / Cols;
    if c1 < c2 {
      MulMonotone(c1 + 1, c2, tw);
    } else if c2 < c1 {
      MulMonotone(c2 + 1, c1, tw);
    } else if r1 < r2 {
      MulMonotone(r1 + 1, r2, th);
    } else {
      assert r2 < r1;
      MulMonotone(r2 + 1, r1, th);
    }
  }

  /** Left edge on screen of grid position `i` (lines 164-166 and 194-196).
      The row is taken as `i // ROWS` and the column as `i % COLS`. */
  function ScreenX(i: nat, tw: nat): (x: int)
    ensures Margin <= x && x + tw <= Cols * (tw + Margin)
  {
    MulMonotone(i % Cols + 1, Cols, tw + Margin);
    assert (i % Cols + 1) * (tw + Margin) == (i % Cols) * (tw + Margin) + tw + Margin;
    (i % Cols) * (tw + Margin) + Margin
  }

  /** Top edge on screen of grid position `i` (lines 164, 167, 194, 197). */
  function ScreenY(i: nat, th: nat): (y: int)
    ensures Margin <= y
    ensures i < TileCount ==> y + th <= Rows * (th + Margin)
  {
    var y := (i / Rows) * (th + Margin) + Margin;
    if i < TileCount then
      MulMonotone(i / Rows + 1, Rows, th + Margin);
      assert (i / Rows + 1) * (th + Margin) == (i / Rows) * (th + Margin) + th + Margin;
      y
    else y
  }

  /** The hit test of line 198, with both bounds inclusive. */
  predicate Hits(i: nat, tw: nat, th: nat, mx: int, my: int)
    ensures i < TileCount && Hits(i, tw, th, mx, my) ==>
      Margin <= mx <= Cols * (tw + Margin) && Margin <= my <= Rows * (th + Margin)
  {
    ScreenX(i, tw) <= mx <= ScreenX(i, tw) + tw && ScreenY(i, th) <= my <= ScreenY(i, th) + th
  }

  /** Two screen bands `c1 < c2` of width `size + 1` (inclusive bounds) are
      separated, because consecutive bands start `size + Margin` apart. */
  lemma BandsSeparated(c1: nat, c2: nat, size: nat)
    requires c1 < c2
    ensures c1 * (size + Margin) + Margin + size < c2 * (size + Margin) + Margin
  {
    MulMonotone(c1 + 1, c2, size + Margin);
  }

  /** With `MARGIN = 2` no mouse point lies in the inclusive hit rectangles of
      two different grid positions. */
  lemma HitUnique(i: nat, j: nat, tw: nat, th: nat, mx: int, my: int)
    requires i < TileCount && j < TileCount
    requires Hits(i, tw, th, mx, my) && Hits(j, tw, th, mx, my)
    ensures i == j
  {
    var ci, cj, ri, rj := i % Cols, j % Cols, i / Rows, j / Rows;
    if ci < cj {
      BandsSeparated(ci, cj, tw);
    } else if cj < ci {
      BandsSeparated(cj, ci, tw);
    } else if ri < rj {
      BandsSeparated(ri, rj, th);
    } else if rj < ri {
      BandsSeparated(rj, ri, th);
    }
  }

  /** The first grid position at or after `from` that the point hits. */
  function FirstHit(from: nat, tw: nat, th: nat, mx: int, my: int): (r: Option<nat>)
    requires from <= TileCount
    ensures r.Some? ==> from <= r.value < TileCount && Hits(r.value, tw, th, mx, my)
    ensures r.None? ==> forall i :: from <= i < TileCount ==> !Hits(i, tw, th, mx, my)
    decreases TileCount - from
  {
    if from == TileCount then None
    else if Hits(from, tw, th, mx, my) then Some(from)
    else FirstHit(from + 1, tw, th, mx, my)
  }

  /** The grid position under the mouse, if any. */
  function HitTile(tw: nat, th: nat, mx: int, my: int): (r: Option<nat>)
    ensures r.Some? ==> r.value < TileCount && Hits(r.value, tw, th, mx, my)
    ensures r.None? ==> forall i :: 0 <= i < TileCount ==> !Hits(i, tw, th, mx, my)
  {
    FirstHit(0, tw, th, mx, my)
  }

  /** A grid position is hit exactly when it is the one `HitTile` names. */
  lemma HitTileExact(i: nat, tw: nat, th: nat, mx: int, my: int)
    requires i < TileCount
    ensures Hits(i, tw, th, mx, my) <==> HitTile(tw, th, mx, my) == Some(i)
  {
    if Hits(i, tw, th, mx, my) {
      var h := HitTile(tw, th, mx, my);
      HitUnique(i, h.value, tw, th, mx, my);
    }
  }
}
