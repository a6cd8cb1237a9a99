/**
 * Full-page PNG export: the capture size, the choice between one snapshot and a stitched series of
 * tiles, the tile geometry and the vertical offsets the tiles are drawn at, and the four style
 * fields that are stretched for the capture and put back on every way out. Rendering, image
 * loading, the file picker and the download are outside the model: whether one of those steps
 * throws is an input.
 */
module Png {
  import opened Wrappers
  import opened JsString

  function Max(a: int, b: int): int { if a >= b then a else b }
  function Min(a: int, b: int): int { if a <= b then a else b }

  /**
   * `Math.max(root.scrollX, documentElement.scrollX, document.body?.scrollX || 0)`: the capture
   * extent along one axis.
   */
  function ContentSize(root: nat, document: nat, body: Option<nat>): (r: nat)
    ensures r >= root && r >= document && (body.Some? ==> r >= body.value)
    ensures r == root || r == document || (body.Some? && r == body.value)
  {
    Max(Max(root, document), if body.Some? then body.value else 0)
  }

  /** The tallest capture taken in one snapshot. */
  const MaxSafe: nat := 28000

  /** `Math.min(window.innerHeight || 1200, 2000)`. */
  function TileHeight(innerHeight: nat): (r: nat)
    ensures 0 < r <= 2000
    ensures innerHeight == 0 ==> r == 1200
    ensures innerHeight > 0 ==> r == Min(innerHeight, 2000)
  {
    Min(if innerHeight == 0 then 1200 else innerHeight, 2000)
  }

  /** `Math.ceil(a / b)` for whole numbers. */
  function CeilDiv(a: nat, b: nat): (r: nat)
    requires b > 0
    ensures a == 0 ==> r == 0
    ensures a > 0 ==> (r - 1) * b < a <= r * b
  {
    var q := (a + b - 1) / b;
    assert a + b - 1 == q * b + (a + b - 1) % b;
    q
  }

  /** One slice of the page: its offset from the top and its height. */
  datatype Tile = Tile(top: nat, height: nat)

  /** Tile `i` of a page `height` tall cut into slices `tileH` tall. */
  function TileAt(height: nat, tileH: nat, i: nat): Tile
    requires tileH > 0 && i < CeilDiv(height, tileH)
  {
    Tile(i * tileH, Min(tileH, height - i * tileH))
  }

  /** The loop of `exportByTiling` that asks for one rendering per tile. */
  method TilePlan(height: nat, tileH: nat) returns (tiles: seq<Tile>)
    requires tileH > 0
    ensures |tiles| == CeilDiv(height, tileH)
    ensures forall i :: 0 <= i < |tiles| ==> tiles[i] == TileAt(height, tileH, i)
  {
    var total := CeilDiv(height, tileH);
    tiles := [];
    var i := 0;
    while i < total
      invariant 0 <= i <= total && |tiles| == i
      invariant forall j :: 0 <= j < i ==> tiles[j] == TileAt(height, tileH, j)
    {
      var top := i * tileH;
      assert top < height by { TopBelow(height, tileH, i); }
      tiles := tiles + [Tile(top, Min(tileH, height - top))];
      i := i + 1;
    }
  }

  /** Every tile starts above the bottom of the page. */
  lemma TopBelow(height: nat, tileH: nat, i: nat)
    requires tileH > 0 && i < CeilDiv(height, tileH)
    ensures i * tileH < height
  {
    var n := CeilDiv(height, tileH);
    MulMono(i, n - 1, tileH);
  }

  lemma MulMono(a: nat, b: nat, c: nat)
    requires a <= b
    ensures a * c <= b * c
  {
  }

  /** The heights of a series of tiles. */
  function Heights(tiles: seq<Tile>): (r: seq<nat>)
    ensures |r| == |tiles| && forall i :: 0 <= i < |tiles| ==> r[i] == tiles[i].height
  {
    seq(|tiles|, i requires 0 <= i < |tiles| => tiles[i].height)
  }

  function Sum(s: seq<nat>): nat
  {
    if |s| == 0 then 0 else Sum(s[..|s| - 1]) + s[|s| - 1]
  }

  /** The loop of `exportByTiling` that draws each image below the previous one. */
  method DrawOffsets(heights: seq<nat>) returns (ys: seq<nat>, y: nat)
    ensures |ys| == |heights| && y == Sum(heights)
    ensures forall i :: 0 <= i < |heights| ==> ys[i] == Sum(heights[..i])
  {
    ys, y := [], 0;
    var i := 0;
    while i < |heights|
      invariant 0 <= i <= |heights| && |ys| == i && y == Sum(heights[..i])
      invariant forall j :: 0 <= j < i ==> ys[j] == Sum(heights[..j])
    {
      ys := ys + [y];
      assert heights[..i + 1][..i] == heights[..i];
      y := y + heights[i];
      i := i + 1;
    }
    assert heights[..|heights|] == heights;
  }

  /** All tiles but the last are a full `tileH` tall, and every tile is at least one pixel tall. */
  lemma TileHeights(height: nat, tileH: nat, i: nat)
    requires tileH > 0 && i < CeilDiv(height, tileH)
    ensures TileAt(height, tileH, i).height > 0
    ensures i + 1 < CeilDiv(height, tileH) ==> TileAt(height, tileH, i).height == tileH
    ensures i + 1 == CeilDiv(height, tileH) ==> TileAt(height, tileH, i).top + TileAt(height, tileH, i).height == height
  {
    TopBelow(height, tileH, i);
    if i + 1 < CeilDiv(height, tileH) {
      TopBelow(height, tileH, i + 1);
      assert (i + 1) * tileH == i * tileH + tileH;
    } else {
      assert height <= (i + 1) * tileH == i * tileH + tileH;
    }
  }

  /**
   * The tiles lie edge to edge: the images stacked from the top, each as tall as its tile, are
   * drawn exactly at the tiles' offsets, and together they are as tall as the page.
   */
  lemma {:induction false} TilesStack(height: nat, tileH: nat, tiles: seq<Tile>, hs: seq<nat>, i: nat)
    requires tileH > 0 && |tiles| == CeilDiv(height, tileH)
    requires forall j :: 0 <= j < |tiles| ==> tiles[j] == TileAt(height, tileH, j)
    requires hs == Heights(tiles) && i <= |tiles|
    ensures i < |tiles| ==> Sum(hs[..i]) == i * tileH
    ensures i == |tiles| ==> Sum(hs[..i]) == height
  {
    if i == 0 {
      assert hs[..0] == [];
    } else {
      TilesStack(height, tileH, tiles, hs, i - 1);
      SumSnoc(hs, i);
      TileHeights(height, tileH, i - 1);
      MulSucc(i, tileH);
    }
  }

  lemma SumSnoc(hs: seq<nat>, i: nat)
    requires 0 < i <= |hs|
    ensures Sum(hs[..i]) == Sum(hs[..i - 1]) + hs[i - 1]
  {
    assert hs[..i][..i - 1] == hs[..i - 1];
  }

  lemma MulSucc(i: nat, c: nat)
    requires i > 0
    ensures i * c == (i - 1) * c + c
  {
  }

  /** The tile plan cuts the page into slices that cover it without gap or overlap. */
  lemma PlanCovers(height: nat, tileH: nat, tiles: seq<Tile>, hs: seq<nat>)
    requires tileH > 0 && |tiles| == CeilDiv(height, tileH)
    requires forall j :: 0 <= j < |tiles| ==> tiles[j] == TileAt(height, tileH, j)
    requires hs == Heights(tiles)
    ensures Sum(hs) == height
    ensures forall i :: 0 <= i < |tiles| ==> tiles[i].height > 0 && Sum(hs[..i]) == tiles[i].top
  {
    TilesStack(height, tileH, tiles, hs, |tiles|);
    assert hs[..|tiles|] == hs;
    forall i | 0 <= i < |tiles|
      ensures tiles[i].height > 0 && Sum(hs[..i]) == tiles[i].top
    {
      TilesStack(height, tileH, tiles, hs, i);
      TileHeights(height, tileH, i);
    }
  }

  /** The inline styles the export changes. */
  datatype Styles = Styles(htmlOverflow: string, bodyOverflow: string, rootWidth: string, rootHeight: string)

  /** `${n}px`. */
  function Px(n: nat): string
  {
    NatToString(n) + "px"
  }

  /** How the page was captured. */
  datatype Capture = Single(width: nat, height: nat) | Tiled(width: nat, tiles: seq<Tile>, offsets: seq<nat>)

  /** `{ok: true, blob}` or `{ok: false, error}`. */
  datatype ExportResult = Exported(capture: Capture) | Failed(error: string)

  /** The page's inline styles that `exportFullPagePng` touches. */
  class Page {
    var htmlOverflow: string
    var bodyOverflow: string
    var rootWidth: string
    var rootHeight: string

    constructor(s: Styles)
      ensures Current() == s
    {
      htmlOverflow, bodyOverflow, rootWidth, rootHeight := s.htmlOverflow, s.bodyOverflow, s.rootWidth, s.rootHeight;
    }

    function Current(): Styles
      reads this
    {
      Styles(htmlOverflow, bodyOverflow, rootWidth, rootHeight)
    }

    /**
     * `exportFullPagePng`: without a root nothing is touched; otherwise scrolling is switched off
     * and the root stretched to the content for the capture, which is one snapshot up to
     * `MaxSafe` and a tile series beyond; a throwing step makes the result an error; and on
     * every way out the four styles are what they were.
     */
    method ExportFullPage(selector: string, rootFound: bool, width: nat, height: nat, innerHeight: nat,
                          thrown: Option<string>) returns (r: ExportResult, during: Option<Styles>)
      modifies this
      ensures Current() == old(Current())
      ensures !rootFound ==> r == Failed("Root not found: " + selector) && during.None?
      ensures rootFound ==> during == Some(Styles("hidden", "hidden", Px(width), Px(height)))
      ensures rootFound && thrown.Some? ==> r == Failed(thrown.value)
      ensures rootFound && thrown.None? && height <= MaxSafe ==> r == Exported(Single(width, height))
      ensures rootFound && thrown.None? && height > MaxSafe ==>
        r.Exported? && r.capture.Tiled? && r.capture.width == width
        && |r.capture.tiles| == CeilDiv(height, TileHeight(innerHeight))
        && (forall i :: 0 <= i < |r.capture.tiles| ==>
              r.capture.tiles[i] == TileAt(height, TileHeight(innerHeight), i))
        && |r.capture.offsets| == |r.capture.tiles|
        && (forall i :: 0 <= i < |r.capture.tiles| ==> r.capture.offsets[i] == r.capture.tiles[i].top)
    {
      if !rootFound {
        return Failed("Root not found: " + selector), None;
      }
      var prev := Current();
      htmlOverflow := "hidden";
      bodyOverflow := "hidden";
      rootWidth := Px(width);
      rootHeight := Px(height);
      during := Some(Current());
      if thrown.Some? {
        r := Failed(thrown.value);
      } else if height <= MaxSafe {
        r := Exported(Single(width, height));
      } else {
        var tileH := TileHeight(innerHeight);
        var tiles := TilePlan(height, tileH);
        var ys, y := DrawOffsets(Heights(tiles));
        PlanCovers(height, tileH, tiles, Heights(tiles));
        r := Exported(Tiled(width, tiles, ys));
      }
      htmlOverflow := prev.htmlOverflow;
      bodyOverflow := prev.bodyOverflow;
      rootWidth := prev.rootWidth;
      rootHeight := prev.rootHeight;
    }
  }
}
