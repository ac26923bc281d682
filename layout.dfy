/** Stage 1: placing the glyphs of a text side by side on a grayscale canvas
    (`generate_kanji_image`). Each glyph is given by its pixel bounding box and
    the coverage byte the font rasteriser reports for every pixel of that box. */
module KanjiImage {
  import opened Raster

  /** Horizontal gap in pixels between two neighbouring glyph boxes. */
  const Padding: nat := 10

  /** A laid-out glyph: the size of its pixel bounding box and, row by row, the
      coverage byte of each pixel of the box. A glyph without a bounding box
      (a space, say) is the empty 0 × 0 box. */
  datatype Glyph = Glyph(width: nat, height: nat, coverage: seq<seq<Byte>>)
  {
    /** The coverage grid covers exactly the bounding box. */
    predicate Valid() {
      |coverage| == height && forall gy :: 0 <= gy < height ==> |coverage[gy]| == width
    }
  }

  predicate AllValid(glyphs: seq<Glyph>) {
    forall k :: 0 <= k < |glyphs| ==> glyphs[k].Valid()
  }

  function Max(a: nat, b: nat): nat {
    if a < b then b else a
  }

  /** Sum of the box widths, accumulated front to back as the first loop does. */
  function SumWidths(glyphs: seq<Glyph>): nat {
    if glyphs == [] then 0
    else SumWidths(glyphs[..|glyphs| - 1]) + glyphs[|glyphs| - 1].width
  }

  /** Height of the tallest box, accumulated front to back as the first loop does. */
  function MaxHeight(glyphs: seq<Glyph>): nat {
    if glyphs == [] then 0
    else Max(MaxHeight(glyphs[..|glyphs| - 1]), glyphs[|glyphs| - 1].height)
  }

  /** Canvas width: all box widths plus one gap between each pair of neighbours. */
  function CanvasWidth(glyphs: seq<Glyph>): nat
    requires glyphs != []
  {
    SumWidths(glyphs) + (|glyphs| - 1) * Padding
  }

  function CanvasHeight(glyphs: seq<Glyph>): nat {
    MaxHeight(glyphs)
  }

  /** Left column of glyph `k`: the widths of the glyphs before it and one gap after each. */
  function Start(glyphs: seq<Glyph>, k: nat): nat
    requires k <= |glyphs|
  {
    SumWidths(glyphs[..k]) + k * Padding
  }

  /** Integer division rounding toward zero, as Rust's `/` on `i32`. */
  function Quot(a: int, b: int): int
    requires b > 0
  {
    if a >= 0 then a / b else -((-a) / b)
  }

  /** Top row of a glyph of the canvas of height `canvasHeight`: the glyph is centred vertically. */
  function Offset(canvasHeight: nat, g: Glyph): int {
    Quot(canvasHeight - g.height, 2)
  }

  /** Whether canvas pixel (`y`, `x`) lies in the box of `g` placed at (`top`, `left`). */
  predicate InBox(g: Glyph, left: int, top: int, y: int, x: int) {
    left <= x < left + g.width && top <= y < top + g.height
  }

  /** Canvas pixel (`y`, `x`) after the first `n` glyphs have been drawn onto a
      zeroed canvas of height `h`: the last glyph whose box holds the pixel gives
      its coverage, and a pixel no box holds keeps the background 0. */
  function Painted(glyphs: seq<Glyph>, h: nat, n: nat, y: int, x: int): Byte
    requires n <= |glyphs| && AllValid(glyphs)
  {
    if n == 0 then 0
    else
      var g, left, top := glyphs[n - 1], Start(glyphs, n - 1), Offset(h, glyphs[n - 1]);
      if InBox(g, left, top, y, x) then g.coverage[y - top][x - left]
      else Painted(glyphs, h, n - 1, y, x)
  }

  /** Every glyph that has rows also has columns: the rasteriser reports either
      no bounding box at all or a box with pixels in it. */
  predicate ProperBoxes(glyphs: seq<Glyph>) {
    forall k :: 0 <= k < |glyphs| && glyphs[k].height > 0 ==> glyphs[k].width > 0
  }

  /** A canvas without columns has no rows either: it can only come from a
      single glyph without a bounding box. */
  lemma EmptyCanvasIsFlat(glyphs: seq<Glyph>)
    requires glyphs != []
    ensures ProperBoxes(glyphs) && CanvasWidth(glyphs) == 0 ==> |glyphs| == 1 && CanvasHeight(glyphs) == 0
  {
    if ProperBoxes(glyphs) && CanvasWidth(glyphs) == 0 {
      assert |glyphs| == 1;
      assert glyphs[..0] == [];
      assert glyphs[0].width == 0;
      assert MaxHeight(glyphs) == Max(MaxHeight(glyphs[..0]), glyphs[0].height);
    }
  }

  /** The canvas holding every glyph. */
  function Rasterized(glyphs: seq<Glyph>): (img: Image)
    requires glyphs != [] && AllValid(glyphs)
    ensures img.Valid()
  {
    var w, h := CanvasWidth(glyphs), CanvasHeight(glyphs);
    Image(w, h, seq(h, y => seq(w, x => Painted(glyphs, h, |glyphs|, y, x))))
  }

  lemma StartStep(glyphs: seq<Glyph>, k: nat)
    requires k < |glyphs|
    ensures Start(glyphs, k + 1) == Start(glyphs, k) + glyphs[k].width + Padding
  {
    assert glyphs[..k + 1][..k] == glyphs[..k];
  }

  /** Glyph boxes follow one another left to right with at least the full gap
      between any two of them, so no two boxes share a column. */
  lemma {:induction false} GlyphsDoNotOverlap(glyphs: seq<Glyph>, k1: nat, k2: nat)
    requires k1 < k2 < |glyphs|
    ensures Start(glyphs, k1) + glyphs[k1].width + Padding <= Start(glyphs, k2)
  {
    StartStep(glyphs, k2 - 1);
    if k1 < k2 - 1 {
      GlyphsDoNotOverlap(glyphs, k1, k2 - 1);
    }
  }

  /** The last glyph box ends exactly at the right edge of the canvas. */
  lemma LastGlyphEndsAtCanvasWidth(glyphs: seq<Glyph>)
    requires glyphs != []
    ensures Start(glyphs, |glyphs| - 1) + glyphs[|glyphs| - 1].width == CanvasWidth(glyphs)
  {
    assert glyphs[..|glyphs|] == glyphs;
    StartStep(glyphs, |glyphs| - 1);
  }

  /** The canvas is as tall as the tallest glyph box: no box is taller, and one is as tall. */
  lemma {:induction false} TallestGlyphSetsHeight(glyphs: seq<Glyph>)
    ensures forall k :: 0 <= k < |glyphs| ==> glyphs[k].height <= CanvasHeight(glyphs)
    ensures glyphs != [] ==> exists k :: 0 <= k < |glyphs| && glyphs[k].height == CanvasHeight(glyphs)
  {
    if glyphs != [] {
      var init := glyphs[..|glyphs| - 1];
      TallestGlyphSetsHeight(init);
      assert forall k :: 0 <= k < |init| ==> init[k] == glyphs[k];
      if MaxHeight(init) < glyphs[|glyphs| - 1].height || init == [] {
        assert glyphs[|glyphs| - 1].height == CanvasHeight(glyphs);
      } else {
        var k :| 0 <= k < |init| && init[k].height == MaxHeight(init);
        assert glyphs[k].height == CanvasHeight(glyphs);
      }
    }
  }

  /** The centring offset is never negative and the centred box ends inside the canvas. */
  lemma GlyphFitsVertically(glyphs: seq<Glyph>, k: nat)
    requires k < |glyphs|
    ensures 0 <= Offset(CanvasHeight(glyphs), glyphs[k])
    ensures Offset(CanvasHeight(glyphs), glyphs[k]) + glyphs[k].height <= CanvasHeight(glyphs)
  {
    TallestGlyphSetsHeight(glyphs);
  }

  /** Every coverage sample a glyph reports lands inside the canvas, so the
      clipping test of the drawing callback never drops a sample. */
  lemma NoSampleIsClipped(glyphs: seq<Glyph>, k: nat, gy: nat, gx: nat)
    requires k < |glyphs| && gy < glyphs[k].height && gx < glyphs[k].width
    ensures Start(glyphs, k) + gx < CanvasWidth(glyphs)
    ensures 0 <= Offset(CanvasHeight(glyphs), glyphs[k]) + gy < CanvasHeight(glyphs)
  {
    GlyphFitsVertically(glyphs, k);
    LastGlyphEndsAtCanvasWidth(glyphs);
    if k < |glyphs| - 1 {
      GlyphsDoNotOverlap(glyphs, k, |glyphs| - 1);
    }
  }

  /** A pixel in the box of glyph `k` shows that glyph's coverage, whatever the
      glyphs drawn after it: the drawing order does not matter. */
  lemma {:induction false} PaintedInGlyph(glyphs: seq<Glyph>, h: nat, n: nat, k: nat, y: int, x: int)
    requires AllValid(glyphs) && k < n <= |glyphs|
    requires InBox(glyphs[k], Start(glyphs, k), Offset(h, glyphs[k]), y, x)
    ensures Painted(glyphs, h, n, y, x)
         == glyphs[k].coverage[y - Offset(h, glyphs[k])][x - Start(glyphs, k)]
  {
    if k < n - 1 {
      GlyphsDoNotOverlap(glyphs, k, n - 1);
      PaintedInGlyph(glyphs, h, n - 1, k, y, x);
    }
  }

  /** A pixel outside every glyph box keeps the zero background. */
  lemma {:induction false} PaintedBackground(glyphs: seq<Glyph>, h: nat, n: nat, y: int, x: int)
    requires AllValid(glyphs) && n <= |glyphs|
    requires forall k :: 0 <= k < n ==> !InBox(glyphs[k], Start(glyphs, k), Offset(h, glyphs[k]), y, x)
    ensures Painted(glyphs, h, n, y, x) == 0
  {
    if n > 0 {
      PaintedBackground(glyphs, h, n - 1, y, x);
    }
  }

  /** No pixel is brighter than the brightest coverage byte any glyph reports. */
  lemma {:induction false} PaintedBounded(glyphs: seq<Glyph>, h: nat, n: nat, bound: Byte, y: int, x: int)
    requires AllValid(glyphs) && n <= |glyphs|
    requires forall k, gy, gx :: 0 <= k < |glyphs| && 0 <= gy < glyphs[k].height && 0 <= gx < glyphs[k].width
               ==> glyphs[k].coverage[gy][gx] <= bound
    ensures Painted(glyphs, h, n, y, x) <= bound
  {
    if n > 0 {
      PaintedBounded(glyphs, h, n - 1, bound, y, x);
    }
  }

  /** The drawing callback of one glyph: visits the coverage samples of the box
      row by row and writes each one at (`top` + row, `left` + column) unless that
      position falls outside the canvas. */
  method DrawGlyph(image: array2<Byte>, g: Glyph, left: nat, top: int)
    requires g.Valid()
    modifies image
    ensures forall y, x :: 0 <= y < image.Length0 && 0 <= x < image.Length1
              ==> image[y, x] == if InBox(g, left, top, y, x) then g.coverage[y - top][x - left]
                                 else old(image[y, x])
  {
    for gy := 0 to g.height
      invariant forall y, x :: 0 <= y < image.Length0 && 0 <= x < image.Length1
                  ==> image[y, x] == if InBox(g, left, top, y, x) && y - top < gy
                                     then g.coverage[y - top][x - left]
                                     else old(image[y, x])
    {
      for gx := 0 to g.width
        invariant forall y, x :: 0 <= y < image.Length0 && 0 <= x < image.Length1
                    ==> image[y, x] == if InBox(g, left, top, y, x)
                                          && (y - top < gy || (y - top == gy && x - left < gx))
                                       then g.coverage[y - top][x - left]
                                       else old(image[y, x])
      {
        var x := left + gx;
        var y := top + gy;
        if !(x >= image.Length1 || y < 0 || y >= image.Length0) {
          image[y, x] := g.coverage[gy][gx];
        }
      }
    }
  }

  /** The pixel rows of a buffer, top to bottom. */
  function PixelRows(image: array2<Byte>): (rows: seq<seq<Byte>>)
    reads image
    ensures |rows| == image.Length0
    ensures forall y :: 0 <= y < |rows| ==> |rows[y]| == image.Length1
    ensures forall y, x :: 0 <= y < image.Length0 && 0 <= x < image.Length1 ==> rows[y][x] == image[y, x]
  {
    seq(image.Length0, y requires 0 <= y < image.Length0 reads image =>
      seq(image.Length1, x requires 0 <= x < image.Length1 reads image => image[y, x]))
  }

  /** Canvas size: the box widths summed plus one gap between neighbours, and
      the tallest box height. */
  method MeasureCanvas(glyphs: seq<Glyph>) returns (imageWidth: nat, imageHeight: nat)
    requires glyphs != []
    ensures imageWidth == CanvasWidth(glyphs) && imageHeight == CanvasHeight(glyphs)
  {
    imageWidth, imageHeight := 0, 0;
    for k := 0 to |glyphs|
      invariant imageWidth == SumWidths(glyphs[..k])
      invariant imageHeight == MaxHeight(glyphs[..k])
    {
      assert glyphs[..k + 1][..k] == glyphs[..k];
      imageWidth := imageWidth + glyphs[k].width;
      imageHeight := Max(imageHeight, glyphs[k].height);
    }
    assert glyphs[..|glyphs|] == glyphs;
    imageWidth := imageWidth + (|glyphs| - 1) * Padding;
  }

  /** An empty text is an error; otherwise the canvas is as wide as the boxes
      and gaps together, as tall as the tallest box, and every pixel is the
      coverage of the glyph whose centred box holds it, or 0. */
  method GenerateKanjiImage(glyphs: seq<Glyph>) returns (res: Result<Image>)
    requires AllValid(glyphs)
    ensures res.Err? <==> glyphs == []
    ensures res.Ok? ==> res.value == Rasterized(glyphs)
  {
    if |glyphs| == 0 {
      return Err(NoGlyphFound);
    }

    var imageWidth, imageHeight := MeasureCanvas(glyphs);

    var image := new Byte[imageHeight, imageWidth]((y, x) => 0);

    var currentX: nat := 0;
    for k := 0 to |glyphs|
      invariant currentX == Start(glyphs, k)
      invariant forall y, x :: 0 <= y < imageHeight && 0 <= x < imageWidth
                  ==> image[y, x] == Painted(glyphs, imageHeight, k, y, x)
    {
      var verticalOffset := Quot(imageHeight - glyphs[k].height, 2);
      label before:
      DrawGlyph(image, glyphs[k], currentX, verticalOffset);
      forall y, x | 0 <= y < imageHeight && 0 <= x < imageWidth
        ensures image[y, x] == Painted(glyphs, imageHeight, k + 1, y, x)
      {
        assert old@before(image[y, x]) == Painted(glyphs, imageHeight, k, y, x);
      }
      StartStep(glyphs, k);
      currentX := currentX + glyphs[k].width + Padding;
    }

    var luma := PixelRows(image);
    ghost var expected := Rasterized(glyphs).luma;
    forall y | 0 <= y < imageHeight
      ensures luma[y] == expected[y]
    {
    }
    assert luma == expected;
    return Ok(Image(imageWidth, imageHeight, luma));
  }
}
