/** The whole pipeline (`generate_ascii_text`): lay out the glyphs of the text
    on a canvas, then render that canvas as the overlay of its block art on its
    braille art at the requested width. */
module AsciiText {
  import opened Raster
  import opened KanjiImage
  import opened TextLines
  import opened Quantize
  import opened Merge

  /** Glyph boxes that have columns whenever they have rows always give a
      canvas the quantisers handle, at any column count. */
  lemma ProperBoxesAreQuantizable(glyphs: seq<Glyph>, width: nat)
    requires glyphs != [] && AllValid(glyphs) && ProperBoxes(glyphs)
    ensures Quantizable(Rasterized(glyphs), width)
  {
    EmptyCanvasIsFlat(glyphs);
  }

  /** The text the pipeline produces for a non-empty text. */
  function AsciiText(glyphs: seq<Glyph>, width: nat): string
    requires glyphs != [] && AllValid(glyphs) && Quantizable(Rasterized(glyphs), width)
  {
    var img := Rasterized(glyphs);
    JoinLines(MergeGrid(Grid(img, width, Block), Grid(img, width, Braille)))
  }

  /** An empty text fails with `NoGlyphFound`; any other text yields the
      overlay art of its canvas. */
  method GenerateAsciiText(glyphs: seq<Glyph>, width: nat) returns (res: Result<string>)
    requires AllValid(glyphs) && (glyphs != [] ==> Quantizable(Rasterized(glyphs), width))
    ensures res.Err? <==> glyphs == []
    ensures res.Err? ==> res.error == NoGlyphFound
    ensures res.Ok? ==> res.value == AsciiText(glyphs, width)
  {
    var image :- GenerateKanjiImage(glyphs);
    var art := BrailleBlockArt(image, width);
    return Ok(art);
  }

  /** The produced text has one line per output row and `width` characters per
      line; each character is the block character of its cell, or the braille
      character of the same cell where the block character is a space. */
  lemma AsciiTextShape(glyphs: seq<Glyph>, width: nat)
    requires glyphs != [] && AllValid(glyphs) && Quantizable(Rasterized(glyphs), width)
    ensures var img := Rasterized(glyphs);
            var lines := Lines(AsciiText(glyphs, width));
            && |lines| == OutputRows(img, width)
            && (forall r :: 0 <= r < |lines| ==> |lines[r]| == width)
            && (forall r, c :: 0 <= r < |lines| && 0 <= c < width
                  ==> lines[r][c] == if Grid(img, width, Block)[r][c] == ' '
                                     then Grid(img, width, Braille)[r][c]
                                     else Grid(img, width, Block)[r][c])
  {
    var img := Rasterized(glyphs);
    GridShape(img, width, Block);
    GridShape(img, width, Braille);
    var blockGrid, brailleGrid := Grid(img, width, Block), Grid(img, width, Braille);
    MergedLinesAreLineSafe(blockGrid, brailleGrid);
    LinesOfJoinLines(MergeGrid(blockGrid, brailleGrid));
    OverlayCells(img, width);
  }

  /** Glyphs whose coverage never exceeds the block threshold leave the block
      layer blank, so the produced text is the braille art alone. */
  lemma FaintGlyphsGiveBrailleOnly(glyphs: seq<Glyph>, width: nat)
    requires glyphs != [] && AllValid(glyphs) && Quantizable(Rasterized(glyphs), width)
    requires forall k, gy, gx :: 0 <= k < |glyphs| && 0 <= gy < glyphs[k].height && 0 <= gx < glyphs[k].width
               ==> glyphs[k].coverage[gy][gx] <= Threshold(Block)
    ensures AsciiText(glyphs, width) == JoinLines(Grid(Rasterized(glyphs), width, Braille))
  {
    var img := Rasterized(glyphs);
    forall py, px | 0 <= py < img.height && 0 <= px < img.width
      ensures img.luma[py][px] <= Threshold(Block)
    {
      PaintedBounded(glyphs, img.height, |glyphs|, Threshold(Block), py, px);
    }
    DarkImageIsBlank(img, width, Block);
    GridShape(img, width, Block);
    GridShape(img, width, Braille);
    MergeUnderBlankBlock(Grid(img, width, Block), Grid(img, width, Braille));
  }

  /** Glyphs whose coverage never exceeds the braille threshold produce a text
      made of spaces only. */
  lemma FaintGlyphsGiveBlankText(glyphs: seq<Glyph>, width: nat)
    requires glyphs != [] && AllValid(glyphs) && Quantizable(Rasterized(glyphs), width)
    requires forall k, gy, gx :: 0 <= k < |glyphs| && 0 <= gy < glyphs[k].height && 0 <= gx < glyphs[k].width
               ==> glyphs[k].coverage[gy][gx] <= Threshold(Braille)
    ensures var lines := Lines(AsciiText(glyphs, width));
            forall r, c :: 0 <= r < |lines| && 0 <= c < |lines[r]| ==> lines[r][c] == ' '
  {
    var img := Rasterized(glyphs);
    forall py, px | 0 <= py < img.height && 0 <= px < img.width
      ensures img.luma[py][px] <= Threshold(Braille)
    {
      PaintedBounded(glyphs, img.height, |glyphs|, Threshold(Braille), py, px);
    }
    DarkImageIsBlank(img, width, Block);
    DarkImageIsBlank(img, width, Braille);
    FaintGlyphsGiveBrailleOnly(glyphs, width);
    GridShape(img, width, Braille);
    LinesOfJoinLines(Grid(img, width, Braille));
  }
}
