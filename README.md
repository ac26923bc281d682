# okanimoji core, modelled in Dafny

okanimoji turns a short piece of text (typically kanji) into terminal art in
three stages, all in `src/lib.rs`:

1. **Layout** (`generate_kanji_image`). The glyphs of the text are placed left
   to right on a grayscale canvas. A gap of 10 pixels separates neighbouring
   glyph boxes, and each box is centred vertically. The canvas is as wide as
   all boxes plus the gaps, and as tall as the tallest box. An empty layout is
   the error "No glyph found".
2. **Quantisation** (`binary_image_to_block_art`, `binary_image_to_braille_art`).
   The canvas is sampled for a requested number of output columns. The number
   of output rows is `ceil(width / aspect / 2)`. Every output cell is split
   into sub-cells: 2 × 2 for the quadrant-block art and 4 × 2 for the braille
   art. One pixel is sampled per sub-cell, and a sub-cell is "on" when that
   pixel is brighter than the threshold (200 for blocks, 170 for braille).
   Sub-cell (row `i`, column `j`) sets bit `i*2 + j` of a mask, and the mask
   indexes a 16-entry or 256-entry character table. Each output row ends in
   `'\n'`.
3. **Merge** (`binary_image_to_braille_block_art`). Both arts are split into
   lines and zipped line by line and character by character. A block
   character wins unless it is a space; in that case the braille character
   shows through. `generate_ascii_text` composes the stages.

The model is structured as follows:

- The canvas is a two-dimensional array (`array2<Byte>`) that the layout
  method fills glyph by glyph through a drawing callback with clipping.
- The quantiser and the merge are methods with the source's nested loops.
- Each method is proved equal to a specification function:
  - `Rasterized`: the canvas as a value, where the last glyph whose box holds
    a pixel gives its coverage;
  - `Grid`: the character grid of one profile;
  - `MergeGrid` over `Lines`.
- Lemmas about these functions state what the source promises:
  - the boxes do not overlap;
  - the canvas is exactly wide and tall enough;
  - no drawn sample is clipped;
  - every sample lies inside the image;
  - mask bit `b` is set exactly when sub-cell `b` is on;
  - every mask indexes inside its table;
  - splitting the emitted art back into lines gives the grid;
  - the overlay rule per character;
  - dark canvases give blank art.

Modules:

| file | module | models |
|---|---|---|
| `raster.dfy` | `Raster` | the grayscale image value, the error, a `Result` type |
| `layout.dfy` | `KanjiImage` | `generate_kanji_image` |
| `charsets.dfy` | `Charsets` | the two character tables |
| `text_lines.dfy` | `TextLines` | emitting rows with `'\n'` and `str::lines` |
| `quantize.dfy` | `Quantize` | both quantisers, as one method over a `Profile` |
| `merge.dfy` | `Merge` | `binary_image_to_braille_block_art` |
| `pipeline.dfy` | `AsciiText` | `generate_ascii_text` |

Layout details of `src/lib.rs` that the model keeps:

- The layout applies no kerning, only the fixed 10-pixel gap (src/lib.rs:97).
- The canvas is sized by pixel bounding boxes (src/lib.rs:56-60), not by the
  font's ascent and descent.
- There is no shadow offset: each glyph is drawn once (src/lib.rs:83-95).
- The coverage value is not clamped beyond the `u8` cast (src/lib.rs:89).

## Model

| member | source | states |
|---|---|---|
| KanjiImage.GenerateKanjiImage | src/lib.rs:38-101 | An empty layout is the "No glyph found" error. Otherwise the result is the canvas of `CanvasWidth` × `CanvasHeight` pixels, in which every pixel is the coverage of the last glyph whose centred box holds it, or 0. |
| KanjiImage.MeasureCanvas | src/lib.rs:53-63 | The first loop yields the sum of the box widths plus 10 pixels per gap between neighbours, and the largest box height. |
| KanjiImage.DrawGlyph | src/lib.rs:83-95 | Drawing one glyph at (`top`, `left`) sets every canvas pixel inside its box to the glyph's coverage and leaves every other pixel unchanged. Positions outside the canvas are skipped. |
| KanjiImage.GlyphsDoNotOverlap | src/lib.rs:74-97 | For any two glyphs, the later box starts at least a full 10-pixel gap after the earlier box ends. |
| KanjiImage.LastGlyphEndsAtCanvasWidth | src/lib.rs:56-63 | The last box ends exactly at the right edge of the canvas. |
| KanjiImage.TallestGlyphSetsHeight | src/lib.rs:56-60 | No box is taller than the canvas, and some box is exactly as tall. |
| KanjiImage.GlyphFitsVertically | src/lib.rs:81 | The centring offset `(image_height - glyph_height) / 2` is never negative, and the centred box ends inside the canvas. |
| KanjiImage.NoSampleIsClipped | src/lib.rs:83-88 | Every sample a glyph reports lands inside the canvas, so the clipping test never drops one. |
| KanjiImage.PaintedInGlyph | src/lib.rs:74-97 | A pixel inside glyph `k`'s box shows glyph `k`'s coverage, whatever is drawn after it. |
| KanjiImage.PaintedBackground | src/lib.rs:71-97 | A pixel outside every box keeps the zero background of the new buffer. |
| KanjiImage.PaintedBounded | src/lib.rs:83-95 | No canvas pixel exceeds the largest coverage value of any glyph. |
| KanjiImage.EmptyCanvasIsFlat | src/lib.rs:56-63 | When every box with rows also has columns, a canvas without columns comes from a single empty glyph and has no rows. |
| AsciiText.ProperBoxesAreQuantizable | src/lib.rs:56-63 | When every box with rows also has columns, the canvas is one the quantisers handle at any column count. |
| Quantize.SampleCell | src/lib.rs:137-149 | The sub-cell loop of one output cell returns that cell's mask: the OR of `1 << (i*2 + j)` over its on sub-cells. |
| Quantize.Quantize | src/lib.rs:133-154 | The art is the character grid of the profile: `OutputRows` rows, each followed by `'\n'`. |
| Quantize.BrailleArt | src/lib.rs:103-157 | Braille art is the grid of the 4 × 2, threshold-170 profile over the 256-entry table. |
| Quantize.BlockArt | src/lib.rs:159-199 | Block art is the grid of the 2 × 2, threshold-200 profile over the 16-entry table. |
| Quantize.MaskBits | src/lib.rs:137-148 | Bit `b` of a cell's mask is set exactly when `b` lies inside the profile's sub-cell shape and sub-cell `b` is on. |
| Quantize.MaskFitsCharset | src/lib.rs:151 | Every mask indexes inside its table: a block mask is below 16, and a braille mask is below 256. |
| Quantize.BitIsShift | src/lib.rs:146 | The mask bit of sub-cell `b` is `1 << b`. |
| Quantize.OutputRowsRoundsUp | src/lib.rs:125-126 | The row count is `width * ih / (2 * iw)` rounded up. `rows` rows cover the scaled height; one row fewer does not. |
| Quantize.SamplesInBounds | src/lib.rs:139-144 | Every sampled pixel lies inside the image, so a sub-cell is on exactly when its pixel is brighter than the threshold. |
| Quantize.DarkImageIsBlank | src/lib.rs:137-151 | An image with no pixel above the threshold yields only spaces. |
| Quantize.GridShape | src/lib.rs:133-154 | The grid has `OutputRows` rows of `width` characters. Every character comes from the profile's table, and no row holds a line break. |
| Quantize.ArtLinesAreGrid | src/lib.rs:207-208 | Splitting an art into lines gives back its grid rows. |
| Charsets.CharsetsAreLineSafe | src/lib.rs:104-120 | The block table has 16 entries and the braille table has 256. Both start with a space, and neither holds a line break. |
| TextLines.Lines | src/lib.rs:207-208 | `str::lines`: the pieces between `'\n'` characters, with a `'\r'` before `'\n'` dropped and no empty last line after a final `'\n'`. The empty string has no lines, any other string has at least one, and no line contains `'\n'`. |
| TextLines.LineEnd | src/lib.rs:207-208 | Finds the first `'\n'` of a string, or its length when there is none. |
| TextLines.LinesOfJoinLines | src/lib.rs:207-208 | `str::lines` on rows that were each emitted with a `'\n'` gives back exactly those rows, provided no row holds a line break. |
| Merge.MergeLine | src/lib.rs:213-219 | Zipping two lines gives as many characters as the shorter line. Each character is the block character, or the braille character where the block character is a space. |
| Merge.MergeGrid | src/lib.rs:210-223 | Zipping two line lists gives as many lines as the shorter list. Line `r` merges line `r` of each list. |
| Merge.MergeLineLoop | src/lib.rs:211-219 | The character loop builds exactly the merged line. |
| Merge.MergeArt | src/lib.rs:205-225 | The merged text is the merged lines of both arts, each followed by `'\n'`. |
| Merge.BrailleBlockArt | src/lib.rs:201-226 | The overlay of one image's block art on its braille art at the same width. |
| Merge.MergeOverBlankBraille | src/lib.rs:213-217 | Over an all-space braille layer of the same shape, the overlay is the block layer. |
| Merge.MergeUnderBlankBlock | src/lib.rs:213-217 | Under an all-space block layer of the same shape, the overlay is the braille layer. |
| Merge.MergedLinesAreLineSafe | src/lib.rs:210-223 | Merged lines contain no line break when neither layer does. |
| Merge.OverlayCells | src/lib.rs:201-226 | The overlay of one image's grids has `OutputRows` lines of `width` characters and follows the per-character rule. |
| AsciiText.GenerateAsciiText | src/lib.rs:32-36 | An empty layout gives the "No glyph found" error. Otherwise the result is the overlay art of the layout's canvas. |
| AsciiText.AsciiTextShape | src/lib.rs:32-36 | The produced text has one line per output row and `width` characters per line, and each character follows the overlay rule for its cell. |
| AsciiText.FaintGlyphsGiveBrailleOnly | src/lib.rs:32-36 | Glyphs whose coverage never exceeds 200 leave the block layer blank, so the text is the braille art alone. |
| AsciiText.FaintGlyphsGiveBlankText | src/lib.rs:32-36 | Glyphs whose coverage never exceeds 170 produce a text of spaces only. |

## Left out

- Font loading (`load_font`, the embedded font table, src/lib.rs:5-30) and the `unwrap` at src/lib.rs:43 are not modelled. A font is not a value here.
- rusttype's layout and rasteriser are not modelled. The laid-out glyphs are an input: each glyph is its pixel bounding box plus one coverage byte per pixel of the box, and a glyph without a box is the empty 0 × 0 box. The drawing callback is taken to visit the box row by row.
- The coverage byte `ceil(v * 255) as u8` (src/lib.rs:89) is taken as given. The `f32` coverage value is not modelled.
- The RGBA canvas and `to_luma8` are not modelled. The canvas stores the single gray byte. Luma of a gray pixel is that byte, and the untouched transparent background is 0.
- The status line printed at src/lib.rs:65-68 is I/O and is left out.
- `src/main.rs` (argument handling, printing) and `src/fonts.rs` (font bytes) are not part of this model.
- Quantize.OutputRows, Quantize.SampleX and Quantize.SampleY use exact rational arithmetic, not the source's `f32`. `f32` rounding can move a sample across a pixel boundary. It can also change the row count (src/lib.rs:126): for a 1 × 41 image at 40 columns, the `f32` ceiling is 821 rows and the exact one is 820. Neither difference is modelled.
- Quantize.Quantizable excludes one case: an image with no columns but some rows, asked for one or more columns. That aspect ratio is 0, so the row count `width / 0.0` saturates to `u32::MAX`, and `height * 2` overflows. The same image asked for zero columns (`0.0 / 0.0`, cast to 0 rows) is modelled and gives the empty art. AsciiText.GenerateAsciiText requires the same of the laid-out canvas. It holds whenever a glyph box with rows also has columns (AsciiText.ProperBoxesAreQuantizable).
- The 0 × 0 canvas (aspect NaN, cast to 0 rows) is modelled and gives the empty art.
- `u32`/`i32` overflow is not modelled. This covers the summed canvas width, `width * 2`, `height * 4`, `x * 2 + j` and `y * 4 + i`. All integers are unbounded.
- Each table entry is a `&str` holding one character, and is modelled as that `char`.
