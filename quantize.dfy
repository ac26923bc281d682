/** Stage 2: turning a grayscale image into a grid of terminal characters
    (`binary_image_to_block_art` and `binary_image_to_braille_art`). The two
    differ only in their profile: how many sub-cell rows each output cell
    samples, the brightness threshold and the lookup table. */
module Quantize {
  import opened Raster
  import opened Charsets
  import opened TextLines

  datatype Profile = Block | Braille

  /** Sub-cell rows sampled per output cell; every cell samples two columns. */
  function CellRows(p: Profile): nat {
    match p
    case Block => 2
    case Braille => 4
  }

  /** A sample is "on" when its luma is strictly above this value. */
  function Threshold(p: Profile): Byte {
    match p
    case Block => 200
    case Braille => 170
  }

  function Charset(p: Profile): string {
    match p
    case Block => BlockCharset
    case Braille => BrailleCharset
  }

  /** An image and a column count the quantisers handle: the image is
      rectangular, and a zero-width image of positive height (aspect ratio 0)
      is only asked for zero columns. For more columns the row count would be
      `width / 0.0`, which saturates to `u32::MAX` and overflows `height * 2`;
      for zero columns it is `0.0 / 0.0`, which casts to 0 rows. */
  predicate Quantizable(img: Image, width: nat) {
    img.Valid() && (img.width == 0 && img.height > 0 ==> width == 0)
  }

  lemma MulNonNeg(a: nat, b: nat)
    ensures a * b >= 0
  {
  }

  /** `floor(k * size / parts)`: the exact value of the scaled sample
      coordinate that the source computes in `f32`. */
  function ScaleFloor(k: nat, size: nat, parts: nat): nat
    requires parts > 0
  {
    MulNonNeg(k, size);
    (k * size) / parts
  }

  /** `ceil(a / d)`. */
  function CeilDiv(a: nat, d: nat): nat
    requires d > 0
  {
    (a + d - 1) / d
  }

  /** Number of output rows for `width` output columns: `width / aspect / 2`
      rounded up, with `aspect = iw / ih`, in exact arithmetic. The 0 × 0 image
      has no aspect ratio (NaN), which the cast to `u32` turns into 0 rows. */
  function OutputRows(img: Image, width: nat): nat
    requires Quantizable(img, width)
  {
    if img.width == 0 then 0
    else
      MulNonNeg(width, img.height);
      CeilDiv(width * img.height, 2 * img.width)
  }

  /** Pixel column sampled by sub-cell column `j` of output column `x`:
      `floor((2x + j) * iw / (2 * width))`. */
  function SampleX(img: Image, width: nat, x: nat, j: nat): nat
    requires width > 0
  {
    ScaleFloor(2 * x + j, img.width, 2 * width)
  }

  /** Pixel row sampled by sub-cell row `i` of output row `y`:
      `floor((cellRows * y + i) * ih / (cellRows * rows))`. */
  function SampleY(img: Image, rows: nat, p: Profile, y: nat, i: nat): nat
    requires rows > 0
  {
    MulNonNeg(CellRows(p), y);
    MulNonNeg(CellRows(p), rows);
    ScaleFloor(CellRows(p) * y + i, img.height, CellRows(p) * rows)
  }

  /** Whether bit `b` (sub-cell row `b / 2`, column `b % 2`) of output cell
      (`y`, `x`) is on: its sampled pixel is inside the image and brighter than
      the threshold. */
  predicate Lit(img: Image, width: nat, rows: nat, p: Profile, y: nat, x: nat, b: nat)
    requires img.Valid() && width > 0 && rows > 0
  {
    var px, py := SampleX(img, width, x, b % 2), SampleY(img, rows, p, y, b / 2);
    py < img.height && px < img.width && img.luma[py][px] > Threshold(p)
  }

  /** The mask bit `1 << b` of sub-cell `b` (see `BitIsShift`). */
  function Bit(b: nat): bv8
    requires b < 8
  {
    match b
    case 0 => 0x01
    case 1 => 0x02
    case 2 => 0x04
    case 3 => 0x08
    case 4 => 0x10
    case 5 => 0x20
    case 6 => 0x40
    case _ => 0x80
  }

  lemma BitIsShift(b: nat)
    requires b < 8
    ensures Bit(b) == 1 << b
  {
  }

  /** The mask after the first `n` sub-cells (in row-major order) of a cell have
      been sampled, each "on" sub-cell OR-ing its bit in. */
  function MaskUpTo(img: Image, width: nat, rows: nat, p: Profile, y: nat, x: nat, n: nat): bv8
    requires img.Valid() && width > 0 && rows > 0 && n <= 8
  {
    if n == 0 then 0
    else MaskUpTo(img, width, rows, p, y, x, n - 1)
         | (if Lit(img, width, rows, p, y, x, n - 1) then Bit(n - 1) else 0)
  }

  /** The mask of output cell (`y`, `x`) over all its sub-cells. */
  function CellMask(img: Image, width: nat, rows: nat, p: Profile, y: nat, x: nat): bv8
    requires img.Valid() && width > 0 && rows > 0
  {
    MaskUpTo(img, width, rows, p, y, x, 2 * CellRows(p))
  }

  /** Two mask bits share a set bit only when they are the same bit. */
  lemma BitsAreDistinct(a: nat, b: nat)
    requires a < 8 && b < 8
    ensures Bit(a) & Bit(b) != 0 <==> a == b
  {
  }

  lemma OrThenAnd(m: bv8, c: bv8, bit: bv8)
    ensures (m | c) & bit != 0 <==> m & bit != 0 || c & bit != 0
  {
  }

  /** Bit `b` of the mask is set exactly when `b` is one of the first `n`
      sub-cells and that sub-cell is on. */
  lemma {:induction false} MaskUpToBits(img: Image, width: nat, rows: nat, p: Profile, y: nat, x: nat, n: nat, b: nat)
    requires img.Valid() && width > 0 && rows > 0 && n <= 8 && b < 8
    ensures MaskUpTo(img, width, rows, p, y, x, n) & Bit(b) != 0
            <==> b < n && Lit(img, width, rows, p, y, x, b)
  {
    if n > 0 {
      var lit := Lit(img, width, rows, p, y, x, n - 1);
      OrThenAnd(MaskUpTo(img, width, rows, p, y, x, n - 1), if lit then Bit(n - 1) else 0, Bit(b));
      BitsAreDistinct(n - 1, b);
      MaskUpToBits(img, width, rows, p, y, x, n - 1, b);
    }
  }

  lemma {:induction false} MaskUpToBelow16(img: Image, width: nat, rows: nat, p: Profile, y: nat, x: nat, n: nat)
    requires img.Valid() && width > 0 && rows > 0 && n <= 4
    ensures MaskUpTo(img, width, rows, p, y, x, n) < 16
  {
    if n > 0 {
      MaskUpToBelow16(img, width, rows, p, y, x, n - 1);
    }
  }

  /** Bit `b` of a cell's mask is set exactly when sub-cell `b` of the profile's
      shape is on; the bits beyond the shape stay clear. */
  lemma MaskBits(img: Image, width: nat, rows: nat, p: Profile, y: nat, x: nat, b: nat)
    requires img.Valid() && width > 0 && rows > 0 && b < 8
    ensures CellMask(img, width, rows, p, y, x) & Bit(b) != 0
            <==> b < 2 * CellRows(p) && Lit(img, width, rows, p, y, x, b)
  {
    MaskUpToBits(img, width, rows, p, y, x, 2 * CellRows(p), b);
  }

  /** Every mask indexes inside its table: a block mask is below 16 and a
      braille mask below 256. */
  lemma MaskFitsCharset(img: Image, width: nat, rows: nat, p: Profile, y: nat, x: nat)
    requires img.Valid() && width > 0 && rows > 0
    ensures p.Block? ==> CellMask(img, width, rows, p, y, x) < 16
    ensures CellMask(img, width, rows, p, y, x) as int < |Charset(p)|
  {
    CharsetsAreLineSafe();
    if p.Block? {
      MaskUpToBelow16(img, width, rows, p, y, x, 4);
    }
  }

  /** The character shown for output cell (`y`, `x`). */
  function CellChar(img: Image, width: nat, rows: nat, p: Profile, y: nat, x: nat): char
    requires img.Valid() && width > 0 && rows > 0
  {
    MaskFitsCharset(img, width, rows, p, y, x);
    Charset(p)[CellMask(img, width, rows, p, y, x) as int]
  }

  /** Output row `y`: the characters of its `width` cells, left to right. */
  function GridRow(img: Image, width: nat, rows: nat, p: Profile, y: nat): seq<char>
    requires img.Valid() && rows > 0
  {
    seq(width, x requires 0 <= x < width => CellChar(img, width, rows, p, y, x))
  }

  /** The character grid for `width` output columns: `OutputRows` rows of
      `width` cells each. */
  function Grid(img: Image, width: nat, p: Profile): seq<seq<char>>
    requires Quantizable(img, width)
  {
    var rows := OutputRows(img, width);
    seq(rows, y requires 0 <= y < rows => GridRow(img, width, rows, p, y))
  }

  /** A scaled index stays below the scaled size: `floor(a * n / d) < n` when `a < d`. */
  lemma ScaledIndexBelow(a: nat, n: nat, d: nat)
    requires a < d && n > 0
    ensures ScaleFloor(a, n, d) < n
  {
    var q := (a * n) / d;
    assert q * d <= a * n;
    assert a * n < d * n by {
      assert (d - a) * n > 0;
    }
  }

  /** The row count is `width * ih / (2 * iw)` rounded up: `rows` rows of two
      pixel-rows' worth each cover the scaled height, one row fewer does not. */
  lemma OutputRowsRoundsUp(img: Image, width: nat)
    requires Quantizable(img, width) && img.width > 0
    ensures OutputRows(img, width) * (2 * img.width) >= width * img.height
    ensures OutputRows(img, width) > 0 ==> (OutputRows(img, width) - 1) * (2 * img.width) < width * img.height
  {
    var d := 2 * img.width;
    var num := width * img.height + d - 1;
    var rows := num / d;
    assert rows * d + num % d == num;
    assert num % d < d;
  }

  /** An image without pixel rows gets no output rows. */
  lemma HeightlessImageHasNoRows(img: Image, width: nat)
    requires Quantizable(img, width)
    ensures img.height == 0 ==> OutputRows(img, width) == 0
  {
    if img.height == 0 && img.width > 0 {
      assert width * img.height == 0;
    }
  }

  /** Sub-cell row `i` of output row `y` lies above the last sub-cell row. */
  lemma CellRowBelow(c: nat, y: nat, i: nat, rows: nat)
    requires y < rows && i < c
    ensures c * y + i < c * rows
  {
    var d: nat := rows - y - 1;
    assert c * rows == c * y + c * d + c by {
      assert rows == y + d + 1;
    }
    MulNonNeg(c, d);
  }

  /** Every sample of every output cell falls inside the image, so the bounds
      tests in the sampling loop never turn a sub-cell off: a sub-cell is on
      exactly when its pixel is brighter than the threshold. */
  lemma SamplesInBounds(img: Image, width: nat, p: Profile, y: nat, x: nat, b: nat)
    requires Quantizable(img, width) && y < OutputRows(img, width) && x < width && b < 2 * CellRows(p)
    ensures SampleX(img, width, x, b % 2) < img.width
    ensures SampleY(img, OutputRows(img, width), p, y, b / 2) < img.height
    ensures Lit(img, width, OutputRows(img, width), p, y, x, b)
            <==> img.luma[SampleY(img, OutputRows(img, width), p, y, b / 2)][SampleX(img, width, x, b % 2)] > Threshold(p)
  {
    var rows := OutputRows(img, width);
    HeightlessImageHasNoRows(img, width);
    ScaledIndexBelow(2 * x + b % 2, img.width, 2 * width);
    CellRowBelow(CellRows(p), y, b / 2, rows);
    ScaledIndexBelow(CellRows(p) * y + b / 2, img.height, CellRows(p) * rows);
  }

  lemma {:induction false} DarkMaskUpTo(img: Image, width: nat, rows: nat, p: Profile, y: nat, x: nat, n: nat)
    requires img.Valid() && width > 0 && rows > 0 && n <= 8
    requires forall py, px :: 0 <= py < img.height && 0 <= px < img.width ==> img.luma[py][px] <= Threshold(p)
    ensures MaskUpTo(img, width, rows, p, y, x, n) == 0
  {
    if n > 0 {
      DarkMaskUpTo(img, width, rows, p, y, x, n - 1);
    }
  }

  /** An image with no pixel above the profile's threshold (an all-zero
      image, for one) becomes a grid of spaces. */
  lemma DarkImageIsBlank(img: Image, width: nat, p: Profile)
    requires Quantizable(img, width)
    requires forall py, px :: 0 <= py < img.height && 0 <= px < img.width ==> img.luma[py][px] <= Threshold(p)
    ensures forall y, x :: 0 <= y < |Grid(img, width, p)| && 0 <= x < |Grid(img, width, p)[y]|
              ==> Grid(img, width, p)[y][x] == ' '
  {
    CharsetsAreLineSafe();
    var rows := OutputRows(img, width);
    forall y, x | 0 <= y < rows && 0 <= x < width
      ensures Grid(img, width, p)[y][x] == ' '
    {
      DarkMaskUpTo(img, width, rows, p, y, x, 2 * CellRows(p));
    }
  }

  /** Every cell shows a character of the profile's table, never a line break. */
  lemma CellCharIsLineSafe(img: Image, width: nat, rows: nat, p: Profile, y: nat, x: nat)
    requires img.Valid() && width > 0 && rows > 0
    ensures CellChar(img, width, rows, p, y, x) in Charset(p)
    ensures CellChar(img, width, rows, p, y, x) != '\n' && CellChar(img, width, rows, p, y, x) != '\r'
  {
    CharsetsAreLineSafe();
    MaskFitsCharset(img, width, rows, p, y, x);
  }

  /** The grid has `OutputRows` rows of exactly `width` characters, every one
      taken from the profile's table, so no row holds a line break. */
  lemma GridShape(img: Image, width: nat, p: Profile)
    requires Quantizable(img, width)
    ensures |Grid(img, width, p)| == OutputRows(img, width)
    ensures forall y :: 0 <= y < |Grid(img, width, p)| ==> |Grid(img, width, p)[y]| == width
    ensures forall y, x :: 0 <= y < |Grid(img, width, p)| && 0 <= x < width
              ==> Grid(img, width, p)[y][x] in Charset(p)
    ensures forall y :: 0 <= y < |Grid(img, width, p)| ==> LineSafe(Grid(img, width, p)[y])
  {
    var g := Grid(img, width, p);
    var rows := OutputRows(img, width);
    forall y, x | 0 <= y < rows && 0 <= x < width
      ensures g[y][x] in Charset(p) && g[y][x] != '\n' && g[y][x] != '\r'
    {
      CellCharIsLineSafe(img, width, rows, p, y, x);
    }
    forall y | 0 <= y < rows
      ensures LineSafe(g[y])
    {
      assert forall x :: 0 <= x < width ==> g[y][x] != '\n' && g[y][x] != '\r';
    }
  }

  /** Splitting the emitted art into lines gives back the grid row by row. */
  lemma ArtLinesAreGrid(img: Image, width: nat, p: Profile)
    requires Quantizable(img, width)
    ensures Lines(JoinLines(Grid(img, width, p))) == Grid(img, width, p)
  {
    GridShape(img, width, p);
    LinesOfJoinLines(Grid(img, width, p));
  }

  /** Sub-cell (`i`, `j`) of a cell is bit `2i + j`, and it is on exactly when
      the pixel the sampling loop computes for it passes the three tests. */
  lemma LitOfSubCell(img: Image, width: nat, rows: nat, p: Profile, y: nat, x: nat, i: nat, j: nat, px: nat, py: nat)
    requires img.Valid() && width > 0 && rows > 0 && j < 2
    requires px == ScaleFloor(2 * x + j, img.width, 2 * width)
    requires py == ScaleFloor(CellRows(p) * y + i, img.height, CellRows(p) * rows)
    ensures Lit(img, width, rows, p, y, x, 2 * i + j)
            <==> py < img.height && px < img.width && img.luma[py][px] > Threshold(p)
  {
    var b := 2 * i + j;
    assert b / 2 == i && b % 2 == j;
  }

  /** Sampling one more sub-cell ORs in its bit when it is on and keeps the mask otherwise. */
  lemma MaskStep(img: Image, width: nat, rows: nat, p: Profile, y: nat, x: nat, n: nat)
    requires img.Valid() && width > 0 && rows > 0 && n < 8
    ensures Lit(img, width, rows, p, y, x, n)
            ==> MaskUpTo(img, width, rows, p, y, x, n + 1) == MaskUpTo(img, width, rows, p, y, x, n) | Bit(n)
    ensures !Lit(img, width, rows, p, y, x, n)
            ==> MaskUpTo(img, width, rows, p, y, x, n + 1) == MaskUpTo(img, width, rows, p, y, x, n)
  {
  }

  /** One step of the sampling loop: sub-cell (`i`, `j`) with sampled pixel
      (`py`, `px`) turns the mask of the sub-cells before it into the mask of
      the sub-cells up to and including it. */
  lemma SampleStep(img: Image, width: nat, rows: nat, p: Profile, y: nat, x: nat, i: nat, j: nat,
                   px: nat, py: nat, mask: bv8)
    requires img.Valid() && width > 0 && rows > 0 && i < CellRows(p) && j < 2
    requires px == ScaleFloor(2 * x + j, img.width, 2 * width)
    requires py == ScaleFloor(CellRows(p) * y + i, img.height, CellRows(p) * rows)
    requires mask == MaskUpTo(img, width, rows, p, y, x, 2 * i + j)
    ensures (if py < img.height && px < img.width && img.luma[py][px] > Threshold(p)
             then mask | Bit(i * 2 + j) else mask)
            == MaskUpTo(img, width, rows, p, y, x, 2 * i + (j + 1))
  {
    var n := 2 * i + j;
    assert i * 2 + j == n;
    LitOfSubCell(img, width, rows, p, y, x, i, j, px, py);
    MaskStep(img, width, rows, p, y, x, n);
  }

  /** Samples the sub-cells of output cell (`y`, `x`) row by row and ORs the
      bit of every "on" sub-cell into the mask. */
  method SampleCell(img: Image, width: nat, height: nat, p: Profile, y: nat, x: nat) returns (mask: bv8)
    requires img.Valid() && width > 0 && height > 0
    ensures mask == CellMask(img, width, height, p, y, x)
  {
    mask := 0;
    for i := 0 to CellRows(p)
      invariant mask == MaskUpTo(img, width, height, p, y, x, 2 * i)
    {
      for j := 0 to 2
        invariant mask == MaskUpTo(img, width, height, p, y, x, 2 * i + j)
      {
        var pixelX := ScaleFloor(2 * x + j, img.width, 2 * width);
        var pixelY := ScaleFloor(CellRows(p) * y + i, img.height, CellRows(p) * height);
        SampleStep(img, width, height, p, y, x, i, j, pixelX, pixelY, mask);
        if pixelY < img.height && pixelX < img.width && img.luma[pixelY][pixelX] > Threshold(p) {
          mask := mask | Bit(i * 2 + j);
        }
      }
    }
  }

  /** The art for `width` output columns: for every output cell, the mask of
      its on sub-cells is looked up in the profile's table; each row ends in '\n'. */
  method Quantize(img: Image, width: nat, p: Profile) returns (art: string)
    requires Quantizable(img, width)
    ensures art == JoinLines(Grid(img, width, p))
  {
    var height := OutputRows(img, width);
    var charset := Charset(p);
    ghost var grid := Grid(img, width, p);

    art := "";
    for y := 0 to height
      invariant art == JoinLines(grid[..y])
    {
      ghost var done := art;
      ghost var row := GridRow(img, width, height, p, y);
      for x := 0 to width
        invariant art == done + row[..x]
      {
        var mask := SampleCell(img, width, height, p, y, x);
        MaskFitsCharset(img, width, height, p, y, x);
        assert row[x] == charset[mask as int];
        art := art + [charset[mask as int]];
        PushNext(done, row, x);
      }
      assert row[..width] == row == grid[y];
      JoinLinesPrefix(grid, y);
      art := art + "\n";
    }
    assert grid[..height] == grid;
  }
  /** `binary_image_to_braille_art`: 4 × 2 sub-cells per character, threshold 170. */
  method BrailleArt(img: Image, width: nat) returns (art: string)
    requires Quantizable(img, width)
    ensures art == JoinLines(Grid(img, width, Braille))
  {
    art := Quantize(img, width, Braille);
  }

  /** `binary_image_to_block_art`: 2 × 2 sub-cells per character, threshold 200. */
  method BlockArt(img: Image, width: nat) returns (art: string)
    requires Quantizable(img, width)
    ensures art == JoinLines(Grid(img, width, Block))
  {
    art := Quantize(img, width, Block);
  }
}
