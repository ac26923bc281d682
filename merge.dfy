/** Stage 3: overlaying the block art on the braille art
    (`binary_image_to_braille_block_art`). Line r, column c of one art is paired
    with line r, column c of the other; a block character wins unless it is a
    space, in which case the braille character shows through. */
module Merge {
  import opened Raster
  import opened TextLines
  import opened Quantize

  function Min(a: nat, b: nat): nat {
    if a < b then a else b
  }

  /** The two lines zipped character by character, as far as the shorter one goes. */
  function MergeLine(blockLine: string, brailleLine: string): (line: string)
    ensures |line| == Min(|blockLine|, |brailleLine|)
    ensures forall c :: 0 <= c < |line|
              ==> line[c] == if blockLine[c] == ' ' then brailleLine[c] else blockLine[c]
  {
    if blockLine == [] || brailleLine == [] then []
    else [if blockLine[0] == ' ' then brailleLine[0] else blockLine[0]]
         + MergeLine(blockLine[1..], brailleLine[1..])
  }

  /** The two line lists zipped line by line, as far as the shorter one goes. */
  function MergeGrid(blockLines: seq<string>, brailleLines: seq<string>): (lines: seq<string>)
    ensures |lines| == Min(|blockLines|, |brailleLines|)
    ensures forall r :: 0 <= r < |lines| ==> lines[r] == MergeLine(blockLines[r], brailleLines[r])
  {
    if blockLines == [] || brailleLines == [] then []
    else [MergeLine(blockLines[0], brailleLines[0])] + MergeGrid(blockLines[1..], brailleLines[1..])
  }

  /** Every character of every line is a space. */
  predicate AllSpaces(lines: seq<string>) {
    forall r, c :: 0 <= r < |lines| && 0 <= c < |lines[r]| ==> lines[r][c] == ' '
  }

  /** Two line lists of the same shape. */
  predicate SameShape(a: seq<string>, b: seq<string>) {
    |a| == |b| && forall r :: 0 <= r < |a| ==> |a[r]| == |b[r]|
  }

  /** Over a blank braille layer the overlay is exactly the block layer. */
  lemma MergeOverBlankBraille(blockLines: seq<string>, brailleLines: seq<string>)
    requires SameShape(blockLines, brailleLines) && AllSpaces(brailleLines)
    ensures MergeGrid(blockLines, brailleLines) == blockLines
  {
    var m := MergeGrid(blockLines, brailleLines);
    forall r | 0 <= r < |m|
      ensures m[r] == blockLines[r]
    {
      assert |m[r]| == |blockLines[r]|;
      forall c | 0 <= c < |m[r]|
        ensures m[r][c] == blockLines[r][c]
      {
      }
    }
  }

  /** Under a blank block layer the overlay is exactly the braille layer. */
  lemma MergeUnderBlankBlock(blockLines: seq<string>, brailleLines: seq<string>)
    requires SameShape(blockLines, brailleLines) && AllSpaces(blockLines)
    ensures MergeGrid(blockLines, brailleLines) == brailleLines
  {
    var m := MergeGrid(blockLines, brailleLines);
    forall r | 0 <= r < |m|
      ensures m[r] == brailleLines[r]
    {
      assert |m[r]| == |brailleLines[r]|;
      forall c | 0 <= c < |m[r]|
        ensures m[r][c] == brailleLines[r][c]
      {
      }
    }
  }

  /** Merged lines hold only characters of the two layers, so they hold no line
      break when neither layer does. */
  lemma MergedLinesAreLineSafe(blockLines: seq<string>, brailleLines: seq<string>)
    requires forall r :: 0 <= r < |blockLines| ==> LineSafe(blockLines[r])
    requires forall r :: 0 <= r < |brailleLines| ==> LineSafe(brailleLines[r])
    ensures forall r :: 0 <= r < |MergeGrid(blockLines, brailleLines)|
              ==> LineSafe(MergeGrid(blockLines, brailleLines)[r])
  {
    var m := MergeGrid(blockLines, brailleLines);
    forall r | 0 <= r < |m|
      ensures LineSafe(m[r])
    {
      forall c | 0 <= c < |m[r]|
        ensures m[r][c] != '\n' && m[r][c] != '\r'
      {
        assert blockLines[r][c] in blockLines[r] && brailleLines[r][c] in brailleLines[r];
      }
    }
  }

  /** The overlay of the block and braille grids of one image: `OutputRows`
      lines of `width` characters, each the block character of the same
      position unless that is a space, then the braille character. */
  lemma OverlayCells(img: Image, width: nat)
    requires Quantizable(img, width)
    ensures var m := MergeGrid(Grid(img, width, Block), Grid(img, width, Braille));
            && |m| == OutputRows(img, width)
            && (forall r :: 0 <= r < |m| ==> |m[r]| == width)
            && (forall r, c :: 0 <= r < |m| && 0 <= c < width
                  ==> m[r][c] == if Grid(img, width, Block)[r][c] == ' '
                                 then Grid(img, width, Braille)[r][c]
                                 else Grid(img, width, Block)[r][c])
  {
    GridShape(img, width, Block);
    GridShape(img, width, Braille);
  }

  /** The inner loop: walks both lines together and pushes, per column, the
      block character unless it is a space, else the braille character. */
  method MergeLineLoop(blockLine: string, brailleLine: string) returns (line: string)
    ensures line == MergeLine(blockLine, brailleLine)
  {
    line := "";
    var c := 0;
    while c < |blockLine| && c < |brailleLine|
      invariant c <= |blockLine| && c <= |brailleLine|
      invariant |line| == c
      invariant forall i :: 0 <= i < c
                  ==> line[i] == if blockLine[i] == ' ' then brailleLine[i] else blockLine[i]
    {
      if blockLine[c] == ' ' {
        line := line + [brailleLine[c]];
      } else {
        line := line + [blockLine[c]];
      }
      c := c + 1;
    }
  }

  /** Splits both arts into lines, zips them and emits each merged line
      followed by '\n'. */
  method MergeArt(blockArt: string, brailleArt: string) returns (result: string)
    ensures result == JoinLines(MergeGrid(Lines(blockArt), Lines(brailleArt)))
  {
    var blockLines := Lines(blockArt);
    var brailleLines := Lines(brailleArt);
    ghost var merged := MergeGrid(blockLines, brailleLines);

    result := "";
    var r := 0;
    while r < |blockLines| && r < |brailleLines|
      invariant r <= |merged|
      invariant result == JoinLines(merged[..r])
    {
      var line := MergeLineLoop(blockLines[r], brailleLines[r]);
      JoinLinesPrefix(merged, r);
      result := result + line;
      result := result + "\n";
      r := r + 1;
    }
    assert merged[..r] == merged;
  }

  /** `binary_image_to_braille_block_art`: the block art and the braille art of
      the same image at the same width, overlaid. */
  method BrailleBlockArt(img: Image, width: nat) returns (art: string)
    requires Quantizable(img, width)
    ensures art == JoinLines(MergeGrid(Grid(img, width, Block), Grid(img, width, Braille)))
  {
    var blockArt := BlockArt(img, width);
    var brailleArt := BrailleArt(img, width);
    ArtLinesAreGrid(img, width, Block);
    ArtLinesAreGrid(img, width, Braille);
    art := MergeArt(blockArt, brailleArt);
  }
}
