/** Values shared by the stages of the pipeline: bytes, grayscale images and
    the error a layout can end in. */
module Raster {

  /** An 8-bit channel value (`u8`). */
  type Byte = b: int | 0 <= b < 256

  /** A single-channel (luma) image of `width` columns and `height` rows;
      `luma[y][x]` is the pixel in row `y`, column `x`. */
  datatype Image = Image(width: nat, height: nat, luma: seq<seq<Byte>>)
  {
    /** The pixel rows form a `height` × `width` rectangle. */
    predicate Valid() {
      |luma| == height && forall y :: 0 <= y < height ==> |luma[y]| == width
    }
  }

  /** The only error the layout stage reports itself. */
  datatype Error = NoGlyphFound

  /** `Result<T, Box<dyn Error>>`, usable with `:-` as Rust's `?`. */
  datatype Result<T> = Ok(value: T) | Err(error: Error)
  {
    predicate IsFailure() {
      Err?
    }

    function PropagateFailure<U>(): Result<U>
      requires Err?
    {
      Err(error)
    }

    function Extract(): T
      requires Ok?
    {
      value
    }
  }
}
