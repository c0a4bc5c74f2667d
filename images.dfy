/**
 The in-memory images the TGA codec exchanges with the host image library, seen
 only through what the codec uses: the concrete variant (which replaces the
 `dynamic_cast` probes), the dimensions, and the flat row-major pixel buffer.
 */
module Images {
  import opened Bytes

  /**
   The runtime kind of an image. `RGBA`, `RGB` and `L8` are the three variants
   the codec knows; `OtherFormat` stands for every other image class of the
   library, with its component count.
   */
  datatype PixelFormat = RGBA | RGB | L8 | OtherFormat(comps: nat)

  /** Bytes per pixel (`numComp()`). */
  function NumComp(f: PixelFormat): (n: nat)
    ensures f == L8 ==> n == 1
    ensures f == RGB ==> n == 3
    ensures f == RGBA ==> n == 4
  {
    match f
    case RGBA => 4
    case RGB => 3
    case L8 => 1
    case OtherFormat(c) => c
  }

  /** An image: its variant, `w()`, `h()` and the buffer returned by `raw()`. */
  datatype Image = Image(format: PixelFormat, width: nat, height: nat, pixels: seq<byte>)
  {
    /** The buffer holds `numComp()` bytes for each of the `w()*h()` pixels. */
    predicate Valid() {
      |pixels| == width * height * NumComp(format)
    }
  }

  /** The failures the codec raises as `Fatal` exceptions, with the file name. */
  datatype TgaError =
    | CannotOpenFile(name: string)
    | UnknownTgaFormat(name: string)
    | CannotSaveFormat(name: string)
}
