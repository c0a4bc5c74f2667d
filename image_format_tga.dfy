/**
 The TGA codec plugin (`ImageFormat_TGA`): `save` writes an RGBA, RGB or L8
 image as an uncompressed TGA file, `load` turns the record produced by the
 external TGA parser into an RGB or RGBA image.

 The file written by `save` is the byte sequence the method returns; whether
 `fopen` succeeds is the parameter `canOpen`. The parser's result is an
 `Option<ParsedTga>`: `None` when it could not open or read the file.
 */
module ImageFormatTga {
  import opened Bytes
  import opened Outcomes
  import opened Images
  import opened TgaHeader
  import opened TgaPixels

  /** The variants `save` accepts: those its three `dynamic_cast` probes recognise. */
  predicate Savable(f: PixelFormat) {
    f == RGBA || f == RGB || f == L8
  }

  /**
   The pixel section of the file: a luminance buffer verbatim, otherwise every
   pixel, rows outer and columns inner, as B, G, R and, with four components, A.
   */
  function PixelSection(img: Image): (r: seq<byte>)
    requires img.Valid() && Savable(img.format)
    ensures |r| == |img.pixels|
  {
    if img.format == L8 then img.pixels[..img.width * img.height]
    else Encoded(img.pixels, NumComp(img.format), img.width * img.height)
  }

  /**
   The whole file `save` writes for a savable image: the 18-byte header, then
   `numComp` bytes for each of the `w*h` pixels.
   */
  function EncodedFile(img: Image): (r: seq<byte>)
    requires img.Valid() && Savable(img.format)
    ensures |r| == HeaderSize + |img.pixels|
    ensures r[..HeaderSize] == PackHeader(HeaderFor(img))
  {
    PackHeader(HeaderFor(img)) + PixelSection(img)
  }

  /** Multiplying both sides of `a <= b` by the same count keeps the order. */
  lemma MulLeft(a: nat, b: nat, c: nat)
    requires a <= b
    ensures a * c <= b * c
  {
  }

  /** Pixel `p` of a row ending before pixel `end` lies inside a buffer that holds `end` pixels. */
  lemma PixelInRow(p: nat, end: nat, n: nat, size: nat)
    requires ColorComps(n) && p < end && end * n <= size
    ensures (p + 1) * n <= size
  {
    MulLeft(p + 1, end, n);
  }

  /** Row `j` of a `w` by `h` image ends where row `j + 1` starts, inside the buffer. */
  lemma RowInImage(j: nat, w: nat, h: nat, n: nat)
    requires j < h
    ensures j * w + w == (j + 1) * w
    ensures (j * w + w) * n <= w * h * n
  {
    MulLeft(j + 1, h, w);
    MulLeft((j + 1) * w, h * w, n);
    assert h * w * n == w * h * n;
  }

  /** Once `j` rows are written, the next row starts at pixel `j * w`, inside the buffer. */
  lemma RowsBefore(j: nat, w: nat, h: nat, n: nat)
    requires 0 < j <= h
    ensures (j - 1) * w + w == j * w
    ensures (j * w) * n <= w * h * n
  {
    MulLeft(j, h, w);
    MulLeft(j * w, h * w, n);
    assert h * w * n == w * h * n;
  }

  /** After the last row, the rows written cover all `w * h` pixels. */
  lemma AllRows(j: nat, w: nat, h: nat)
    requires j == h
    ensures j * w == w * h
  {
  }

  /**
   The writes for one pixel `p` in the body of `save`'s loop: channels 2, 1, 0,
   then channel 3 when there are four components, one byte per `fwrite`.
   */
  method WritePixel(file: seq<byte>, data: seq<byte>, n: nat, p: nat) returns (file': seq<byte>)
    requires ColorComps(n) && (p + 1) * n <= |data|
    ensures file' == file + PixelOut(data, n, p)
  {
    file' := file;
    assert (p + 1) * n == p * n + n;
    assert 0 <= p * n && p * n + n <= |data|;
    for c := 0 to 3
      invariant file' == file + PixelOut(data, n, p)[..c]
    {
      file' := file' + [data[p * n + (2 - c)]];
    }
    if n == 4 {
      file' := file' + [data[p * n + 3]];
    }
  }

  /** Writing pixel `p` after the section for the pixels before it gives the section up to `p`. */
  method AppendPixel(file: seq<byte>, ghost head: seq<byte>, data: seq<byte>, n: nat, p: nat)
    returns (file': seq<byte>)
    requires ColorComps(n) && (p + 1) * n <= |data|
    requires file == head + Encoded(data, n, p)
    ensures file' == head + Encoded(data, n, p + 1)
  {
    EncodedStep(data, n, p);
    file' := WritePixel(file, data, n, p);
  }

  /**
   One row of `save`'s pixel loop: the row starts at pixel `start` (`j * w`),
   and its columns `i` from 0 to `w - 1` are written by `WritePixel` as pixel
   `i + j * w`. `head` is what the file held before the first pixel.
   */
  method WriteRow(file: seq<byte>, ghost head: seq<byte>, data: seq<byte>, n: nat, start: nat, w: nat)
    returns (file': seq<byte>)
    requires ColorComps(n) && (start + w) * n <= |data|
    requires start * n <= |data|
    requires file == head + Encoded(data, n, start)
    ensures file' == head + Encoded(data, n, start + w)
  {
    file' := file;
    var i, p := 0, start;
    while i < w
      invariant 0 <= i <= w && p == start + i
      invariant p * n <= |data|
      invariant file' == head + Encoded(data, n, p)
    {
      PixelInRow(p, start + w, n, |data|);
      file' := AppendPixel(file', head, data, n, p);
      i, p := i + 1, p + 1;
    }
  }

  /**
   The pixel loop of `save` (`ForImage`) over a `w` by `h` buffer of `n`
   components per pixel: rows `j` outer, columns `i` inner.
   */
  method WriteRows(file: seq<byte>, data: seq<byte>, w: nat, h: nat, n: nat) returns (file': seq<byte>)
    requires ColorComps(n) && |data| == w * h * n
    ensures file' == file + Encoded(data, n, w * h)
  {
    file' := file;
    var j := 0;
    while j < h
      invariant 0 <= j <= h
      invariant (j * w) * n <= |data|
      invariant file' == file + Encoded(data, n, j * w)
    {
      RowInImage(j, w, h, n);
      file' := WriteRow(file', file, data, n, j * w, w);
      j := j + 1;
      RowsBefore(j, w, h, n);
    }
    AllRows(j, w, h);
  }

  /** The pixel section `save` writes for an RGB or RGBA image. */
  method WriteColorPixels(file: seq<byte>, img: Image) returns (file': seq<byte>)
    requires img.Valid() && img.format in {RGB, RGBA}
    ensures file' == file + PixelSection(img)
  {
    var n := NumComp(img.format);
    assert ColorComps(n);
    file' := WriteRows(file, img.pixels, img.width, img.height, n);
  }

  /**
   `ImageFormat_TGA::save`. An image that is none of RGBA, RGB and L8 is
   rejected whatever `canOpen` says: the variant is checked before the file is
   opened. Otherwise, if the file opens, what is written is `EncodedFile(img)`.
   */
  method Save(name: string, img: Image, canOpen: bool) returns (r: Result<seq<byte>, TgaError>)
    requires img.Valid()
    ensures !Savable(img.format) ==> r == Failure(CannotSaveFormat(name))
    ensures Savable(img.format) && !canOpen ==> r == Failure(CannotOpenFile(name))
    ensures Savable(img.format) && canOpen ==> r == Success(EncodedFile(img))
  {
    var isRgba, isRgb, isLum := img.format == RGBA, img.format == RGB, img.format == L8;
    if !isRgba && !isRgb && !isLum {
      return Failure(CannotSaveFormat(name));
    }
    if !canOpen {
      return Failure(CannotOpenFile(name));
    }
    var hdr := ZeroHeader();
    hdr := hdr.(idLength := 0, colormapType := 0);
    if isLum {
      hdr := hdr.(imageType := Grayscale);
    } else {
      hdr := hdr.(imageType := TrueColor);
    }
    hdr := hdr.(cmFirstEntry := 0, cmLength := 0, cmDepth := 0);
    hdr := hdr.(xOrigin := 0, yOrigin := 0);
    hdr := hdr.(width := ToShort(img.width), height := ToShort(img.height));
    hdr := hdr.(pixelDepth := ToUchar(ToUchar(NumComp(img.format)) * 8));
    hdr := hdr.(imageDescriptor := TopDown);
    assert hdr == HeaderFor(img);
    var file := PackHeader(hdr);
    if isLum {
      file := file + img.pixels[..img.width * img.height];
    } else {
      file := WriteColorPixels(file, img);
    }
    r := Success(file);
  }

  /** A luminance image is written as the header followed by its buffer, unchanged. */
  lemma LuminancePassthrough(img: Image)
    requires img.Valid() && img.format == L8
    ensures EncodedFile(img)[HeaderSize..] == img.pixels
  {
    assert EncodedFile(img)[HeaderSize..] == PixelSection(img);
  }

  /**
   In an RGB or RGBA file, byte `k` of pixel `p` after the header is channel
   `Channel(k)` of that pixel in memory: B, G, R, then A for RGBA.
   */
  lemma ColorChannelOrder(img: Image, p: nat, k: nat)
    requires img.Valid() && img.format in {RGB, RGBA}
    requires p < img.width * img.height && k < NumComp(img.format)
    ensures HeaderSize + p * NumComp(img.format) + k < |EncodedFile(img)|
    ensures EncodedFile(img)[HeaderSize + p * NumComp(img.format) + k]
         == img.pixels[p * NumComp(img.format) + Channel(k)]
  {
    var n := NumComp(img.format);
    var count := img.width * img.height;
    ColorSection(img);
    EncodedAt(img.pixels, n, count, p, k);
  }

  /** After the header, an RGB or RGBA file holds the colour loop's bytes for all `w*h` pixels. */
  lemma ColorSection(img: Image)
    requires img.Valid() && img.format in {RGB, RGBA}
    ensures ColorComps(NumComp(img.format))
    ensures img.width * img.height * NumComp(img.format) == |img.pixels|
    ensures EncodedFile(img)[HeaderSize..]
         == Encoded(img.pixels, NumComp(img.format), img.width * img.height)
  {
    FileStartsWithHeader(img);
  }

  /**
   Swapping the first and third byte of every pixel of an RGB or RGBA file's
   pixel section gives back the image's buffer.
   */
  lemma ColorSectionRecoverable(img: Image)
    requires img.Valid() && img.format in {RGB, RGBA}
    ensures SwapRedBlue(EncodedFile(img)[HeaderSize..], NumComp(img.format)) == img.pixels
  {
    var n := NumComp(img.format);
    var count := img.width * img.height;
    EncodedIsSwap(img.pixels, n, count);
    assert img.pixels[..count * n] == img.pixels;
    assert EncodedFile(img)[HeaderSize..] == PixelSection(img);
    SwapInvolution(img.pixels, n);
  }

  /** What the external parser reports for a file it could read. */
  datatype ParsedTga = ParsedTga(width: nat, height: nat, depth: int, pixels: seq<byte>)

  /**
   What `load` relies on from the parser: at 24 or 32 bits per pixel its buffer
   holds at least the `w*h*3` or `w*h*4` bytes that `memcpy` reads.
   */
  predicate HoldsPixels(t: ParsedTga) {
    && (t.depth == 24 ==> t.width * t.height * 3 <= |t.pixels|)
    && (t.depth == 32 ==> t.width * t.height * 4 <= |t.pixels|)
  }

  /** The outcome `load` produces from the parser's result. */
  function Decoded(name: string, parsed: Option<ParsedTga>): (r: Result<Image, TgaError>)
    requires parsed.Some? ==> HoldsPixels(parsed.value)
    ensures r.Success? <==> parsed.Some? && parsed.value.depth in {24, 32}
    ensures parsed.None? ==> r == Failure(CannotOpenFile(name))
    ensures parsed.Some? && parsed.value.depth !in {24, 32} ==> r == Failure(UnknownTgaFormat(name))
    ensures r.Success? ==>
      && r.value.Valid()
      && r.value.format in {RGB, RGBA}
      && 8 * NumComp(r.value.format) == parsed.value.depth
      && r.value.width == parsed.value.width
      && r.value.height == parsed.value.height
      && r.value.pixels == parsed.value.pixels[..|r.value.pixels|]
  {
    match parsed
    case None => Failure(CannotOpenFile(name))
    case Some(t) =>
      if t.depth == 24 then Success(Image(RGB, t.width, t.height, t.pixels[..t.width * t.height * 3]))
      else if t.depth == 32 then Success(Image(RGBA, t.width, t.height, t.pixels[..t.width * t.height * 4]))
      else Failure(UnknownTgaFormat(name))
  }

  /** `memcpy(dst, src, count)`: the first `count` bytes of `dst` become those of `src`. */
  method Memcpy(dst: array<byte>, src: seq<byte>, count: nat)
    requires count <= dst.Length && count <= |src|
    modifies dst
    ensures dst[..count] == src[..count]
    ensures dst[count..] == old(dst[count..])
  {
    for k := 0 to count
      invariant dst[..k] == src[..k]
      invariant dst[k..] == old(dst[k..])
    {
      dst[k] := src[k];
    }
  }

  /**
   `ImageFormat_TGA::load`: a failed parse is an open error, depth 24 gives an
   RGB image and depth 32 an RGBA image whose buffers are copied from the
   parsed bytes, and every other depth is an unknown format.
   */
  method Load(name: string, parsed: Option<ParsedTga>) returns (r: Result<Image, TgaError>)
    requires parsed.Some? ==> HoldsPixels(parsed.value)
    ensures r == Decoded(name, parsed)
  {
    if parsed.None? {
      return Failure(CannotOpenFile(name));
    }
    var tga := parsed.value;
    var w, h := tga.width, tga.height;
    if tga.depth == 24 {
      var pixels := new byte[w * h * 3];
      Memcpy(pixels, tga.pixels, w * h * 3);
      assert pixels[..] == tga.pixels[..w * h * 3];
      r := Success(Image(RGB, w, h, pixels[..]));
    } else if tga.depth == 32 {
      var pixels := new byte[w * h * 4];
      Memcpy(pixels, tga.pixels, w * h * 4);
      assert pixels[..] == tga.pixels[..w * h * 4];
      r := Success(Image(RGBA, w, h, pixels[..]));
    } else {
      r := Failure(UnknownTgaFormat(name));
    }
  }

  /**
   A reader of the files `save` writes, used to state the round trip: it
   unpacks the 18-byte header, reads width and height as unsigned 16-bit
   fields, and for true-colour data swaps the first and third byte of each
   pixel back. The real parser is not part of this model; the round trip holds
   for any parser that delivers what this one does.
   */
  function ReadBack(file: seq<byte>): (t: Option<ParsedTga>)
  {
    if |file| < HeaderSize then None
    else ReadBody(UnpackHeader(file[..HeaderSize]), file[HeaderSize..])
  }

  /** The part of `ReadBack` after the header: dimensions, depth and pixel bytes. */
  function ReadBody(hd: Header, body: seq<byte>): (t: Option<ParsedTga>)
  {
    var w, h := (hd.width as int) % 65536, (hd.height as int) % 65536;
    var count := w * h;
    if hd.imageType == TrueColor && hd.pixelDepth == 24 && |body| == count * 3 then
      Some(ParsedTga(w, h, 24, SwapRedBlue(body, 3)))
    else if hd.imageType == TrueColor && hd.pixelDepth == 32 && |body| == count * 4 then
      Some(ParsedTga(w, h, 32, SwapRedBlue(body, 4)))
    else if hd.imageType == Grayscale && hd.pixelDepth == 8 && |body| == count then
      Some(ParsedTga(w, h, 8, body))
    else None
  }

  /** The first 18 bytes of the file are the packed header. */
  lemma FileStartsWithHeader(img: Image)
    requires img.Valid() && Savable(img.format)
    ensures |EncodedFile(img)| >= HeaderSize
    ensures EncodedFile(img)[..HeaderSize] == PackHeader(HeaderFor(img))
    ensures EncodedFile(img)[HeaderSize..] == PixelSection(img)
  {
  }

  /**
   Round trip: an RGB or RGBA image whose dimensions fit the 16-bit fields,
   saved and read back by a parser that restores R, G, B order, is loaded as
   the same image.
   */
  lemma SaveLoadRoundTrip(name: string, img: Image)
    requires img.Valid() && img.format in {RGB, RGBA}
    requires img.width < 65536 && img.height < 65536
    ensures ReadBack(EncodedFile(img)).Some?
    ensures HoldsPixels(ReadBack(EncodedFile(img)).value)
    ensures Decoded(name, ReadBack(EncodedFile(img))) == Success(img)
  {
    var n := NumComp(img.format);
    ReadBackColor(img);
    var t := ParsedTga(img.width, img.height, 8 * n, img.pixels);
    assert img.pixels[..img.width * img.height * n] == img.pixels;
    if img.format == RGB {
      assert Decoded(name, Some(t)) == Success(Image(RGB, img.width, img.height, img.pixels));
    } else {
      assert Decoded(name, Some(t)) == Success(Image(RGBA, img.width, img.height, img.pixels));
    }
  }

  /** The reader recovers the dimensions, the depth and the buffer of an RGB or RGBA image. */
  lemma ReadBackColor(img: Image)
    requires img.Valid() && img.format in {RGB, RGBA}
    requires img.width < 65536 && img.height < 65536
    ensures ReadBack(EncodedFile(img))
         == Some(ParsedTga(img.width, img.height, 8 * NumComp(img.format), img.pixels))
  {
    var n := NumComp(img.format);
    var hdr := PackHeader(HeaderFor(img));
    var body := EncodedFile(img)[HeaderSize..];
    ColorFileParts(img);
    ColorHeader(img);
    ColorBody(UnpackHeader(hdr), body, img.width, img.height, n);
    ReadBackSplit(EncodedFile(img), hdr, body);
  }

  /**
   The file written for an RGB or RGBA image is its header followed by `w*h*n`
   bytes whose red/blue swap is the image buffer.
   */
  lemma ColorFileParts(img: Image)
    requires img.Valid() && img.format in {RGB, RGBA}
    ensures ColorComps(NumComp(img.format))
    ensures |EncodedFile(img)| >= HeaderSize
    ensures EncodedFile(img)[..HeaderSize] == PackHeader(HeaderFor(img))
    ensures |EncodedFile(img)[HeaderSize..]| == img.width * img.height * NumComp(img.format)
    ensures SwapRedBlue(EncodedFile(img)[HeaderSize..], NumComp(img.format)) == img.pixels
  {
    FileStartsWithHeader(img);
    ColorSectionRecoverable(img);
  }

  /** The header written for an RGB or RGBA image reads back as true colour, depth `8*n`, with its dimensions. */
  lemma ColorHeader(img: Image)
    requires img.format in {RGB, RGBA}
    requires img.width < 65536 && img.height < 65536
    ensures var hd := UnpackHeader(PackHeader(HeaderFor(img)));
      && hd.imageType == TrueColor && hd.pixelDepth == 8 * NumComp(img.format)
      && (hd.width as int) % 65536 == img.width && (hd.height as int) % 65536 == img.height
  {
    HeaderReadBack(img);
  }

  /** A true-colour header of depth `8*n` over exactly `w*h*n` bytes is read as their red/blue swap. */
  lemma ColorBody(hd: Header, body: seq<byte>, w: nat, h: nat, n: nat)
    requires ColorComps(n) && hd.imageType == TrueColor && hd.pixelDepth == 8 * n
    requires (hd.width as int) % 65536 == w && (hd.height as int) % 65536 == h
    requires |body| == w * h * n
    ensures ReadBody(hd, body) == Some(ParsedTga(w, h, 8 * n, SwapRedBlue(body, n)))
  {
    if n == 3 {
      assert |body| == (w * h) * 3;
    } else {
      assert |body| == (w * h) * 4;
    }
  }

  /**
   A luminance image that `save` wrote is not one `load` accepts: its depth of
   8 bits is rejected as an unknown format.
   */
  lemma LuminanceNotLoadable(name: string, img: Image)
    requires img.Valid() && img.format == L8
    requires img.width < 65536 && img.height < 65536
    ensures ReadBack(EncodedFile(img)).Some?
    ensures Decoded(name, ReadBack(EncodedFile(img))) == Failure(UnknownTgaFormat(name))
  {
    ReadBackLuminance(img);
  }

  /** The reader recovers the dimensions and the buffer of a luminance image, at depth 8. */
  lemma ReadBackLuminance(img: Image)
    requires img.Valid() && img.format == L8
    requires img.width < 65536 && img.height < 65536
    ensures ReadBack(EncodedFile(img)) == Some(ParsedTga(img.width, img.height, 8, img.pixels))
  {
    var hdr := PackHeader(HeaderFor(img));
    LuminanceFileParts(img);
    LuminanceHeader(img);
    GrayBody(UnpackHeader(hdr), img.pixels, img.width, img.height);
    ReadBackSplit(EncodedFile(img), hdr, img.pixels);
  }

  /** The file written for a luminance image is its header followed by its `w*h` pixels. */
  lemma LuminanceFileParts(img: Image)
    requires img.Valid() && img.format == L8
    ensures |img.pixels| == img.width * img.height
    ensures |EncodedFile(img)| >= HeaderSize
    ensures EncodedFile(img)[..HeaderSize] == PackHeader(HeaderFor(img))
    ensures EncodedFile(img)[HeaderSize..] == img.pixels
  {
    assert NumComp(img.format) == 1;
    FileStartsWithHeader(img);
    LuminancePassthrough(img);
  }

  /** The header written for a luminance image reads back as grayscale, depth 8, with its dimensions. */
  lemma LuminanceHeader(img: Image)
    requires img.format == L8
    requires img.width < 65536 && img.height < 65536
    ensures var hd := UnpackHeader(PackHeader(HeaderFor(img)));
      && hd.imageType == Grayscale && hd.pixelDepth == 8
      && (hd.width as int) % 65536 == img.width && (hd.height as int) % 65536 == img.height
  {
    HeaderReadBack(img);
  }

  /** A file that is a header followed by a body is read by reading that body under that header. */
  lemma ReadBackSplit(file: seq<byte>, hdr: seq<byte>, body: seq<byte>)
    requires |file| >= HeaderSize && file[..HeaderSize] == hdr && file[HeaderSize..] == body
    ensures ReadBack(file) == ReadBody(UnpackHeader(hdr), body)
  {
  }

  /** A grayscale header at depth 8 over exactly `w * h` bytes is read as those bytes. */
  lemma GrayBody(hd: Header, body: seq<byte>, w: nat, h: nat)
    requires hd.imageType == Grayscale && hd.pixelDepth == 8
    requires (hd.width as int) % 65536 == w && (hd.height as int) % 65536 == h
    requires |body| == w * h
    ensures ReadBody(hd, body) == Some(ParsedTga(w, h, 8, body))
  {
  }
}
