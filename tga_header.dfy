/**
 The packed 18-byte TGA file header (`tga_header_t`): its fields, their
 little-endian byte layout, and the header the encoder fills in for an image.
 */
module TgaHeader {
  import opened Bytes
  import opened Images

  /** Size of the packed header: no padding between fields. */
  const HeaderSize: nat := 18

  /** `image_type` for uncompressed true-colour data. */
  const TrueColor: byte := 2
  /** `image_type` for uncompressed black-and-white data. */
  const Grayscale: byte := 3
  /** `image_descriptor` with only bit 5 set: rows are stored top to bottom. */
  const TopDown: byte := 0x20

  datatype Header = Header(
    idLength: byte,
    colormapType: byte,
    imageType: byte,
    cmFirstEntry: short,
    cmLength: short,
    cmDepth: byte,
    xOrigin: short,
    yOrigin: short,
    width: short,
    height: short,
    pixelDepth: byte,
    imageDescriptor: byte)

  /** The header after `memset(&h, 0x00, sizeof(h))`. */
  function ZeroHeader(): (h: Header)
    ensures PackHeader(h) == seq(HeaderSize, _ => 0)
  {
    Header(0, 0, 0, 0, 0, 0, 0, 0, 0, 0, 0, 0)
  }

  /** The bytes `fwrite(&h, sizeof(struct tga_header_t), 1, f)` emits on a little-endian host. */
  function PackHeader(h: Header): (r: seq<byte>)
    ensures |r| == HeaderSize
  {
    [h.idLength, h.colormapType, h.imageType]
    + PackShort(h.cmFirstEntry) + PackShort(h.cmLength) + [h.cmDepth]
    + PackShort(h.xOrigin) + PackShort(h.yOrigin)
    + PackShort(h.width) + PackShort(h.height)
    + [h.pixelDepth, h.imageDescriptor]
  }

  /** Reads the 18 header bytes back into the packed structure. */
  function UnpackHeader(b: seq<byte>): (h: Header)
    requires |b| >= HeaderSize
  {
    Header(b[0], b[1], b[2],
      UnpackShort(b[3], b[4]), UnpackShort(b[5], b[6]), b[7],
      UnpackShort(b[8], b[9]), UnpackShort(b[10], b[11]),
      UnpackShort(b[12], b[13]), UnpackShort(b[14], b[15]),
      b[16], b[17])
  }

  /** Packing then unpacking a header gives it back: no field overlaps another. */
  lemma HeaderRoundTrip(h: Header)
    ensures UnpackHeader(PackHeader(h)) == h
  {
    var b := PackHeader(h);
    assert b[3..5] == PackShort(h.cmFirstEntry);
    assert b[5..7] == PackShort(h.cmLength);
    assert b[8..10] == PackShort(h.xOrigin);
    assert b[10..12] == PackShort(h.yOrigin);
    assert b[12..14] == PackShort(h.width);
    assert b[14..16] == PackShort(h.height);
    ShortRoundTrip(h.cmFirstEntry);
    ShortRoundTrip(h.cmLength);
    ShortRoundTrip(h.xOrigin);
    ShortRoundTrip(h.yOrigin);
    ShortRoundTrip(h.width);
    ShortRoundTrip(h.height);
  }

  /**
   The header `save` fills in for an image of a savable variant: zero id,
   colour map and origin, the image type, the narrowed dimensions, the depth in
   bits and the top-down flag.
   */
  function HeaderFor(img: Image): Header
  {
    ZeroHeader().(
      imageType := if img.format == L8 then Grayscale else TrueColor,
      width := ToShort(img.width),
      height := ToShort(img.height),
      pixelDepth := ToUchar(ToUchar(NumComp(img.format)) * 8),
      imageDescriptor := TopDown)
  }

  /**
   The fields of the header `save` fills in: id, colour map and origin are
   zero, the image type is 3 exactly for luminance and 2 otherwise, width and
   height agree with the image's modulo 65536, the depth is eight bits per
   component and only the top-down bit of the descriptor is set.
   */
  lemma HeaderFields(img: Image)
    ensures var h := HeaderFor(img);
      && h.idLength == 0 && h.colormapType == 0
      && h.cmFirstEntry == 0 && h.cmLength == 0 && h.cmDepth == 0
      && h.xOrigin == 0 && h.yOrigin == 0
      && (h.imageType == Grayscale <==> img.format == L8)
      && (h.imageType == TrueColor <==> img.format != L8)
      && (h.width as int) % 65536 == img.width % 65536
      && (h.height as int) % 65536 == img.height % 65536
      && (NumComp(img.format) < 32 ==> h.pixelDepth == 8 * NumComp(img.format))
      && h.imageDescriptor == TopDown
  {
  }

  /**
   The header bytes written for a savable image, offset by offset: bytes 0-1
   and 3-11 are zero, byte 2 is 3 exactly for a luminance image and 2 otherwise,
   bytes 12-13 and 14-15 hold the low 16 bits of the width and the height,
   byte 16 is eight bits per component and byte 17 sets bit 5 only.
   */
  lemma HeaderLayout(img: Image)
    requires img.format in {RGBA, RGB, L8}
    ensures var b := PackHeader(HeaderFor(img));
      && |b| == 18
      && b[0] == 0 && b[1] == 0
      && (forall k | 3 <= k < 12 :: b[k] == 0)
      && (b[2] == 3 <==> img.format == L8)
      && (b[2] == 2 <==> img.format != L8)
      && U16(b[12], b[13]) == img.width % 65536
      && U16(b[14], b[15]) == img.height % 65536
      && b[16] == 8 * NumComp(img.format)
      && b[16] in {8, 24, 32}
      && b[17] == 0x20
  {
    var h := HeaderFor(img);
    var b := PackHeader(h);
    assert b[12..14] == PackShort(h.width);
    assert b[14..16] == PackShort(h.height);
    NarrowedFieldBytes(img.width);
    NarrowedFieldBytes(img.height);
  }

  /**
   Unpacking the header written for an image whose dimensions fit the 16-bit
   fields gives back, read as unsigned, its width and height, along with its
   image type and its depth in bits.
   */
  lemma HeaderReadBack(img: Image)
    requires img.format in {RGBA, RGB, L8}
    requires img.width < 65536 && img.height < 65536
    ensures var hd := UnpackHeader(PackHeader(HeaderFor(img)));
      && (hd.width as int) % 65536 == img.width
      && (hd.height as int) % 65536 == img.height
      && hd.pixelDepth == 8 * NumComp(img.format)
      && hd.imageType == (if img.format == L8 then Grayscale else TrueColor)
  {
    var h := HeaderFor(img);
    assert (h.width as int) % 65536 == img.width;
    assert (h.height as int) % 65536 == img.height;
    assert h.pixelDepth == 8 * NumComp(img.format);
    HeaderRoundTrip(h);
  }
}
