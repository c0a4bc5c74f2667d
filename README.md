# TGA image codec (LibSL `ImageFormat_TGA`)

This project models the TGA plugin of LibSL's image library and proves properties of the model. The plugin has two operations.

- `save` writes an RGBA, RGB or L8 (8-bit luminance) image as an uncompressed TGA file. The file is an 18-byte packed header followed by the pixels. Luminance pixels are written verbatim. Colour pixels are written one byte at a time, rows outer and columns inner, in the order B, G, R and then A when there are four components.
- `load` takes the record the external TGA parser returns. Depth 24 becomes an RGB image and depth 32 an RGBA image, whose buffer is a prefix copy of the parsed bytes. A failed parse is an open error. Every other depth is an "unknown format" error.

Modules:

- `Bytes`: `uchar`, `short`, the narrowing casts, and the little-endian layout of a 16-bit field.
- `Images`: the image variants, their component counts, and the error kinds.
- `Outcomes`: `Option` and `Result`.
- `TgaHeader`: the packed header `tga_header_t` and the header `save` fills in.
- `TgaPixels`: the colour pixel section, and a reference red/blue swap it is proved against.
- `ImageFormatTga`: `save` (`Save` and its loops), `load` (`Load`, `Memcpy`), and the properties that relate them.

How the model treats the outside world:

- The file `save` writes is the byte sequence `Save` returns.
- Whether `fopen` succeeds is `Save`'s `canOpen` parameter.
- What the external parser returns is `Load`'s `Option<ParsedTga>` parameter.
- For the round-trip properties, `ReadBack` is a reference reader. It accepts image type 2 at depth 24 or 32 and image type 3 at depth 8. It reads the header dimensions as unsigned 16-bit values and restores R, G, B order. It stands for the parser, whose code is not part of this model.

## Model

| member | source | states |
|---|---|---|
| Bytes.ToShort | src/LibSL/Image/ImageFormat_TGA.cpp:169-170 | `static_cast<short>` keeps the low 16 bits of a dimension. Values already in `short` range are unchanged. |
| Bytes.ToUchar | src/LibSL/Image/ImageFormat_TGA.cpp:171 | `static_cast<uchar>` is the identity on values below 256. |
| Bytes.PackShort | src/LibSL/Image/ImageFormat_TGA.cpp:125-133 | A `short` field takes two bytes, low byte first, and they hold its value mod 65536. |
| Bytes.ShortRoundTrip | src/LibSL/Image/ImageFormat_TGA.cpp:125-133 | Reading a packed `short` back gives the same value. |
| Bytes.NarrowedFieldBytes | src/LibSL/Image/ImageFormat_TGA.cpp:169-170 | The bytes written for a narrowed dimension, read as unsigned 16-bit, are the dimension mod 65536. A dimension below 65536 is stored exactly, including 32768 to 65535 where the `short` is negative. |
| TgaHeader.ZeroHeader | src/LibSL/Image/ImageFormat_TGA.cpp:155-156 | The header after `memset` to zero packs to 18 zero bytes. |
| TgaHeader.PackHeader | src/LibSL/Image/ImageFormat_TGA.cpp:117-138 | The packed header is exactly 18 bytes: no padding. |
| TgaHeader.HeaderRoundTrip | src/LibSL/Image/ImageFormat_TGA.cpp:117-138 | Unpacking a packed header gives every field back, so no two fields overlap. |
| TgaHeader.HeaderFor | src/LibSL/Image/ImageFormat_TGA.cpp:155-172 | The header `save` fills in for an image, field by field as the source assigns them. Its field values are stated by `TgaHeader.HeaderFields`. |
| TgaHeader.HeaderFields | src/LibSL/Image/ImageFormat_TGA.cpp:155-172 | In the header `save` fills in: the id, colour-map and origin fields are zero; the image type is 3 iff the image is L8 and 2 iff it is not; width and height agree with the image's modulo 65536; the depth is 8 times the component count; the descriptor is 0x20. |
| TgaHeader.HeaderLayout | src/LibSL/Image/ImageFormat_TGA.cpp:155-173 | The header written has these bytes: 0-1 and 3-11 zero; byte 2 is 3 iff the image is L8 and 2 iff it is not; bytes 12-13 and 14-15 are the width and height mod 65536; byte 16 is 8 times the component count (8, 24 or 32); byte 17 is 0x20. |
| TgaHeader.HeaderReadBack | src/LibSL/Image/ImageFormat_TGA.cpp:159-172 | For dimensions below 65536, the unpacked header gives back the width, height, depth in bits and image type. |
| TgaPixels.Channel | src/LibSL/Image/ImageFormat_TGA.cpp:180-185 | Output byte `k < 3` of a pixel comes from channel `2 - k`. Byte 3 comes from channel 3. |
| TgaPixels.PixelOut | src/LibSL/Image/ImageFormat_TGA.cpp:180-185 | Each pixel is written as exactly `numComp` bytes. |
| TgaPixels.PixelOutAt | src/LibSL/Image/ImageFormat_TGA.cpp:180-185 | Byte `k` written for pixel `p` is `data[p*n + Channel(k)]`, i.e. `data[p*n+2]`, `data[p*n+1]`, `data[p*n]`, then `data[p*n+3]`. |
| TgaPixels.Encoded | src/LibSL/Image/ImageFormat_TGA.cpp:179-186 | The bytes the colour loop writes for pixels `0 .. count-1`, one pixel after another. The section is `count * n` bytes long. |
| TgaPixels.EncodedAt | src/LibSL/Image/ImageFormat_TGA.cpp:179-186 | In the section, byte `p*n + k` is `data[p*n + Channel(k)]`, for every pixel `p` and component `k`. |
| TgaPixels.SwapInvolution | src/LibSL/Image/ImageFormat_TGA.cpp:181 | Swapping channels 0 and 2 of every pixel twice restores the buffer. |
| TgaPixels.SwapAt | src/LibSL/Image/ImageFormat_TGA.cpp:181 | In the swapped buffer, byte `p*n + k` is `s[p*n + Channel(k)]`. |
| TgaPixels.EncodedIsSwap | src/LibSL/Image/ImageFormat_TGA.cpp:179-186 | The section written for `count` pixels equals the reference swap of the first `count * n` bytes of the buffer. |
| ImageFormatTga.WritePixel | src/LibSL/Image/ImageFormat_TGA.cpp:180-185 | The three `fwrite`s for channels `2 - c` and the alpha `fwrite` append exactly `PixelOut` for that pixel. |
| ImageFormatTga.AppendPixel | src/LibSL/Image/ImageFormat_TGA.cpp:179-186 | One iteration of the pixel loop turns the section for the pixels before `p` into the section up to and including `p`. |
| ImageFormatTga.WriteRow | src/LibSL/Image/ImageFormat_TGA.cpp:179-186 | The column loop of row `j` appends pixels `j*w` to `j*w + w - 1`, in order. |
| ImageFormatTga.WriteRows | src/LibSL/Image/ImageFormat_TGA.cpp:179-186 | The row loop appends the section for all `w*h` pixels. |
| ImageFormatTga.WriteColorPixels | src/LibSL/Image/ImageFormat_TGA.cpp:177-186 | For an RGB or RGBA image, the colour branch appends exactly the pixel section. |
| ImageFormatTga.Save | src/LibSL/Image/ImageFormat_TGA.cpp:142-190 | A variant other than RGBA, RGB and L8 fails with the save-format error whatever `canOpen` is, so the check comes before any open. Otherwise a failed open fails with the open error. Otherwise the file is exactly the header followed by the pixel section. |
| ImageFormatTga.PixelSection | src/LibSL/Image/ImageFormat_TGA.cpp:174-186 | What `save` writes after the header: the L8 buffer, or the colour loop's bytes. Either way it is as long as the image buffer. |
| ImageFormatTga.EncodedFile | src/LibSL/Image/ImageFormat_TGA.cpp:173-186 | The whole file `save` writes: 18 header bytes followed by as many bytes as the image buffer holds (`w*h*numComp`). |
| ImageFormatTga.LuminancePassthrough | src/LibSL/Image/ImageFormat_TGA.cpp:175-176 | After the header, an L8 file is the image buffer unchanged. |
| ImageFormatTga.ColorChannelOrder | src/LibSL/Image/ImageFormat_TGA.cpp:179-186 | After the header of an RGB or RGBA file, byte `p*n + k` is channel `Channel(k)` of pixel `p` of the image. |
| ImageFormatTga.ColorSectionRecoverable | src/LibSL/Image/ImageFormat_TGA.cpp:179-186 | Swapping channels 0 and 2 back in an RGB or RGBA file's pixel section gives back the image buffer. |
| ImageFormatTga.Decoded | src/LibSL/Image/ImageFormat_TGA.cpp:84-108 | `load` succeeds iff the parse succeeded with depth 24 or 32. A failed parse is the open error, and any other depth is the unknown-format error. On success the image is RGB for 24 and RGBA for 32 (8 bits per component), has the parsed width and height, and its buffer is the `w*h*n`-byte prefix of the parsed pixels. |
| ImageFormatTga.Memcpy | src/LibSL/Image/ImageFormat_TGA.cpp:99-105 | `memcpy` makes the first `count` bytes of the destination those of the source and leaves the rest unchanged. |
| ImageFormatTga.Load | src/LibSL/Image/ImageFormat_TGA.cpp:84-113 | `load` allocates the image and copies the pixels, and its outcome is exactly `Decoded`. |
| ImageFormatTga.ReadBackColor | src/LibSL/Image/ImageFormat_TGA.cpp:169-186 | Reading back the file written for an RGB or RGBA image with dimensions below 65536 gives its width, height, depth `8*n` and buffer. |
| ImageFormatTga.SaveLoadRoundTrip | src/LibSL/Image/ImageFormat_TGA.cpp:94-105 | For an RGB or RGBA image with dimensions below 65536, `load` applied to what the reference reader `ReadBack` makes of the file `save` wrote gives the same image. |
| ImageFormatTga.ReadBackLuminance | src/LibSL/Image/ImageFormat_TGA.cpp:159-176 | Reading back the file written for an L8 image with dimensions below 65536 gives its width, height, depth 8 and buffer. |
| ImageFormatTga.LuminanceNotLoadable | src/LibSL/Image/ImageFormat_TGA.cpp:94-108 | For an L8 image, `load` applied to what the reference reader `ReadBack` makes of the file `save` wrote is the unknown-format error, because the depth read back is 8. What the real parser reports for such a file is not part of this model. |

## Left out

- Plugin registration (the global instance and the constructor that registers with the format manager, lines 65-80): static initialisation, which has no pixel or header logic.
- File I/O. `fopen_s` becomes the `canOpen` parameter. The `fwrite` results are not checked by the source, and the model treats every write as succeeding. `fclose` is not modelled.
- The TGA parser `ReadTGAFile` and its record type: their code is not part of this model. `Load` receives the parser's result as a parameter. `HoldsPixels` states the one thing `load` relies on: that the buffer holds the `w*h*3` or `w*h*4` bytes `memcpy` reads. `ReadBack` is a reference reader for the round-trip properties, not the parser.
- Freeing the parser's record (lines 110-111), and the leak of that record and its pixel buffer when an unknown depth throws (line 107): memory management, which has no effect on the result.
- The `ForImage` and `ForIndex` macros are defined outside this file. The model takes `ForImage` as rows `j` outer and columns `i` inner, visiting pixel `i + j*w`.
- `sl_assert(numComp() >= 3)`: in the colour branch the image is RGB or RGBA, so the assertion always holds.
- Host endianness: the header is laid out as a little-endian host stores it.
- The text of the error messages: an error carries only its kind and the file name.
- The image classes, modelled as a format tag, dimensions and a byte buffer. A variant `save` cannot write is `OtherFormat`.
- ImageFormatTga.SaveLoadRoundTrip: covers only dimensions below 65536. Above that, the narrowing at lines 169-170 drops the high bits, and `TgaHeader.HeaderLayout` states what is written instead.
- ImageFormatTga.ReadBackColor: covers only dimensions below 65536, for the same reason.
- ImageFormatTga.ReadBackLuminance: covers only dimensions below 65536, for the same reason.
- ImageFormatTga.Load: `w` and `h` are `uint`, so the copy sizes `w*h*3` and `w*h*4` (lines 99 and 105) wrap mod 2^32 in the source. The model uses unbounded integers and is exact only while `w*h*n < 2^32`.
- ImageFormatTga.Decoded: promises the full `w*h*n`-byte prefix. The source copies `w*h*n mod 2^32` bytes, so the two agree only while `w*h*n < 2^32`.
- ImageFormatTga.Save: the sizes `img->w()*img->h()` (line 176) and the byte offsets `(i + j*img->w())*img->numComp() + (2-c)` (line 181) are 32-bit unsigned in the source and wrap once `w*h*n` exceeds 2^32. The model is exact only while `w*h*n < 2^32`.
- ImageFormatTga.SaveLoadRoundTrip: for the same reason, it describes the source only while `w*h*n < 2^32`, e.g. not for a 65535 by 65535 RGB image.
