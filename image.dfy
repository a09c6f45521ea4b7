/** The decoded image as the rest of the pipeline sees it: a flat buffer of
    bytes and the colour layout the decoder reported. Decoding itself is done
    by an external codec and is not modelled. */
module Image {

  /** An 8-bit channel value. */
  type byte = x: int | 0 <= x < 256

  /** The layouts the decoder can report (`image::ColorType`). */
  datatype ColorType = L8 | La8 | Rgb8 | Rgba8 | Bgr8 | Bgra8 | L16 | La16 | Rgb16 | Rgba16

  datatype DecodedImage = DecodedImage(bytes: seq<byte>, color: ColorType)

  /** Only the two 8-bit four-channel layouts are treated as carrying alpha;
      every other layout is read as three bytes per pixel. */
  predicate HasAlpha(color: ColorType) {
    color == Rgba8 || color == Bgra8
  }

  function BytesPerPixel(hasAlpha: bool): (bpp: nat)
    ensures bpp == 3 || bpp == 4
    ensures hasAlpha <==> bpp == 4
  {
    if hasAlpha then 4 else 3
  }

  /** Whole pixels in the buffer; a trailing partial pixel is ignored. */
  function PixelCount(bytes: seq<byte>, hasAlpha: bool): nat {
    |bytes| / BytesPerPixel(hasAlpha)
  }

  /** Every byte of a pixel whose index is below the pixel count lies inside
      the buffer: this is what makes each read of the sampling loop safe,
      the alpha byte at offset 3 included. */
  lemma PixelInBounds(bytes: seq<byte>, hasAlpha: bool, i: nat, k: nat)
    requires i < PixelCount(bytes, hasAlpha)
    requires k < BytesPerPixel(hasAlpha)
    ensures i * BytesPerPixel(hasAlpha) + k < |bytes|
  {
    var n := PixelCount(bytes, hasAlpha);
    if hasAlpha {
      assert i * 4 + 4 <= n * 4 <= |bytes|;
    } else {
      assert i * 3 + 3 <= n * 3 <= |bytes|;
    }
  }
}
