/** The render callback of src/dump-tile-png.js: the correction pass and the
    raw raster it hands to the encoder, declared as `width x height` pixels of
    four channels (the scale is 1).

    As written, the callback takes only `err` and runs the pass over `data`,
    the vector-tile bytes fetched before rendering; the raster the renderer
    produced is never read. `EncoderInputAsWritten` models that, and
    `EncoderInput` the evidently intended callback, which reads the raster. */
module RenderCallback {
  import opened Bytes
  import opened Alpha
  import opened Viewport

  /** Bytes of a raw RGBA raster of the viewport's size. */
  function RasterLength(p: Params): nat
  {
    p.width * p.height * 4
  }

  /** The encoder's input as written: the corrected fetched bytes, whatever
      the renderer produced. */
  function EncoderInputAsWritten(fetched: seq<Byte>, rendered: seq<Byte>): (r: seq<Byte>)
    ensures |r| == |fetched|
    ensures forall k :: 0 <= k < |r| ==> r[k] == StraightByte(fetched, k)
  {
    Unpremultiplied(fetched)
  }

  /** Ten fetched bytes, standing for any vector tile whose size is not that
      of the raster. */
  const SmallTile: seq<Byte> := [1, 2, 3, 4, 5, 6, 7, 8, 9, 10]

  /** With the script's tile at zoom 13 and a ten-byte tile fetched, the
      encoder is handed ten bytes where a 128 x 128 RGBA raster has 65536, and
      two different rendered rasters give the same input. The last two bytes
      form a partial pixel and are zeroed. */
  lemma AsWrittenIgnoresRaster()
    ensures var vp := ViewportFor(13);
            var blank := seq(RasterLength(vp), _ => 0);
            var white := seq(RasterLength(vp), _ => 255);
            && RasterLength(vp) == 65536
            && |EncoderInputAsWritten(SmallTile, blank)| == 10
            && blank != white
            && EncoderInputAsWritten(SmallTile, blank) == EncoderInputAsWritten(SmallTile, white)
            && EncoderInputAsWritten(SmallTile, blank)[8..] == [0, 0]
  {
    var vp := ViewportFor(13);
    var blank := seq(RasterLength(vp), _ => 0);
    var white := seq(RasterLength(vp), _ => 255);
    assert blank[0] != white[0];
  }

  /** The encoder's input as intended: the corrected raster. */
  function EncoderInput(rendered: seq<Byte>): (r: seq<Byte>)
    ensures |r| == |rendered|
    ensures forall k :: 0 <= k < |r| ==> r[k] == StraightByte(rendered, k)
  {
    Unpremultiplied(rendered)
  }

  /** A buffer of whole pixels has no partial pixel: every byte's alpha
      byte lies inside it. */
  lemma WholePixels(n: nat, k: nat)
    requires n % 4 == 0 && k < n
    ensures AlphaIndex(k) < n
  {
    var q := k / 4;
    assert k == 4 * q + k % 4;
    assert 4 * q < n;
    assert 4 * q + 4 <= n;
  }

  /** A raster of the viewport's size is handed on at that size, and each of
      its pixels is corrected as a whole: no byte falls into the partial
      pixel case. */
  lemma EncoderInputFitsViewport(z: nat, rendered: seq<Byte>)
    requires |rendered| == RasterLength(ViewportFor(z))
    ensures |EncoderInput(rendered)| == RasterLength(ViewportFor(z))
    ensures forall k :: 0 <= k < |rendered| ==> AlphaIndex(k) < |rendered|
  {
    var vp := ViewportFor(z);
    assert RasterLength(vp) == 4 * (vp.width * vp.height);
    forall k | 0 <= k < |rendered|
      ensures AlphaIndex(k) < |rendered|
    {
      WholePixels(|rendered|, k);
    }
  }
}
