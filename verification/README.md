# dump-tile-png, modelled in Dafny

The script fetches one vector tile and a style document and has a map
renderer draw the tile; the renderer loads its tiles through its own request
callback. The script is meant to turn the rendered premultiplied-alpha RGBA
raster into straight alpha and encode it to an image file. As written, it
instead runs the correction over the vector-tile bytes it fetched itself and
encodes those; the rendered raster is never read (see Findings). This project
models the original logic in `src/dump-tile-png.js`:

- **The alpha correction pass** (`alpha.dfy`, module `Alpha`). The pass runs in
  strides of four bytes. A pixel with alpha 0 has its colour bytes zeroed.
  Otherwise each colour byte `c` becomes `c / (alpha / 255)`, stored through
  ToUint8. The pass is modelled three ways, each proved equal to the next:
  - the in-place loop over an `array<Byte>` (`Unpremultiply`);
  - a pixel-by-pixel recursive function (`Unpremultiplied`);
  - a byte-by-byte reference definition (`StraightByte`).

  The arithmetic is the exact rational `c * 255 / alpha`, truncated toward
  zero and then taken modulo 256 (ToUint8, section 7.1.11 of ECMA-262, 2023
  edition, in `bytes.dfy`). It is not clamped.
- **The empty-response cache** (`empty_response.dfy`, module `EmptyResponse`).
  `createEmptyResponse` builds the placeholder image for a failed background
  request. It normalises the format, defaults the colour and builds the key
  `format,color`. It picks three or four channels. It writes the cache only
  when encoding succeeds. The colour parser and the encoder are function
  parameters. One call yields a `Step`: the new cache, what the callback
  receives, and the encoder call made, if any. `Serve` folds calls over a
  sequence of requests.
- **The renderer's request callback** (`request.dfy`, module `TileRequest`).
  It covers the `extensionToFormat` lookup on the lower-cased extension and the
  routing of transport errors and non-2xx statuses to `createEmptyResponse`.
- **The viewport parameters** (`viewport.dfy`, module `Viewport`): the zoom is
  `max(0, z - 1)`, and the 128-pixel view is doubled at zoom 0.
- **The render callback's input to the encoder** (`render.dfy`, module
  `RenderCallback`). This is both the code as written and the corrected
  version; see Findings.

Inputs that come from I/O or foreign code are parameters: the colour parser,
the encoder, the HTTP client's answer, the path extension and the fetched or
rendered bytes.

## Model

| member | source | states |
|---|---|---|
| `Bytes.ToUint8` | src/dump-tile-png.js:168-170 | A store into the buffer keeps a value in [0, 255] unchanged. Any other value is replaced by the unique byte congruent to it modulo 256, so the store wraps and does not clamp. |
| `Alpha.Divide` | src/dump-tile-png.js:162-170 | For a colour `c` of a pixel with alpha `a > 0`: a valid premultiplied colour (`c <= a`) never decreases. Alpha 255 leaves the colour as it is, and colour 0 stays 0. |
| `Alpha.DivideWraps` | src/dump-tile-png.js:168-170 | For every colour and every alpha above 0, the stored byte is congruent modulo 256 to the truncated `c * 255 / a`. It equals that quotient whenever the quotient is below 256. A larger quotient wraps; it is not clamped. |
| `Alpha.MalformedColoursWrap` | src/dump-tile-png.js:168-170 | Two colours above their alpha: 255 under alpha 1 stores 1, and 200 under alpha 100 stores 254. A clamping store would give 255 for both. |
| `Alpha.DivideIsTruncatedQuotient` | src/dump-tile-png.js:168-170 | For valid premultiplied input (`0 < a`, `c <= a`), the stored byte is exactly `c * 255 / a` truncated toward zero. It lies in [c, 255], so the store never wraps. |
| `Alpha.QuotientInRange` | src/dump-tile-png.js:168-170 | For `0 < a` and `c <= a`, the quotient `c * 255 / a` lies in [c, 255], so ToUint8 never wraps it. |
| `Alpha.StraightByte` | src/dump-tile-png.js:160-172 | The byte left at each index. An alpha byte is unchanged. Colour bytes of a transparent pixel, and zero colour bytes, become 0. An opaque pixel is unchanged. Any other colour byte of a pixel with alpha above 0 becomes `Divide` of the colour by the alpha. Bytes of a trailing partial pixel become 0, because their alpha reads as `undefined` and the NaN quotient stores as 0. |
| `Alpha.Unpremultiplied` | src/dump-tile-png.js:160-172 | The pass computed pixel by pixel, in the loop's order, keeps the buffer's length and agrees at every index with the byte-by-byte reference `StraightByte`. |
| `Alpha.CorrectPixel` | src/dump-tile-png.js:161-171 | One iteration on one whole pixel gives four bytes, each the reference value `StraightByte` of that pixel: alpha kept, colour zeroed at alpha 0, otherwise divided. |
| `Alpha.CorrectPixelAt` | src/dump-tile-png.js:161-171 | One loop iteration writes the reference values into the four bytes of its pixel. It touches no other byte. |
| `Alpha.Unpremultiply` | src/dump-tile-png.js:160-172 | The in-place loop leaves the array equal to `Unpremultiplied` of its former contents. Every alpha byte keeps its value. |
| `Alpha.DivideUndoesPremultiply` | src/dump-tile-png.js:162-170 | Take a colour `c` premultiplied by alpha `a` with truncation, then correct it. The result never exceeds `c`, is short of it by less than `1 + 255 / a`, and equals `c` when `a` is 255. |
| `EmptyResponse.NormalizeFormat` | src/dump-tile-png.js:27-29 | "jpg" becomes "jpeg" and every other format is kept, so "jpg" never reaches the key or the encoder. |
| `EmptyResponse.ColorOrDefault` | src/dump-tile-png.js:30-32 | An empty colour becomes the default `rgba(255,255,255,0)`. A non-empty colour is kept. |
| `EmptyResponse.CacheKey` | src/dump-tile-png.js:34 | The key is the format, a comma, then the colour. It is never "", so it never replaces the shared empty buffer. |
| `EmptyResponse.NormalizeFormatIsIdempotent` | src/dump-tile-png.js:27-29 | Normalising an already normalised format changes nothing. |
| `EmptyResponse.CacheKeyIsInjective` | src/dump-tile-png.js:34 | For formats without a comma, equal keys come only from equal formats and equal colours. |
| `EmptyResponse.EmptyKeyIdentifiesRequest` | src/dump-tile-png.js:27-36 | Two calls with comma-free formats share a cache entry only when their normalised formats and their defaulted colours are equal. So a cache hit returns the buffer encoded for this format and colour. Every format the request callback passes qualifies. |
| `EmptyResponse.Channels` | src/dump-tile-png.js:44 | The channel count is 4 exactly when the parsed colour has four components and the format is not "jpeg". Otherwise it is 3. |
| `EmptyResponse.RawPixel` | src/dump-tile-png.js:45 | The pixel has one byte per colour component. In-range components are copied as they are. |
| `EmptyResponse.CreateEmptyResponse` | src/dump-tile-png.js:21-59 | The callback never gets an error. Format "" or "pbf" gets the shared empty buffer, with no change and no encoding. A cache hit returns the stored buffer without encoding. A miss encodes one pixel of the parsed colour in the normalised format with the channel rule. The buffer is passed on and cached only if encoding succeeded; a failure passes `undefined`. A cached entry keeps its value, and only this call's key can be added. |
| `EmptyResponse.Serve` | src/dump-tile-png.js:17-19 | Starting from a cache that holds the shared empty buffer under "", the buffer is still there after any sequence of calls. |
| `EmptyResponse.CachedEntriesNeverChange` | src/dump-tile-png.js:53-57 | A cached entry never changes value. Through any sequence of calls, each taken as a whole, every cached entry stays present and unchanged. |
| `EmptyResponse.RepeatedRequestIsServedFromCache` | src/dump-tile-png.js:34-39 | Suppose a call handed out a buffer. A later call with the same format and colour, after any calls in between, returns the same buffer. It does not invoke the encoder or change the cache. |
| `TileRequest.LowerAscii` | src/dump-tile-png.js:72 | Lower-casing leaves no upper-case ASCII letter. It maps each such letter to its lower-case form and changes nothing else. |
| `TileRequest.FormatForExtension` | src/dump-tile-png.js:72-73 | The format is one of "", "jpeg", "png" and "webp". It is "" exactly when the lower-cased extension is not a key of `extensionToFormat`. Otherwise it is the table's value for that key. |
| `TileRequest.CopiedEtag` | src/dump-tile-png.js:87-89 | The etag is copied only when the header is present and non-empty. |
| `TileRequest.RequestCallback` | src/dump-tile-png.js:70-93 | The callback never gets an error. A 2xx answer passes its body and etag on and leaves the cache alone. A transport error or a status outside [200, 300) yields exactly `createEmptyResponse(format, "")`. For an extension outside the table, that is the shared empty buffer. |
| `TileRequest.FailedImageRequestUsesDefaultColour` | src/dump-tile-png.js:73-76 | A failed raster-tile request gets the placeholder keyed by the table's format and the default colour. It is served from the cache when present, and otherwise encoded from the default colour's pixel. |
| `Viewport.ViewportFor` | src/dump-tile-png.js:139-151 | The view is rendered at zoom `z - 1`, or 0 when `z` is 0, with bearing and pitch 0. It is a square of 128 pixels, or 256 exactly when `z` is 0. |
| `RenderCallback.EncoderInputAsWritten` | src/dump-tile-png.js:157-180 | As written, the encoder receives the corrected fetched tile bytes: same length, and byte by byte the reference values. |
| `RenderCallback.AsWrittenIgnoresRaster` | src/dump-tile-png.js:153-180 | For a ten-byte fetched tile at zoom 13, the encoder gets 10 bytes where the declared 128 x 128 RGBA raster has 65536. Two different rendered rasters give the same input. The trailing partial pixel is zeroed. |
| `RenderCallback.EncoderInput` | src/dump-tile-png.js:157-180 | As intended, the encoder receives the corrected rendered raster: same length, and byte by byte the reference values. |
| `RenderCallback.EncoderInputFitsViewport` | src/dump-tile-png.js:174-180 | A raster of the viewport's size reaches the encoder at that size. Every pixel is corrected as a whole, and no byte falls into the partial-pixel case. |

## Left out

- Double-precision arithmetic: the model computes `c / (alpha / 255)` as the exact rational `c * 255 / alpha`. The IEEE-754 quotient can differ from it by one ULP, and truncation can then land one lower when the rational result is a whole number. This is an idealisation and is not proved.
- Alpha.DivideUndoesPremultiply: assumes the renderer premultiplied by truncation (`c * a / 255`). The renderer's own rounding is not visible.
- HTTP fetching of the tile and the style, the missing-API-key checks, and the fatal errors on a failed fetch (lines 63-69, 98-124): I/O.
- The map renderer (`renderer.load`, `renderer.render`): a foreign engine. Its raster is an input of `RenderCallback.EncoderInput`.
- The image encoder (sharp), resizing and the file write (lines 45-58, 174-199): a foreign library. `createEmptyResponse` receives the encoder as a function parameter.
- The `Color` parser: a foreign library, passed as a parameter that returns integer components. A fractional alpha component reaches `RawPixel` already truncated.
- `url.parse` and `path.extname` (lines 71-72): host-library code. `RequestCallback` takes the extension as an input.
- TileRequest.LowerAscii: lowercases only the letters A to Z, not all of Unicode like `toLowerCase`. No other character lowercases to a character of the table's keys, so `FormatForExtension` agrees with the source.
- The `modified` and `expires` headers parsed into `Date` objects (lines 81-86): host-library parsing.
- The tile centre (`mercator.ll`, lines 134-137): floating-point projection through a foreign library. `Viewport.Params` has no centre.
- Lines 182-185 and 189-193 use the undefined names `width`, `height` and `formatQuality`. That code is broken, so the zoom-0 resize and the JPEG/WEBP quality settings are not modelled.
- Asynchrony: the callbacks are modelled as returning their arguments; the engine's scheduling of requests is not modelled.
- EmptyResponse.CreateEmptyResponse, EmptyResponse.CachedEntriesNeverChange, EmptyResponse.RepeatedRequestIsServedFromCache: each call is taken as one atomic step. In the source, the cache write at line 55 runs later, inside the encoder's asynchronous callback. Two failed requests for the same format and colour that overlap both miss at line 36, both call the encoder, and line 55 writes the key twice. So "no duplicate encoding" holds only for calls that do not overlap. The values stay equal only because the encoder is modelled as a pure function. A failed encoding followed by a successful retry of an overlapping call cannot be represented. The model also calls back for every format and colour. In the source, a colour string the `Color` parser cannot read (line 42) or a format the encoder does not know (line 52) throws synchronously, and the callback is never called. The request callback never passes either: its colour is always "" and its format always comes from `extensionToFormat`.

## Findings

| source | as written | input that shows it | evidently intended | confidence | as-written member | corrected member |
|---|---|---|---|---|---|---|
| src/dump-tile-png.js:157-180 | The render callback takes only `err`. It runs the correction over `data`, the vector-tile bytes fetched at line 153, then hands them to the encoder as a raw 128 x 128 RGBA raster. The rendered raster is never read. | A fetched tile of 10 bytes at zoom 13: the encoder gets 10 bytes where 65536 are declared, and the same 10 bytes whatever was rendered. | Take the rendered buffer, `(err, buffer) => …`, correct it and encode it. | high; not executed | `RenderCallback.EncoderInputAsWritten`, `RenderCallback.AsWrittenIgnoresRaster` | `RenderCallback.EncoderInput`, `RenderCallback.EncoderInputFitsViewport` |
