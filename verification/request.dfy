/** The body of the renderer's `request` callback in src/dump-tile-png.js,
    from the moment the HTTP client answers: the requested format is read off
    the path extension, a failed or non-2xx answer is replaced by an empty
    response, and anything else is passed on.

    The extension itself comes from `path.extname(url.parse(req.url).pathname)`,
    host-library code that is an input here. */
module TileRequest {
  import opened Bytes
  import opened Wrappers
  import opened EmptyResponse

  /** `extensionToFormat`. */
  const ExtensionToFormat: map<string, string> :=
    map[".jpg" := "jpeg", ".jpeg" := "jpeg", ".png" := "png", ".webp" := "webp"]

  predicate IsAsciiUpper(ch: char)
  {
    'A' <= ch <= 'Z'
  }

  function LowerChar(ch: char): char
  {
    if IsAsciiUpper(ch) then (ch as int + 32) as char else ch
  }

  /** `toLowerCase()` on the letters A to Z: no upper-case ASCII letter is
      left, and nothing else changes. */
  function LowerAscii(s: string): (r: string)
    ensures |r| == |s|
    ensures forall i :: 0 <= i < |r| ==> !IsAsciiUpper(r[i])
    ensures forall i :: 0 <= i < |s| && !IsAsciiUpper(s[i]) ==> r[i] == s[i]
    ensures forall i :: 0 <= i < |s| && IsAsciiUpper(s[i]) ==> r[i] as int == s[i] as int + 32
  {
    seq(|s|, i requires 0 <= i < |s| => LowerChar(s[i]))
  }

  /** `extensionToFormat[extension] || ""` on the lower-cased extension: one of
      the table's formats when the extension is one of its keys, whatever its
      case; "" for any other extension. */
  function FormatForExtension(extension: string): (format: string)
    ensures format in {"", "jpeg", "png", "webp"}
    ensures format == "" <==> LowerAscii(extension) !in ExtensionToFormat
    ensures format != "" ==> ExtensionToFormat[LowerAscii(extension)] == format
  {
    var ext := LowerAscii(extension);
    if ext in ExtensionToFormat then ExtensionToFormat[ext] else ""
  }

  /** What the HTTP client reported. */
  datatype Transport =
    | TransportError
    | Responded(status: int, etag: Option<string>, body: seq<Byte>)

  /** No transport error and a status in [200, 300). */
  predicate Succeeded(t: Transport)
  {
    t.Responded? && 200 <= t.status < 300
  }

  /** `response.etag` is copied only from a present, non-empty header. */
  function CopiedEtag(etag: Option<string>): (r: Option<string>)
    ensures r.Some? <==> etag.Some? && etag.value != ""
    ensures r.Some? ==> r == etag
  {
    match etag
    case Some(e) => if e != "" then Some(e) else None
    case None => None
  }

  /** One answer to one renderer request. Whatever happens the callback
      receives no error: a successful answer passes its body on, and any other
      answer is replaced by `createEmptyResponse(format, "")`. */
  function RequestCallback(cache: Cache, extension: string, transport: Transport, parse: ColorParser, encode: Encoder): (s: Step)
    requires Invariant(cache)
    ensures s.reply.error == None
    ensures Invariant(s.cache)
    ensures Succeeded(transport) ==>
              s.cache == cache && s.encoded == None
              && s.reply.data == Some(transport.body) && s.reply.etag == CopiedEtag(transport.etag)
    ensures !Succeeded(transport) ==> s == CreateEmptyResponse(cache, FormatForExtension(extension), "", parse, encode)
    // a failed request for a path outside the table (a vector tile, say) gets the shared empty buffer
    ensures !Succeeded(transport) && FormatForExtension(extension) == "" ==>
              s.reply.data == Some([]) && s.cache == cache && s.encoded == None
  {
    var format := FormatForExtension(extension);
    if transport.TransportError? || transport.status < 200 || transport.status >= 300 then
      CreateEmptyResponse(cache, format, "", parse, encode)
    else
      Step(cache, Reply(None, Some(transport.body), CopiedEtag(transport.etag)), None)
  }

  /** A failed request for a raster tile is answered with a placeholder of
      the default colour: it is keyed by the table's format and the default
      colour, and a ".jpg" tile is looked up and encoded as "jpeg". */
  lemma FailedImageRequestUsesDefaultColour(cache: Cache, extension: string, transport: Transport, parse: ColorParser, encode: Encoder)
    requires Invariant(cache)
    requires !Succeeded(transport) && FormatForExtension(extension) != ""
    ensures var s := RequestCallback(cache, extension, transport, parse, encode);
            var key := CacheKey(FormatForExtension(extension), DefaultColor);
            && (key in cache ==> s.reply.data == Some(cache[key]) && s.encoded == None)
            && (key !in cache ==>
                  s.encoded.Some? && s.encoded.value.pixel == RawPixel(parse(DefaultColor))
                  && s.encoded.value.format == FormatForExtension(extension))
  {
  }
}
