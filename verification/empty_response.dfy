/** `createEmptyResponse` of src/dump-tile-png.js: the placeholder the
    renderer receives for a background request that failed, kept in a
    process-wide cache keyed by `format + "," + color`.

    The colour parser (`Color(...).array()`) and the image encoder
    (`sharp(...).toFormat(...).toBuffer(...)`) are foreign libraries; they are
    parameters here. The result of one call is a `Step`: the cache after the
    call, what the callback receives, and the encoder call made, if any. */
module EmptyResponse {
  import opened Bytes
  import opened Wrappers

  /** `cachedEmptyResponses`: response bodies by key. */
  type Cache = map<string, seq<Byte>>

  /** The colour used when the caller passes none. */
  const DefaultColor := "rgba(255,255,255,0)"

  /** The cache as the script creates it: the shared zero-length buffer under "". */
  const InitialCache: Cache := map["" := []]

  /** The shared zero-length buffer stays in place under "". */
  predicate Invariant(cache: Cache)
  {
    "" in cache && cache[""] == []
  }

  /** The raw 1x1 image handed to the encoder. */
  datatype EncodeRequest = EncodeRequest(pixel: seq<Byte>, channels: nat, format: string)

  /** The second argument of the renderer's callback. `data` is `None` where
      the source passes `undefined` (the buffer of a failed encoding); the
      first argument, the error, is kept so that its value can be stated. */
  datatype Reply = Reply(error: Option<string>, data: Option<seq<Byte>>, etag: Option<string>)

  /** The effect of one call: the cache afterwards, what the callback
      received, and the encoder call made, if any. */
  datatype Step = Step(cache: Cache, reply: Reply, encoded: Option<EncodeRequest>)

  /** `Color(color).array()`: the colour's numeric components. */
  type ColorParser = string -> seq<int>

  /** The encoder: a buffer, or an error. */
  type Encoder = EncodeRequest -> Result<seq<Byte>, string>

  /** Formats for which no image is made: missing, or vector tiles. */
  predicate IsEmptyFormat(format: string)
  {
    format == "" || format == "pbf"
  }

  /** "jpg" is spelled "jpeg" from here on; every other format is kept. */
  function NormalizeFormat(format: string): (r: string)
    ensures r != "jpg"
    ensures format == "jpg" ==> r == "jpeg"
    ensures format != "jpg" ==> r == format
  {
    if format == "jpg" then "jpeg" else format
  }

  /** A missing colour is the default, transparent white. */
  function ColorOrDefault(color: string): (r: string)
    ensures r != ""
    ensures color == "" ==> r == DefaultColor
    ensures color != "" ==> r == color
  {
    if color == "" then DefaultColor else color
  }

  /** The template string `${format},${color}`. */
  function CacheKey(format: string, color: string): (key: string)
    ensures |key| == |format| + 1 + |color| && key[|format|] == ','
    ensures key[..|format|] == format && key[|format| + 1..] == color
    ensures key != ""
  {
    format + "," + color
  }

  /** Normalising twice is normalising once. */
  lemma NormalizeFormatIsIdempotent(format: string)
    ensures NormalizeFormat(NormalizeFormat(format)) == NormalizeFormat(format)
  {
  }

  /** For formats without a comma, the key determines the format and the
      colour: two keys are equal only for equal arguments. */
  lemma CacheKeyIsInjective(f1: string, c1: string, f2: string, c2: string)
    requires ',' !in f1 && ',' !in f2
    requires CacheKey(f1, c1) == CacheKey(f2, c2)
    ensures f1 == f2 && c1 == c2
  {
    var key := CacheKey(f1, c1);
    assert |f1| == |f2| by {
      assert ',' !in f2[..|f1|] && ',' !in f1[..|f2|];
    }
    assert f1 == key[..|f1|] == f2;
    assert c1 == key[|f1| + 1..] == c2;
  }

  /** Two calls read and write the same cache entry only when they ask for
      the same normalised format and the same colour, once defaulted. So a
      cache hit returns the buffer encoded for exactly this format and
      colour; this holds for every format without a comma, which includes
      every format the request callback passes. */
  lemma EmptyKeyIdentifiesRequest(f1: string, c1: string, f2: string, c2: string)
    requires ',' !in f1 && ',' !in f2
    requires EmptyKey(f1, c1) == EmptyKey(f2, c2)
    ensures NormalizeFormat(f1) == NormalizeFormat(f2)
    ensures ColorOrDefault(c1) == ColorOrDefault(c2)
  {
    assert ',' !in NormalizeFormat(f1) && ',' !in NormalizeFormat(f2);
    CacheKeyIsInjective(NormalizeFormat(f1), ColorOrDefault(c1), NormalizeFormat(f2), ColorOrDefault(c2));
  }

  /** The key a call with these arguments reads and writes. */
  function EmptyKey(format: string, color: string): string
  {
    CacheKey(NormalizeFormat(format), ColorOrDefault(color))
  }

  /** Four channels exactly for a colour with an alpha component in a format
      that can carry it; three otherwise. */
  function Channels(components: seq<int>, format: string): (n: nat)
    ensures n == 3 || n == 4
    ensures n == 4 <==> |components| == 4 && format != "jpeg"
  {
    if |components| == 4 && format != "jpeg" then 4 else 3
  }

  /** `Buffer.from(array)`: each component goes through ToUint8. */
  function RawPixel(components: seq<int>): (pixel: seq<Byte>)
    ensures |pixel| == |components|
    ensures forall i :: 0 <= i < |components| && 0 <= components[i] < 256 ==> pixel[i] == components[i]
  {
    seq(|components|, i requires 0 <= i < |components| => ToUint8(components[i]))
  }

  /** One call of `createEmptyResponse(format, color, callback)`. */
  function CreateEmptyResponse(cache: Cache, format: string, color: string, parse: ColorParser, encode: Encoder): (s: Step)
    requires Invariant(cache)
    // the callback never receives an error, and the shared empty buffer stays
    ensures s.reply.error == None && s.reply.etag == None
    ensures Invariant(s.cache)
    // a cached entry keeps its value; only this call's key can be added
    ensures forall key :: key in cache ==> key in s.cache && s.cache[key] == cache[key]
    ensures forall key :: key in s.cache && key !in cache ==> key == EmptyKey(format, color)
    // missing format or vector tiles: the shared empty buffer
    ensures IsEmptyFormat(format) ==> s.reply.data == Some([]) && s.cache == cache && s.encoded == None
    // a cache hit returns the stored buffer and does not encode
    ensures !IsEmptyFormat(format) && EmptyKey(format, color) in cache ==>
              s.reply.data == Some(cache[EmptyKey(format, color)]) && s.cache == cache && s.encoded == None
    // a miss encodes one pixel of the parsed colour in the normalised format
    ensures !IsEmptyFormat(format) && EmptyKey(format, color) !in cache ==>
              && s.encoded.Some?
              && s.encoded.value.format == NormalizeFormat(format)
              && s.encoded.value.pixel == RawPixel(parse(ColorOrDefault(color)))
              && s.encoded.value.channels == Channels(parse(ColorOrDefault(color)), NormalizeFormat(format))
    // the encoder's buffer is passed on, and cached only when encoding succeeded
    ensures s.encoded.Some? ==>
              && (EmptyKey(format, color) in s.cache <==> encode(s.encoded.value).Success?)
              && (encode(s.encoded.value).Success? ==>
                    s.reply.data == Some(encode(s.encoded.value).value)
                    && s.cache[EmptyKey(format, color)] == encode(s.encoded.value).value)
              && (encode(s.encoded.value).Failure? ==> s.reply.data == None && s.cache == cache)
  {
    if IsEmptyFormat(format) then
      Step(cache, Reply(None, Some(cache[""]), None), None)
    else
      var fmt := NormalizeFormat(format);
      var col := ColorOrDefault(color);
      var key := CacheKey(fmt, col);
      if key in cache then
        Step(cache, Reply(None, Some(cache[key]), None), None)
      else
        var components := parse(col);
        var request := EncodeRequest(RawPixel(components), Channels(components, fmt), fmt);
        match encode(request)
        case Success(buffer) => Step(cache[key := buffer], Reply(None, Some(buffer), None), Some(request))
        case Failure(_) => Step(cache, Reply(None, None, None), Some(request))
  }

  /** Arguments of one `createEmptyResponse` call. */
  datatype Request = Request(format: string, color: string)

  /** The cache after a sequence of calls, in order. */
  function Serve(cache: Cache, requests: seq<Request>, parse: ColorParser, encode: Encoder): (c: Cache)
    requires Invariant(cache)
    ensures Invariant(c)
    decreases |requests|
  {
    if |requests| == 0 then cache
    else
      var next := CreateEmptyResponse(cache, requests[0].format, requests[0].color, parse, encode).cache;
      Serve(next, requests[1..], parse, encode)
  }

  /** A cached entry never changes value: whatever the cache holds stays
      there, unchanged, through any sequence of calls, each taken as a whole. */
  lemma {:induction false} CachedEntriesNeverChange(cache: Cache, requests: seq<Request>, parse: ColorParser, encode: Encoder)
    requires Invariant(cache)
    ensures forall key :: key in cache ==>
              key in Serve(cache, requests, parse, encode) && Serve(cache, requests, parse, encode)[key] == cache[key]
    decreases |requests|
  {
    if |requests| > 0 {
      var next := CreateEmptyResponse(cache, requests[0].format, requests[0].color, parse, encode).cache;
      CachedEntriesNeverChange(next, requests[1..], parse, encode);
    }
  }

  /** Once a call has handed out a buffer, every later call with the same
      format and colour, after any calls in between, hands out the same buffer
      without invoking the encoder and without changing the cache. */
  lemma RepeatedRequestIsServedFromCache(cache: Cache, format: string, color: string, between: seq<Request>, parse: ColorParser, encode: Encoder)
    requires Invariant(cache)
    requires CreateEmptyResponse(cache, format, color, parse, encode).reply.data.Some?
    ensures var first := CreateEmptyResponse(cache, format, color, parse, encode);
            var later := Serve(first.cache, between, parse, encode);
            var again := CreateEmptyResponse(later, format, color, parse, encode);
            again.reply.data == first.reply.data && again.encoded == None && again.cache == later
  {
    var first := CreateEmptyResponse(cache, format, color, parse, encode);
    CachedEntriesNeverChange(first.cache, between, parse, encode);
  }
}
