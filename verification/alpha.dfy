/** The premultiplied-to-straight alpha correction the render callback of
    src/dump-tile-png.js runs over its byte buffer before encoding it.

    The buffer is read as RGBA pixels starting at every multiple of 4; byte 3
    of a pixel is its alpha. A colour byte `c` of a pixel with alpha `a > 0` is
    replaced by `c / (a / 255)`, computed here as the exact rational `c * 255 / a`,
    truncated and stored through ToUint8. */
module Alpha {
  import opened Bytes

  /** The alpha value at which `norm == a / 255` is exactly 1. */
  const Opaque: Byte := 255

  /** Index of the alpha byte of the pixel that byte `k` belongs to. */
  function AlphaIndex(k: nat): nat
  {
    k - k % 4 + 3
  }

  /** Byte `j` of the pixel starting at `i` has lane `j` and shares that
      pixel's alpha byte. */
  lemma PixelLane(i: nat, j: nat)
    requires i % 4 == 0 && j < 4
    ensures (i + j) % 4 == j && AlphaIndex(i + j) == i + 3
  {
    var q := i / 4;
    assert i == 4 * q;
    assert i + j == 4 * q + j;
  }

  /** `r` is `c * 255 / a` truncated toward zero, i.e. `c / (a / 255)` rounded
      down, without reference to division. */
  predicate IsStraightValue(r: int, c: int, a: int)
  {
    r * a <= c * 255 < (r + 1) * a
  }

  /** Multiplication by a non-negative factor preserves `<=`. */
  lemma ScaleLe(x: int, y: int, m: int)
    requires 0 <= m && x <= y
    ensures x * m <= y * m
  {
  }

  /** Multiplication by a positive factor can be cancelled from `<=`. */
  lemma CancelLe(x: int, y: int, m: int)
    requires 0 < m && x * m <= y * m
    ensures x <= y
  {
  }

  /** Multiplication by a positive factor can be cancelled from `<`. */
  lemma CancelLt(x: int, y: int, m: int)
    requires 0 < m && x * m < y * m
    ensures x < y
  {
  }

  /** For a valid premultiplied colour (c <= a) the truncated quotient
      `c * 255 / a` lies between the colour itself and 255. */
  lemma QuotientInRange(c: Byte, a: Byte)
    requires 0 < a && c <= a
    ensures c <= c * 255 / a <= 255
  {
    var q := c * 255 / a;
    assert q * a <= c * 255 < (q + 1) * a;
    assert c * 255 <= 255 * a;
    CancelLe(q, 255, a);
    assert c * a <= c * 255;
    CancelLt(c, q + 1, a);
  }

  /** The byte stored back by `data[j] = data[j] / norm` with `norm = a / 255`
      and `a > 0`: a valid premultiplied colour (c <= a) does not decrease,
      an opaque pixel's colour and a zero colour are left as they are. */
  function Divide(c: Byte, a: Byte): (r: Byte)
    requires 0 < a
    ensures c <= a ==> c <= r
    ensures a == Opaque ==> r == c
    ensures c == 0 ==> r == 0
  {
    var q := c * 255 / a;
    if c <= a then QuotientInRange(c, a); ToUint8(q)
    else ToUint8(q)
  }

  /** Whatever the colour, the stored byte is the truncated `c * 255 / a`
      taken modulo 256: a colour above its alpha wraps around rather than
      being clamped to 255. */
  lemma DivideWraps(c: Byte, a: Byte)
    requires 0 < a
    ensures (Divide(c, a) - c * 255 / a) % 256 == 0
    ensures c * 255 / a < 256 ==> Divide(c, a) == c * 255 / a
  {
    var q := c * 255 / a;
    assert 0 <= q;
    assert Divide(c, a) == ToUint8(q);
  }

  /** Two malformed (not premultiplied) colours: 255 under alpha 1 is
      65025, stored as 1; 200 under alpha 100 is 510, stored as 254. A
      clamping store would give 255 for both. */
  lemma MalformedColoursWrap()
    ensures Divide(255, 1) == 1
    ensures Divide(200, 100) == 254
  {
  }

  /** For a valid premultiplied colour (c <= a) the stored byte is exactly the
      truncated `c * 255 / a`: ToUint8 does not wrap it. */
  lemma DivideIsTruncatedQuotient(c: Byte, a: Byte)
    requires 0 < a && c <= a
    ensures c <= Divide(c, a) <= 255
    ensures IsStraightValue(Divide(c, a), c, a)
  {
    QuotientInRange(c, a);
  }

  /** The value the correction pass leaves at index `k` of a buffer that held
      `data` before it, defined byte by byte. When the buffer ends inside a
      pixel, that pixel's alpha reads as `undefined`: `norm` is NaN, each colour
      byte present becomes NaN, and ToUint8 stores NaN as 0. */
  function StraightByte(data: seq<Byte>, k: nat): (b: Byte)
    requires k < |data|
    ensures k % 4 == 3 ==> b == data[k]
    ensures AlphaIndex(k) < |data| && data[AlphaIndex(k)] == 0 ==> b == 0
    ensures AlphaIndex(k) < |data| && data[AlphaIndex(k)] == Opaque ==> b == data[k]
    ensures AlphaIndex(k) < |data| && data[k] == 0 ==> b == 0
    ensures k % 4 != 3 && AlphaIndex(k) < |data| && 0 < data[AlphaIndex(k)] ==>
              b == Divide(data[k], data[AlphaIndex(k)])
    ensures |data| <= AlphaIndex(k) ==> b == 0
  {
    if k % 4 == 3 then data[k]
    else if |data| <= AlphaIndex(k) then 0
    else if data[AlphaIndex(k)] == 0 then 0
    else Divide(data[k], data[AlphaIndex(k)])
  }

  /** A straight colour premultiplied by alpha `a` and truncated, as a
      renderer storing `c * a / 255` into a byte would hold it. */
  function Premultiply(c: Byte, a: Byte): (p: Byte)
    ensures p <= a && p <= c
    ensures p * 255 <= c * a < (p + 1) * 255
  {
    ProductQuotientBounds(c, a);
    c * a / 255
  }

  /** `c * a / 255` is bounded by both factors when both are bytes. */
  lemma ProductQuotientBounds(c: nat, a: nat)
    requires c <= 255 && a <= 255
    ensures c * a / 255 <= a && c * a / 255 <= c
  {
    var n := c * a;
    var q := n / 255;
    assert q * 255 <= n;
    ScaleLe(c, 255, a);
    CancelLe(q, a, 255);
    ScaleLe(a, 255, c);
    CancelLe(q, c, 255);
  }

  /** The correction undoes premultiplication up to the rounding the
      premultiplied byte lost: the recovered colour never exceeds the
      original, falls short of it by less than `1 + 255 / a`, and is exact
      for an opaque pixel. */
  lemma DivideUndoesPremultiply(c: Byte, a: Byte)
    requires 0 < a
    ensures Divide(Premultiply(c, a), a) <= c
    ensures (c - Divide(Premultiply(c, a), a)) * a < a + 255
    ensures a == Opaque ==> Divide(Premultiply(c, a), a) == c
  {
    var p := Premultiply(c, a);
    DivideIsTruncatedQuotient(p, a);
    var r := Divide(p, a);
    assert r * a <= p * 255 && p * 255 <= c * a;
    CancelLe(r, c, a);
    assert c * a < r * a + a + 255;
    SubtractScaled(c, r, a);
  }

  /** Multiplication distributes over subtraction. */
  lemma SubtractScaled(x: int, y: int, m: int)
    ensures (x - y) * m == x * m - y * m
  {
  }

  /** One whole pixel `[r, g, b, a]` after one iteration of the loop: each
      of its bytes is the reference value for a buffer holding just that
      pixel. */
  function CorrectPixel(p: seq<Byte>): (q: seq<Byte>)
    requires |p| == 4
    ensures |q| == 4
    ensures forall k :: 0 <= k < 4 ==> q[k] == StraightByte(p, k)
  {
    assert forall k :: 0 <= k < 4 ==> k % 4 == k && AlphaIndex(k) == 3;
    var a := p[3];
    if a == 0 then [0, 0, 0, a]
    else [Divide(p[0], a), Divide(p[1], a), Divide(p[2], a), a]
  }

  /** Dropping the first pixel shifts every later byte's value by four places. */
  lemma StraightByteAfterFirstPixel(data: seq<Byte>, k: nat)
    requires 4 <= k < |data|
    ensures StraightByte(data, k) == StraightByte(data[4..], k - 4)
  {
    assert AlphaIndex(k) == AlphaIndex(k - 4) + 4;
  }

  /** The first pixel's bytes are what one loop iteration computes. */
  lemma StraightByteInFirstPixel(data: seq<Byte>, k: nat)
    requires k < 4 <= |data|
    ensures StraightByte(data, k) == CorrectPixel(data[..4])[k]
  {
    assert k % 4 == k && AlphaIndex(k) == 3;
  }

  /** The first loop iteration produces the reference values of the
      buffer's first four bytes. */
  lemma FirstPixelAgrees(data: seq<Byte>)
    requires 4 <= |data|
    ensures forall k :: 0 <= k < 4 ==> CorrectPixel(data[..4])[k] == StraightByte(data, k)
  {
    forall k | 0 <= k < 4 {
      StraightByteInFirstPixel(data, k);
    }
  }

  /** A pass over the buffer without its first pixel, shifted back by four
      places, gives the reference values of the remaining bytes. */
  lemma LaterPixelsAgree(data: seq<Byte>, rest: seq<Byte>)
    requires 4 <= |data| && |rest| == |data| - 4
    requires forall k :: 0 <= k < |rest| ==> rest[k] == StraightByte(data[4..], k)
    ensures forall k :: 4 <= k < |data| ==> rest[k - 4] == StraightByte(data, k)
  {
    forall k | 4 <= k < |data| {
      StraightByteAfterFirstPixel(data, k);
    }
  }

  /** The buffer after the whole pass, pixel by pixel in the loop's order.
      Byte by byte it agrees with `StraightByte`. */
  function Unpremultiplied(data: seq<Byte>): (r: seq<Byte>)
    ensures |r| == |data|
    ensures forall k :: 0 <= k < |data| ==> r[k] == StraightByte(data, k)
    decreases |data|
  {
    if |data| == 0 then []
    else if |data| < 4 then seq(|data|, _ => 0)
    else
      var head := CorrectPixel(data[..4]);
      var rest := Unpremultiplied(data[4..]);
      FirstPixelAgrees(data);
      LaterPixelsAgree(data, rest);
      head + rest
  }

  /** One iteration of the loop: the pixel starting at `i` is corrected and
      no other byte is touched. `before` is the buffer before the pass, which
      the bytes from `i` on still hold. */
  method CorrectPixelAt(data: array<Byte>, i: nat, ghost before: seq<Byte>)
    requires i % 4 == 0 && i < data.Length == |before|
    requires forall k :: i <= k < data.Length ==> data[k] == before[k]
    modifies data
    ensures forall k :: i <= k < i + 4 && k < data.Length ==> data[k] == StraightByte(before, k)
    ensures forall k :: 0 <= k < data.Length && !(i <= k < i + 4) ==> data[k] == old(data[k])
  {
    PixelLane(i, 0);
    PixelLane(i, 1);
    PixelLane(i, 2);
    PixelLane(i, 3);
    var red, green, blue := 0, 0, 0;
    if i + 3 < data.Length {
      var alpha := data[i + 3];
      if alpha != 0 {
        red, green, blue := Divide(data[i], alpha), Divide(data[i + 1], alpha), Divide(data[i + 2], alpha);
      }
    }
    // When the alpha byte lies past the end, every present colour byte
    // stores NaN, i.e. 0, and stores past the end are dropped.
    assert red == StraightByte(before, i);
    assert i + 1 < data.Length ==> green == StraightByte(before, i + 1);
    assert i + 2 < data.Length ==> blue == StraightByte(before, i + 2);
    data[i] := red;
    if i + 1 < data.Length {
      data[i + 1] := green;
    }
    if i + 2 < data.Length {
      data[i + 2] := blue;
    }
  }

  /** The loop of the render callback, in place over the buffer, in strides
      of four bytes. */
  method Unpremultiply(data: array<Byte>)
    modifies data
    ensures data[..] == Unpremultiplied(old(data[..]))
    ensures forall k :: 0 <= k < data.Length && k % 4 == 3 ==> data[k] == old(data[k])
  {
    ghost var before := data[..];
    var i := 0;
    while i < data.Length
      invariant 0 <= i && i % 4 == 0
      invariant data.Length == |before|
      invariant forall k :: 0 <= k < i && k < data.Length ==> data[k] == StraightByte(before, k)
      invariant forall k :: i <= k < data.Length ==> data[k] == before[k]
    {
      CorrectPixelAt(data, i, before);
      i := i + 4;
    }
    assert forall k :: 0 <= k < data.Length ==> data[k] == Unpremultiplied(before)[k];
  }
}
