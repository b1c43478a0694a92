/**
 * The RGBA byte buffer behind an `ImageData`: a `Uint8ClampedArray` of
 * `4 * width * height` entries, pixel (x, y) at bytes `4 * (y * width + x) .. + 3`.
 */
module Raster {
  import opened JsNumber

  /** An entry of a `Uint8ClampedArray`. */
  type byte = x: int | 0 <= x < 256

  /**
   * ToUint8Clamp: every store into the buffer clamps to [0, 255] and rounds
   * half to even (NaN, which would store 0, has no counterpart among reals).
   */
  function ClampByte(x: real): (b: byte)
    ensures x <= 0.0 ==> b == 0
    ensures x >= 255.0 ==> b == 255
    ensures 0.0 <= x <= 255.0 ==> x - 0.5 <= b as real <= x + 0.5
    ensures 0.0 < x < 255.0 && x - x.Floor as real == 0.5 ==> b % 2 == 0
  {
    if x <= 0.0 then 0
    else if x >= 255.0 then 255
    else
      var f := x.Floor;
      if x - f as real < 0.5 then f
      else if x - f as real > 0.5 then f + 1
      else if f % 2 == 0 then f
      else f + 1
  }

  /** A whole number in range is stored unchanged. */
  lemma ClampOfByte(n: int)
    requires 0 <= n < 256
    ensures ClampByte(n as real) == n
  {
    assert (n as real).Floor == n;
  }

  /** The first byte of pixel (x, y). */
  function PixelIndex(x: int, y: int, width: int): int
  {
    4 * (y * width + x)
  }

  /** The four RGBA bytes of pixel (x, y). */
  function PixelAt(s: seq<byte>, x: int, y: int, width: int): (px: seq<byte>)
    requires 0 <= PixelIndex(x, y, width) && PixelIndex(x, y, width) + 4 <= |s|
    ensures |px| == 4 && forall c :: 0 <= c < 4 ==> px[c] == s[PixelIndex(x, y, width) + c]
  {
    s[PixelIndex(x, y, width)..PixelIndex(x, y, width) + 4]
  }

  /** The column of the pixel that byte i belongs to. */
  function PixelX(i: int, width: int): int
  {
    if width > 0 then (i / 4) % width else 0
  }

  /** The row of the pixel that byte i belongs to. */
  function PixelY(i: int, width: int): int
  {
    if width > 0 then (i / 4) / width else 0
  }

  /** Byte c of pixel (x, y) lies in column x, row y, channel c. */
  lemma PixelOfIndex(x: int, y: int, c: int, width: int)
    requires 0 <= x < width && 0 <= c < 4
    ensures PixelX(PixelIndex(x, y, width) + c, width) == x
    ensures PixelY(PixelIndex(x, y, width) + c, width) == y
    ensures (PixelIndex(x, y, width) + c) % 4 == c
  {
    var p := y * width + x;
    DivModUnique(4 * p + c, 4, p, c);
    DivModUnique(p, width, y, x);
  }

  /** The four bytes of a pixel inside a width x height bitmap lie inside its buffer. */
  lemma PixelInBounds(x: int, y: int, width: int, height: int)
    requires 0 <= x < width && 0 <= y < height
    ensures 0 <= PixelIndex(x, y, width) && PixelIndex(x, y, width) + 4 <= 4 * width * height
  {
    assert y * width + x + 1 <= (y + 1) * width;
    assert (y + 1) * width <= height * width by { MulMono(y + 1, height, width); }
  }

  /** One past the end of row y is the start of row y + 1. */
  lemma NextRow(y: int, width: int)
    ensures PixelIndex(width, y, width) == PixelIndex(0, y + 1, width)
  {
    assert (y + 1) * width == y * width + width;
  }

  /** Every byte is channel `i % 4` of the pixel at (PixelX, PixelY). */
  lemma IndexOfPixel(i: int, width: int)
    requires width > 0
    ensures i == PixelIndex(PixelX(i, width), PixelY(i, width), width) + i % 4
    ensures 0 <= PixelX(i, width) < width && 0 <= i % 4 < 4
  {
    var p := i / 4;
    assert i == 4 * p + i % 4;
    assert p == (p / width) * width + p % width;
  }

  /** The pixel of byte i is (x, y) exactly when i is one of that pixel's four bytes. */
  lemma SamePixel(i: int, x: int, y: int, width: int)
    requires 0 <= x < width
    ensures (PixelX(i, width) == x && PixelY(i, width) == y) <==>
      PixelIndex(x, y, width) <= i < PixelIndex(x, y, width) + 4
  {
    IndexOfPixel(i, width);
    var o := PixelIndex(x, y, width);
    if o <= i < o + 4 {
      PixelOfIndex(x, y, i - o, width);
    }
  }

  /** A store into a typed array: indices outside the buffer are ignored. */
  function Put(s: seq<byte>, i: int, v: byte): seq<byte>
  {
    if 0 <= i < |s| then s[i := v] else s
  }

  /** The four stores `d[offset++] = px[k]` for k = 0..3. */
  function Put4(s: seq<byte>, offset: int, px: seq<byte>): seq<byte>
    requires |px| == 4
  {
    Put(Put(Put(Put(s, offset, px[0]), offset + 1, px[1]), offset + 2, px[2]), offset + 3, px[3])
  }

  /** Four stores change exactly the in-range bytes offset .. offset + 3. */
  lemma Put4Bytes(s: seq<byte>, offset: int, px: seq<byte>)
    requires |px| == 4
    ensures |Put4(s, offset, px)| == |s|
    ensures forall i :: 0 <= i < |s| ==>
      Put4(s, offset, px)[i] == if offset <= i < offset + 4 then px[i - offset] else s[i]
  {
  }

  method Store(d: array<byte>, i: int, v: byte)
    modifies d
    ensures d[..] == Put(old(d[..]), i, v)
  {
    if 0 <= i < d.Length {
      d[i] := v;
    }
  }

  /** Writes one RGBA pixel at the running offset and returns the advanced offset. */
  method PutPixel(d: array<byte>, offset: int, px: seq<byte>) returns (next: int)
    requires |px| == 4
    modifies d
    ensures next == offset + 4
    ensures d[..] == Put4(old(d[..]), offset, px)
  {
    next := offset;
    Store(d, next, px[0]);
    next := next + 1;
    Store(d, next, px[1]);
    next := next + 1;
    Store(d, next, px[2]);
    next := next + 1;
    Store(d, next, px[3]);
    next := next + 1;
  }
}
