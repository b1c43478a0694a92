/**
 * The colour wheel: a hue ring drawn once into an RGBA bitmap, a
 * saturation/value square redrawn for the current hue, two handle glyphs,
 * and pointer tracking that moves the hue or the saturation/value point.
 */
module Wheel {
  import opened Wrappers
  import opened JsNumber
  import opened ColorMath
  import opened Raster

  /**
   * The host's transcendental functions (`Math.sqrt`, `Math.atan2`,
   * `Math.cos`, `Math.sin`, `Math.PI`), with only the facts the model uses.
   */
  datatype Host = Host(sqrt: real -> real, atan2: (real, real) -> real,
                       cos: real -> real, sin: real -> real, pi: real)
  {
    ghost predicate Valid()
    {
      pi > 0.0 && forall z: real :: z >= 0.0 ==> sqrt(z) >= 0.0 && sqrt(z) * sqrt(z) == z
    }
  }

  /** The wheel's size in pixels, the ring's thickness, and the side of the SV square. */
  datatype Geometry = Geometry(size: nat, thickness: int, side: real)
  {
    /** The outer radius of the ring. */
    function Outer(): real
    {
      size as real / 2.0
    }

    /** The inner radius of the ring. */
    function Inner(): real
    {
      size as real / 2.0 - thickness as real
    }

    /** First pixel row and column of the SV square. */
    function Start(): int
    {
      Round(size as real / 2.0 - side / 2.0)
    }

    /** One past the last pixel row and column of the SV square. */
    function End(): int
    {
      Round(size as real / 2.0 + side / 2.0)
    }

    function Dx(x: real): real
    {
      x - size as real / 2.0
    }

    function Dy(y: real): real
    {
      y - size as real / 2.0
    }

    /** `track` sends a press here to the SV square rather than to the ring. */
    predicate InSquare(x: real, y: real)
    {
      Start() as real <= x < End() as real && Start() as real <= y < End() as real
    }
  }

  /**
   * The geometry the constructor sets up: the SV square is inscribed in the
   * circle of diameter `size - 2 * thickness - gap`, so its side is `sqrt(diam^2 / 2)`.
   */
  function Inscribed(host: Host, size: nat, thickness: int, gap: int): Geometry
  {
    Geometry(size, thickness, InscribedSide(host, Diameter(size, thickness, gap)))
  }

  /** `Math.sqrt(diam * diam / 2)`: the side of the square inscribed in a circle of diameter `diam`. */
  function InscribedSide(host: Host, diam: real): real
  {
    host.sqrt(diam * diam / 2.0)
  }

  /** The diameter of the circle inside the ring, less the gap. */
  function Diameter(size: nat, thickness: int, gap: int): real
  {
    (size - thickness * 2 - gap) as real
  }

  /** The distance of (x, y) from the wheel's centre. */
  function Distance(host: Host, g: Geometry, x: real, y: real): real
  {
    host.sqrt(g.Dx(x) * g.Dx(x) + g.Dy(y) * g.Dy(y))
  }

  /** Whether (x, y) lies on the hue ring: `inner <= distance < outer`. */
  predicate OnRing(host: Host, g: Geometry, x: real, y: real)
  {
    g.Inner() <= Distance(host, g, x, y) < g.Outer()
  }

  /** The hue at (x, y): `1 + atan2(-dy, dx) / (2 pi)`. */
  function HueAt(host: Host, g: Geometry, x: real, y: real): real
    requires host.pi > 0.0
  {
    1.0 + host.atan2(-g.Dy(y), g.Dx(x)) / (host.pi * 2.0)
  }

  /** The alpha of a ring pixel: the outer edge is antialiased first, then the inner edge. */
  function EdgeAlpha(g: Geometry, distance: real): byte
  {
    if g.Outer() - distance < 1.0 then ClampByte(255.0 * (g.Outer() - distance))
    else if distance - g.Inner() < 1.0 then ClampByte(255.0 * (distance - g.Inner()))
    else 255
  }

  /** The RGBA bytes the constructor writes for pixel (x, y). */
  function RingPixel(host: Host, g: Geometry, x: int, y: int): (px: seq<byte>)
    requires host.pi > 0.0
    ensures |px| == 4
  {
    if OnRing(host, g, x as real, y as real) then
      var c := Hsv2Rgb(HueAt(host, g, x as real, y as real), 1.0, 1.0);
      [ClampByte(c.r as real), ClampByte(c.g as real), ClampByte(c.b as real),
       EdgeAlpha(g, Distance(host, g, x as real, y as real))]
    else [0, 0, 0, 0]
  }

  /** Byte i of the ring bitmap. */
  function RingByte(host: Host, g: Geometry, i: int): byte
    requires host.pi > 0.0
  {
    if g.size == 0 then 0 else RingPixel(host, g, PixelX(i, g.size), PixelY(i, g.size))[i % 4]
  }

  /**
   * The ring bitmap: `size * size` pixels, row-major, pixel (x, y) at bytes
   * `4 * (y * size + x) .. + 3`, each holding what the constructor writes for it.
   */
  function RingBitmap(host: Host, g: Geometry): (s: seq<byte>)
    requires host.pi > 0.0
    ensures |s| == 4 * g.size * g.size
    ensures forall x, y :: 0 <= x < g.size && 0 <= y < g.size ==>
      0 <= PixelIndex(x, y, g.size) && PixelIndex(x, y, g.size) + 4 <= |s| && PixelAt(s, x, y, g.size) == RingPixel(host, g, x, y)
  {
    var s := seq(4 * g.size * g.size, RingByteOf(host, g));
    RingLayout(host, g, s);
    s
  }

  /** `RingByte` for a fixed host and geometry, as a function of the byte's index. */
  function RingByteOf(host: Host, g: Geometry): (f: int -> byte)
    requires host.pi > 0.0
    ensures forall i :: f(i) == RingByte(host, g, i)
  {
    i => RingByte(host, g, i)
  }

  /** Pixel (x, y) of the byte-by-byte ring bitmap is `RingPixel(x, y)`. */
  lemma RingLayout(host: Host, g: Geometry, s: seq<byte>)
    requires host.pi > 0.0 && |s| == 4 * g.size * g.size
    requires forall i :: 0 <= i < |s| ==> s[i] == RingByte(host, g, i)
    ensures forall x, y :: 0 <= x < g.size && 0 <= y < g.size ==>
      0 <= PixelIndex(x, y, g.size) && PixelIndex(x, y, g.size) + 4 <= |s| && PixelAt(s, x, y, g.size) == RingPixel(host, g, x, y)
  {
    forall x, y | 0 <= x < g.size && 0 <= y < g.size
      ensures 0 <= PixelIndex(x, y, g.size) && PixelIndex(x, y, g.size) + 4 <= |s|
      ensures PixelAt(s, x, y, g.size) == RingPixel(host, g, x, y)
    {
      PixelInBounds(x, y, g.size, g.size);
      var px := PixelAt(s, x, y, g.size);
      forall c | 0 <= c < 4
        ensures px[c] == RingPixel(host, g, x, y)[c]
      {
        RingByteAt(host, g, x, y, c);
      }
    }
  }

  /** The pixel the SV square shows at saturation s and value v, stored opaque. */
  function SvPixel(hue: real, s: real, v: real): (px: seq<byte>)
    ensures |px| == 4
  {
    var c := Hsv2Rgb(hue, s, v);
    [ClampByte(c.r as real), ClampByte(c.g as real), ClampByte(c.b as real), 0xff]
  }

  /** Whether `draw`'s square loops have painted pixel (px, py) once they reach (x, y). */
  predicate Painted(g: Geometry, px: int, py: int, x: int, y: int)
  {
    g.Start() <= px < g.End() && g.Start() <= py < g.End() && (py < y || (py == y && px < x))
  }

  /** Byte i of `base` once the square loops have reached (x, y). */
  function PaintedByte(base: seq<byte>, g: Geometry, hue: real, x: int, y: int, i: int): byte
    requires 0 <= i < |base| && g.side >= 0.0
  {
    var px, py := PixelX(i, g.size), PixelY(i, g.size);
    if Painted(g, px, py, x, y) then
      SideOfSquare(g);
      SvPixel(hue, SaturationAt(g, px as real), ValueAt(g, py as real))[i % 4]
    else base[i]
  }

  function PaintedUpTo(base: seq<byte>, g: Geometry, hue: real, x: int, y: int): (s: seq<byte>)
    requires g.side >= 0.0
    ensures |s| == |base|
  {
    seq(|base|, i requires 0 <= i < |base| => PaintedByte(base, g, hue, x, y, i))
  }

  /** `base` with the whole SV square painted for the given hue. */
  function SquareBitmap(base: seq<byte>, g: Geometry, hue: real): (s: seq<byte>)
    requires g.side >= 0.0
    ensures |s| == |base|
  {
    PaintedUpTo(base, g, hue, g.Start(), g.End())
  }

  /** The 7x7 handle glyph: '1' is a black cell, '0' a white one, '.' is left alone. */
  const Mask: string :=
    "..111.." +
    ".10001." +
    "10...01" +
    "10...01" +
    "10...01" +
    ".10001." +
    "..111.."

  /** The opaque RGBA bytes of a non-'.' mask cell. */
  function Ink(cell: char): (px: seq<byte>)
    ensures |px| == 4
  {
    var c: byte := if cell == '1' then 0 else 0xff;
    [c, c, c, 0xff]
  }

  /** The offset of mask cell `pos` (row pos / 7, column pos % 7) from the glyph's first byte. */
  function CellOffset(base: int, width: int, pos: nat): int
  {
    base + PixelIndex(pos % 7, pos / 7, width)
  }

  /** The bitmap after the first n mask cells of a glyph whose first byte is `base`. */
  function Stamped(s: seq<byte>, base: int, width: int, n: nat): (t: seq<byte>)
    requires n <= 49
    ensures |t| == |s|
  {
    if n == 0 then s
    else
      var prev := Stamped(s, base, width, n - 1);
      if Mask[n - 1] == '.' then prev
      else Put4(prev, CellOffset(base, width, n - 1), Ink(Mask[n - 1]))
  }

  /**
   * Whether byte i lies between the first byte of the glyph centred on (x, y) and
   * the last: the bytes of rows y - 3 .. y + 3 from column x - 3 of the first row
   * to column x + 3 of the last.
   */
  predicate InGlyphSpan(width: int, x: int, y: int, i: int)
  {
    PixelIndex(x - 3, y - 3, width) <= i < PixelIndex(x + 4, y + 3, width)
  }

  /**
   * `drawHandle(d, x, y)`: the glyph centred on (x, y). Its stores, wrapped rows and
   * dropped out-of-range stores included, never reach a byte outside the glyph's span.
   */
  function Stamp(s: seq<byte>, width: int, x: int, y: int): (t: seq<byte>)
    ensures |t| == |s|
    ensures width > 0 ==> forall i :: 0 <= i < |s| && !InGlyphSpan(width, x, y, i) ==> t[i] == s[i]
  {
    var base := PixelIndex(x - 3, y - 3, width);
    if width > 0 then
      StampedOutside(s, base, width, 49);
      assert base + PixelIndex(7, 6, width) == PixelIndex(x + 4, y + 3, width);
      Stamped(s, base, width, 49)
    else Stamped(s, base, width, 49)
  }

  /** The first n glyph cells change no byte before `base` or from `base + PixelIndex(7, 6, width)` on. */
  lemma {:induction false} StampedOutside(s: seq<byte>, base: int, width: int, n: nat)
    requires width > 0 && n <= 49
    ensures forall i :: 0 <= i < |s| && (i < base || i >= base + PixelIndex(7, 6, width)) ==>
      Stamped(s, base, width, n)[i] == s[i]
  {
    if n > 0 {
      StampedOutside(s, base, width, n - 1);
      if Mask[n - 1] != '.' {
        CellInGlyph(base, width, n - 1);
        Put4Bytes(Stamped(s, base, width, n - 1), CellOffset(base, width, n - 1), Ink(Mask[n - 1]));
      }
    }
  }

  /** Each of the 49 cells' four bytes lie within `[base, base + PixelIndex(7, 6, width))`. */
  lemma CellInGlyph(base: int, width: int, pos: nat)
    requires width > 0 && pos < 49
    ensures base <= CellOffset(base, width, pos) && CellOffset(base, width, pos) + 4 <= base + PixelIndex(7, 6, width)
  {
    var row, col := pos / 7, pos % 7;
    assert row * width <= 6 * width by { MulMono(row, 6, width); }
  }

  /** The hue handle's pixel: on the middle of the ring at angle `hue * 2 pi`. */
  function HueHandle(host: Host, g: Geometry, hue: real): (int, int)
  {
    var angle := hue * host.pi * 2.0;
    var h := g.size as real / 2.0 - g.thickness as real / 2.0;
    (Round(host.cos(angle) * h + g.size as real / 2.0), Round(g.size as real / 2.0 - host.sin(angle) * h))
  }

  /** The SV handle's pixel: saturation across, value upwards. */
  function SvHandle(g: Geometry, saturation: real, value: real): (int, int)
  {
    (Round(saturation * g.side + g.Start() as real), Round((1.0 - value) * g.side + g.Start() as real))
  }

  /** Whether byte i belongs to a pixel of the SV square `[start, end)^2`. */
  predicate InSquareAt(g: Geometry, i: int)
  {
    var px, py := PixelX(i, g.size), PixelY(i, g.size);
    g.Start() <= px < g.End() && g.Start() <= py < g.End()
  }

  /**
   * What `draw` puts on the canvas: outside the SV square and outside the spans of
   * both handle glyphs, every byte is the ring bitmap's.
   */
  function Picture(host: Host, g: Geometry, hue: real, saturation: real, value: real): (s: seq<byte>)
    requires host.pi > 0.0 && g.side >= 0.0
    ensures |s| == 4 * g.size * g.size
    ensures g.size > 0 ==>
      var (hx, hy) := HueHandle(host, g, hue);
      var (sx, sy) := SvHandle(g, saturation, value);
      forall i :: 0 <= i < |s| && !InSquareAt(g, i) && !InGlyphSpan(g.size, hx, hy, i) && !InGlyphSpan(g.size, sx, sy, i)
        ==> s[i] == RingBitmap(host, g)[i]
  {
    var ring := RingBitmap(host, g);
    var square := SquareBitmap(ring, g, hue);
    assert forall i :: 0 <= i < |ring| && !InSquareAt(g, i) ==> square[i] == ring[i] by {
      forall i | 0 <= i < |ring| && !InSquareAt(g, i)
        ensures square[i] == ring[i]
      {
        assert square[i] == PaintedByte(ring, g, hue, g.Start(), g.End(), i);
      }
    }
    var (hx, hy) := HueHandle(host, g, hue);
    var (sx, sy) := SvHandle(g, saturation, value);
    Stamp(Stamp(square, g.size, hx, hy), g.size, sx, sy)
  }

  /** `Math.max(Math.min(v, hi), lo)`. */
  function Clamp(v: real, lo: real, hi: real): real
  {
    var m := if v < hi then v else hi;
    if m > lo then m else lo
  }

  /** Saturation for pointer column x: `(x - start) / side`. */
  function SaturationAt(g: Geometry, x: real): real
    requires g.side > 0.0
  {
    (x - g.Start() as real) / g.side
  }

  /** Value for pointer row y: `1 - (y - start) / side`. */
  function ValueAt(g: Geometry, y: real): real
    requires g.side > 0.0
  {
    1.0 - (y - g.Start() as real) / g.side
  }

  /** The drag in progress, if any: which listener the last press registered. */
  datatype Drag = Idle | HueDrag | SvDrag

  // ---------------------------------------------------------------------------
  // Geometry lemmas

  /** A square with at least one pixel has a positive side. */
  lemma SideOfSquare(g: Geometry)
    requires g.side >= 0.0
    ensures g.Start() < g.End() ==> g.side > 0.0
  {
  }

  lemma RoundMono(a: real, b: real)
    requires a <= b
    ensures Round(a) <= Round(b)
  {
  }

  /**
   * With a non-negative thickness and gap that fit in the size, the SV square
   * `[start, end)` lies inside the bitmap.
   */
  lemma SquareFits(host: Host, size: nat, thickness: int, gap: int)
    requires host.Valid()
    requires 0 <= thickness && 0 <= gap && 2 * thickness + gap <= size
    ensures var g := Inscribed(host, size, thickness, gap);
      g.side >= 0.0 && 0 <= g.Start() <= g.End() <= size
  {
    var diam := Diameter(size, thickness, gap);
    SideBelow(host, diam);
    SquareRounds(size, thickness, InscribedSide(host, diam));
  }

  /** The inscribed square's side `sqrt(diam^2 / 2)` is at most the diameter. */
  lemma SideBelow(host: Host, diam: real)
    requires host.Valid() && diam >= 0.0
    ensures 0.0 <= InscribedSide(host, diam) <= diam
  {
    var side := host.sqrt(diam * diam / 2.0);
    assert side >= 0.0 && side * side == diam * diam / 2.0;
    if side > diam {
      SquareMono(diam, side);
    }
  }

  lemma SquareRounds(size: nat, thickness: int, side: real)
    requires 0.0 <= side <= size as real
    ensures var g := Geometry(size, thickness, side); 0 <= g.Start() <= g.End() <= size
  {
    var half := size as real / 2.0;
    RoundMono(half - side / 2.0, half + side / 2.0);
    RoundMono(0.0, half - side / 2.0);
    RoundMono(half + side / 2.0, size as real);
    assert Round(0.0) == 0 && Round(size as real) == size;
  }

  lemma SquareMono(a: real, b: real)
    requires 0.0 <= a < b
    ensures a * a < b * b
  {
    assert b * b - a * a == (b - a) * (b + a);
    MulSign(b - a, b + a);
  }

  /** When the inner radius is not negative, ring membership is a test on squared distances. */
  lemma RingMembership(host: Host, g: Geometry, x: real, y: real)
    requires host.Valid() && g.Inner() >= 0.0
    ensures var d2 := g.Dx(x) * g.Dx(x) + g.Dy(y) * g.Dy(y);
      OnRing(host, g, x, y) <==> g.Inner() * g.Inner() <= d2 < g.Outer() * g.Outer()
  {
    var d2 := g.Dx(x) * g.Dx(x) + g.Dy(y) * g.Dy(y);
    assert d2 >= 0.0;
    var d := Distance(host, g, x, y);
    assert d >= 0.0 && d * d == d2;
    var lo, hi := g.Inner(), g.Outer();
    if lo <= d {
      assert lo * lo <= d * d by {
        if lo < d {
          SquareMono(lo, d);
        }
      }
    } else {
      SquareMono(d, lo);
    }
    if d < hi {
      SquareMono(d, hi);
    } else {
      assert hi * hi <= d * d by {
        if hi < d {
          SquareMono(hi, d);
        }
      }
    }
  }

  // ---------------------------------------------------------------------------
  // The ring bitmap

  /** The first n bytes of s are those of the ring bitmap. */
  ghost predicate RingPrefix(s: seq<byte>, host: Host, g: Geometry, n: int)
    requires host.pi > 0.0
  {
    0 <= n <= |s| && forall i :: 0 <= i < n ==> s[i] == RingByte(host, g, i)
  }

  /** Writing pixel (x, y) at its offset extends the prefix by one pixel. */
  lemma RingStep(s: seq<byte>, host: Host, g: Geometry, x: int, y: int)
    requires host.pi > 0.0 && |s| == 4 * g.size * g.size
    requires 0 <= x < g.size && 0 <= y < g.size
    requires RingPrefix(s, host, g, PixelIndex(x, y, g.size))
    ensures RingPrefix(Put4(s, PixelIndex(x, y, g.size), RingPixel(host, g, x, y)),
                       host, g, PixelIndex(x, y, g.size) + 4)
  {
    var o, px := PixelIndex(x, y, g.size), RingPixel(host, g, x, y);
    var t := Put4(s, o, px);
    PixelInBounds(x, y, g.size, g.size);
    Put4Bytes(s, o, px);
    forall i | 0 <= i < o + 4
      ensures t[i] == RingByte(host, g, i)
    {
      if i < o {
        assert t[i] == s[i];
      } else {
        assert t[i] == px[i - o];
        RingByteAt(host, g, x, y, i - o);
      }
    }
  }

  /** Byte c of pixel (x, y) in the ring bitmap is channel c of RingPixel(x, y). */
  lemma RingByteAt(host: Host, g: Geometry, x: int, y: int, c: int)
    requires host.pi > 0.0 && 0 <= x < g.size && 0 <= c < 4
    ensures RingByte(host, g, PixelIndex(x, y, g.size) + c) == RingPixel(host, g, x, y)[c]
  {
    PixelOfIndex(x, y, c, g.size);
  }

  /** A prefix as long as the bitmap is the bitmap. */
  lemma RingDone(s: seq<byte>, host: Host, g: Geometry)
    requires host.pi > 0.0 && |s| == 4 * g.size * g.size
    requires RingPrefix(s, host, g, PixelIndex(0, g.size, g.size))
    ensures s == RingBitmap(host, g)
  {
    assert PixelIndex(0, g.size, g.size) == |s|;
    var r := RingBitmap(host, g);
    forall i | 0 <= i < |s|
      ensures s[i] == r[i]
    {
      assert r[i] == RingByteOf(host, g)(i);
    }
    assert s == r;
  }

  /** A ring pixel stores its hue's colour exactly; a pixel off the ring is (0, 0, 0, 0). */
  lemma RingPixelColour(host: Host, g: Geometry, x: int, y: int)
    requires host.pi > 0.0
    ensures var px := RingPixel(host, g, x, y);
      if OnRing(host, g, x as real, y as real) then
        var c := Hsv2Rgb(HueAt(host, g, x as real, y as real), 1.0, 1.0);
        px[0] == c.r && px[1] == c.g && px[2] == c.b
        && px[3] == EdgeAlpha(g, Distance(host, g, x as real, y as real))
      else px == [0, 0, 0, 0]
  {
    if OnRing(host, g, x as real, y as real) {
      var c := Hsv2Rgb(HueAt(host, g, x as real, y as real), 1.0, 1.0);
      ClampOfByte(c.r);
      ClampOfByte(c.g);
      ClampOfByte(c.b);
    }
  }

  /**
   * On the ring, alpha is 255 away from both edges; within 1 of the outer edge it
   * is `255 * (outer - distance)` rounded, even when the inner edge is also within 1;
   * otherwise within 1 of the inner edge it is `255 * (distance - inner)` rounded.
   */
  lemma EdgeAlphaRules(g: Geometry, distance: real)
    requires g.Inner() <= distance < g.Outer()
    ensures var a := EdgeAlpha(g, distance) as real;
      && (g.Outer() - distance >= 1.0 && distance - g.Inner() >= 1.0 ==> a == 255.0)
      && (g.Outer() - distance < 1.0 ==>
            255.0 * (g.Outer() - distance) - 0.5 <= a <= 255.0 * (g.Outer() - distance) + 0.5)
      && (g.Outer() - distance >= 1.0 && distance - g.Inner() < 1.0 ==>
            255.0 * (distance - g.Inner()) - 0.5 <= a <= 255.0 * (distance - g.Inner()) + 0.5)
  {
  }

  // ---------------------------------------------------------------------------
  // The SV square

  /** Before the first pixel is painted, the square loops have changed nothing. */
  lemma PaintedNothing(base: seq<byte>, g: Geometry, hue: real)
    requires g.side >= 0.0
    ensures PaintedUpTo(base, g, hue, g.Start(), g.Start()) == base
  {
  }

  /** Finishing a row is the same as standing at the start of the next one. */
  lemma PaintedRow(base: seq<byte>, g: Geometry, hue: real, y: int)
    requires g.side >= 0.0
    ensures PaintedUpTo(base, g, hue, g.End(), y) == PaintedUpTo(base, g, hue, g.Start(), y + 1)
  {
    assert forall i :: 0 <= i < |base| ==>
      PaintedByte(base, g, hue, g.End(), y, i) == PaintedByte(base, g, hue, g.Start(), y + 1, i);
  }

  /** Painting pixel (x, y) of the square advances the loops by one pixel. */
  lemma PaintedStep(base: seq<byte>, g: Geometry, hue: real, x: int, y: int)
    requires g.side > 0.0 && g.size > 0 && 0 <= g.Start() <= x < g.End() <= g.size
    requires g.Start() <= y < g.End()
    ensures Put4(PaintedUpTo(base, g, hue, x, y), PixelIndex(x, y, g.size),
      SvPixel(hue, SaturationAt(g, x as real), ValueAt(g, y as real)))
      == PaintedUpTo(base, g, hue, x + 1, y)
  {
    var before := PaintedUpTo(base, g, hue, x, y);
    var px := SvPixel(hue, SaturationAt(g, x as real), ValueAt(g, y as real));
    var o := PixelIndex(x, y, g.size);
    Put4Bytes(before, o, px);
    forall i | 0 <= i < |base|
      ensures Put4(before, o, px)[i] == PaintedByte(base, g, hue, x + 1, y, i)
    {
      SamePixel(i, x, y, g.size);
      if o <= i < o + 4 {
        PixelOfIndex(x, y, i - o, g.size);
      }
    }
  }

  /**
   * After `draw`'s loops, every pixel of the square `[start, end)^2` holds
   * hsv2rgb(hue, (x - start) / side, 1 - (y - start) / side) opaque, and every
   * other byte is the ring bitmap's.
   */
  lemma SquarePixel(base: seq<byte>, g: Geometry, hue: real, x: int, y: int, c: int)
    requires g.side >= 0.0 && 0 <= x < g.size && 0 <= y && 0 <= c < 4
    requires PixelIndex(x, y, g.size) + c < |base|
    ensures var b := SquareBitmap(base, g, hue)[PixelIndex(x, y, g.size) + c];
      if g.Start() <= x < g.End() && g.Start() <= y < g.End() then
        g.side > 0.0 &&
        var rgb := Hsv2Rgb(hue, SaturationAt(g, x as real), ValueAt(g, y as real));
        && b == SvPixel(hue, SaturationAt(g, x as real), ValueAt(g, y as real))[c]
        && IsByteRGB(rgb) && b == [rgb.r, rgb.g, rgb.b, 255][c]
      else b == base[PixelIndex(x, y, g.size) + c]
  {
    PixelOfIndex(x, y, c, g.size);
    if g.Start() <= x < g.End() && g.Start() <= y < g.End() {
      SquareUnit(g, x, y);
      var rgb := Hsv2Rgb(hue, SaturationAt(g, x as real), ValueAt(g, y as real));
      ClampOfByte(rgb.r);
      ClampOfByte(rgb.g);
      ClampOfByte(rgb.b);
    }
  }

  /**
   * Inside the square the stored saturation lies in [0, 1) and the value in (0, 1]:
   * `end - start` is below `side + 1`, so the clamp of `SvPixel` changes nothing.
   */
  lemma SquareUnit(g: Geometry, x: int, y: int)
    requires g.side >= 0.0 && g.Start() <= x < g.End() && g.Start() <= y < g.End()
    ensures g.side > 0.0
    ensures 0.0 <= SaturationAt(g, x as real) < 1.0 && 0.0 < ValueAt(g, y as real) <= 1.0
  {
    var mid := g.size as real / 2.0;
    assert g.End() as real <= mid + g.side / 2.0 + 0.5;
    assert g.Start() as real > mid - g.side / 2.0 - 0.5;
    assert g.side > 0.0;
    RatioBounds((x - g.Start()) as real, g.side);
    RatioBounds((y - g.Start()) as real, g.side);
  }

  // ---------------------------------------------------------------------------
  // The handle glyph

  /** Whether byte i lies in a non-'.' cell of the glyph centred on (x, y), and which. */
  function HandleCell(width: int, x: int, y: int, i: int): (pos: int)
    requires width > 0
    ensures -1 <= pos < 49
  {
    var col, row := PixelX(i, width) - (x - 3), PixelY(i, width) - (y - 3);
    if 0 <= col < 7 && 0 <= row < 7 && Mask[7 * row + col] != '.' then 7 * row + col else -1
  }

  lemma MaskLength()
    ensures |Mask| == 49
  {
  }

  lemma CellPlace(x: int, y: int, width: int, pos: nat)
    requires pos < 49
    ensures CellOffset(PixelIndex(x - 3, y - 3, width), width, pos)
      == PixelIndex(x - 3 + pos % 7, y - 3 + pos / 7, width)
  {
    var r, c := pos / 7, pos % 7;
    assert (y - 3 + r) * width == (y - 3) * width + r * width;
  }

  /** After the seventh cell of a row, the stride `width * 4 - 7 * 4` reaches the next row. */
  lemma RowStride(row: int, width: int)
    ensures PixelIndex(7, row, width) + width * 4 - 7 * 4 == PixelIndex(0, row + 1, width)
  {
    assert (row + 1) * width == row * width + width;
  }

  /** Byte i belongs to mask cell pos exactly when it is one of that cell's pixel bytes. */
  lemma CellMatch(width: int, x: int, y: int, pos: int, i: int)
    requires width > 0 && 3 <= x && x + 3 < width && 0 <= pos < 49 && Mask[pos] != '.'
    ensures var o := PixelIndex(x - 3 + pos % 7, y - 3 + pos / 7, width);
      (HandleCell(width, x, y, i) == pos <==> o <= i < o + 4) && (o <= i < o + 4 ==> i % 4 == i - o)
  {
    var cx, cy := x - 3 + pos % 7, y - 3 + pos / 7;
    var o := PixelIndex(cx, cy, width);
    SamePixel(i, cx, cy, width);
    var col, row := PixelX(i, width) - (x - 3), PixelY(i, width) - (y - 3);
    if HandleCell(width, x, y, i) == pos {
      assert 0 <= col < 7 && 0 <= row < 7 && 7 * row + col == pos;
      DivModUnique(pos, 7, row, col);
    }
    if o <= i < o + 4 {
      assert col == pos % 7 && row == pos / 7;
      DivModIdentity(pos, 7);
      PixelOfIndex(cx, cy, i - o, width);
    }
  }

  lemma {:induction false} StampedCells(s: seq<byte>, width: int, x: int, y: int, n: nat)
    requires width > 0 && 3 <= x && x + 3 < width && n <= 49
    ensures forall i :: 0 <= i < |s| ==>
      Stamped(s, PixelIndex(x - 3, y - 3, width), width, n)[i] ==
        var pos := HandleCell(width, x, y, i);
        if 0 <= pos < n then Ink(Mask[pos])[i % 4] else s[i]
  {
    MaskLength();
    var base := PixelIndex(x - 3, y - 3, width);
    if n > 0 {
      StampedCells(s, width, x, y, n - 1);
      var prev := Stamped(s, base, width, n - 1);
      var pos := n - 1;
      if Mask[pos] != '.' {
        var o := CellOffset(base, width, pos);
        CellPlace(x, y, width, pos);
        Put4Bytes(prev, o, Ink(Mask[pos]));
        forall i | 0 <= i < |s|
          ensures Stamped(s, base, width, n)[i] ==
            var p := HandleCell(width, x, y, i);
            if 0 <= p < n then Ink(Mask[p])[i % 4] else s[i]
        {
          CellMatch(width, x, y, pos, i);
        }
      } else {
        forall i | 0 <= i < |s|
          ensures HandleCell(width, x, y, i) != pos
        {
        }
      }
    }
  }

  /**
   * `drawHandle(d, x, y)` with the glyph clear of the left and right edges:
   * each '1' cell becomes (0, 0, 0, 255), each '0' cell (255, 255, 255, 255),
   * and every other byte is unchanged; rows above or below the bitmap are dropped.
   */
  lemma StampInterior(s: seq<byte>, width: int, x: int, y: int)
    requires width > 0 && 3 <= x && x + 3 < width
    ensures |Stamp(s, width, x, y)| == |s|
    ensures forall i :: 0 <= i < |s| ==>
      Stamp(s, width, x, y)[i] ==
        var pos := HandleCell(width, x, y, i);
        if pos >= 0 then Ink(Mask[pos])[i % 4] else s[i]
  {
    StampedCells(s, width, x, y, 49);
  }

  // ---------------------------------------------------------------------------
  // Pointer tracking

  /** `Math.max(Math.min(v, hi), lo)` lands in [lo, hi] and leaves values inside alone. */
  lemma ClampRange(v: real, lo: real, hi: real)
    requires lo <= hi
    ensures lo <= Clamp(v, lo, hi) <= hi
    ensures lo <= v <= hi ==> Clamp(v, lo, hi) == v
    ensures v < lo ==> Clamp(v, lo, hi) == lo
    ensures v > hi ==> Clamp(v, lo, hi) == hi
  {
  }

  /**
   * A drag over the SV square clamps the pointer into [start, end] (end included),
   * so saturation stays in [0, (end - start) / side] and value in
   * [1 - (end - start) / side, 1].
   */
  lemma DragRange(g: Geometry, x: real, y: real)
    requires g.side > 0.0 && g.Start() <= g.End()
    ensures var lo, hi := g.Start() as real, g.End() as real;
      var s, v := SaturationAt(g, Clamp(x, lo, hi)), ValueAt(g, Clamp(y, lo, hi));
      var span := (hi - lo) / g.side;
      0.0 <= s <= span && 1.0 - span <= v <= 1.0
  {
    var lo, hi := g.Start() as real, g.End() as real;
    ClampRange(x, lo, hi);
    ClampRange(y, lo, hi);
    DivMono(Clamp(x, lo, hi) - lo, hi - lo, g.side);
    DivMono(Clamp(y, lo, hi) - lo, hi - lo, g.side);
    DivMono(0.0, Clamp(x, lo, hi) - lo, g.side);
    DivMono(0.0, Clamp(y, lo, hi) - lo, g.side);
  }

  lemma DivMono(a: real, b: real, d: real)
    requires d > 0.0 && a <= b
    ensures a / d <= b / d
  {
    var qa, qb := a / d, b / d;
    assert qa * d == a && qb * d == b;
    MulSign(qb - qa, d);
    assert (qb - qa) * d == b - a;
  }

  // ---------------------------------------------------------------------------
  // The wheel

  class ColorWheel {
    const host: Host
    const geo: Geometry
    /** The ring bitmap, built once by the constructor (`this.wheel`). */
    const ring: array<byte>
    var hue: real
    var saturation: real
    var value: real
    /** What the canvas shows: the last bitmap `draw` published. */
    var canvas: seq<byte>
    var session: Drag

    ghost predicate Valid()
      reads this, ring
    {
      && host.Valid()
      && geo.side >= 0.0
      && ring[..] == RingBitmap(host, geo)
      && |canvas| == ring.Length
      && 0 <= geo.Start() <= geo.End() <= geo.size
      && (session == SvDrag ==> geo.Start() < geo.End())
    }

    /**
     * Builds the ring bitmap row by row with a running offset; the canvas starts
     * out transparent black. `side` is `sqrt(diam^2 / 2)` for
     * `diam = size - 2 * thickness - gap`.
     */
    constructor (host: Host, size: nat, thickness: int, gap: int)
      requires host.Valid()
      requires 0 <= thickness && 0 <= gap && 2 * thickness + gap <= size
      ensures Valid() && fresh(ring)
      ensures geo == Inscribed(host, size, thickness, gap)
      ensures this.host == host
      ensures hue == 0.0 && saturation == 0.0 && value == 0.0
      ensures session == Idle && canvas == seq(4 * size * size, _ => 0)
    {
      var diam := Diameter(size, thickness, gap);
      var g := Geometry(size, thickness, InscribedSide(host, diam));
      SquareFits(host, size, thickness, gap);
      var data := new byte[4 * size * size];
      var offset := 0;
      var y := 0;
      while y < size
        invariant 0 <= y <= size
        invariant offset == PixelIndex(0, y, size)
        invariant RingPrefix(data[..], host, g, offset)
      {
        var x := 0;
        while x < size
          invariant 0 <= x <= size
          invariant offset == PixelIndex(x, y, size)
          invariant RingPrefix(data[..], host, g, offset)
        {
          RingStep(data[..], host, g, x, y);
          offset := PutPixel(data, offset, RingPixel(host, g, x, y));
          x := x + 1;
        }
        NextRow(y, size);
        y := y + 1;
      }
      RingDone(data[..], host, g);
      this.host := host;
      geo := g;
      ring := data;
      hue := 0.0;
      saturation := 0.0;
      value := 0.0;
      canvas := seq(4 * size * size, _ => 0);
      session := Idle;
    }

    /** `setHSV`: stores the three fields and does not redraw. */
    method SetHSV(h: real, s: real, v: real)
      requires Valid()
      modifies this
      ensures Valid()
      ensures hue == h && saturation == s && value == v
      ensures canvas == old(canvas) && session == old(session)
    {
      hue := h;
      saturation := s;
      value := v;
    }

    /**
     * Copies the ring bitmap, paints the SV square for the current hue, stamps
     * the two handles and publishes the result on the canvas.
     */
    method Draw()
      requires Valid()
      modifies this
      ensures Valid()
      ensures canvas == Picture(host, geo, hue, saturation, value)
      ensures hue == old(hue) && saturation == old(saturation) && value == old(value)
      ensures session == old(session)
    {
      canvas := Compose(host, geo, ring, hue, saturation, value);
    }

    /**
     * The body of `draw` between the two `putImageData` calls: a working copy of
     * the ring bitmap, the square painted over it, then the hue handle and the SV handle.
     */
    static method Compose(host: Host, g: Geometry, ring: array<byte>, hue: real, saturation: real, value: real)
      returns (picture: seq<byte>)
      requires host.pi > 0.0 && g.side >= 0.0 && 0 <= g.Start() <= g.End() <= g.size
      requires ring[..] == RingBitmap(host, g)
      ensures picture == Picture(host, g, hue, saturation, value)
    {
      var d := new byte[ring.Length];
      forall i | 0 <= i < d.Length {
        d[i] := ring[i];
      }
      assert d[..] == RingBitmap(host, g);
      PaintSquare(d, g, hue);
      var (hx, hy) := HueHandle(host, g, hue);
      DrawHandle(d, g.size, hx, hy);
      var (sx, sy) := SvHandle(g, saturation, value);
      DrawHandle(d, g.size, sx, sy);
      picture := d[..];
    }

    /** The loops of `draw` that fill the SV square row by row with a running offset. */
    static method PaintSquare(d: array<byte>, g: Geometry, hue: real)
      requires g.side >= 0.0 && 0 <= g.Start() <= g.End() <= g.size
      modifies d
      ensures d[..] == SquareBitmap(old(d[..]), g, hue)
    {
      ghost var base := d[..];
      var start, end := g.Start(), g.End();
      SideOfSquare(g);
      PaintedNothing(base, g, hue);
      var y := start;
      while y < end
        invariant start <= y <= end
        invariant d[..] == PaintedUpTo(base, g, hue, start, y)
      {
        var v := ValueAt(g, y as real);
        var offset := y * g.size * 4 + start * 4;
        var x := start;
        while x < end
          invariant start <= x <= end
          invariant offset == PixelIndex(x, y, g.size)
          invariant d[..] == PaintedUpTo(base, g, hue, x, y)
        {
          var s := SaturationAt(g, x as real);
          PaintedStep(base, g, hue, x, y);
          offset := PutPixel(d, offset, SvPixel(hue, s, v));
          x := x + 1;
        }
        PaintedRow(base, g, hue, y);
        y := y + 1;
      }
    }

    /** `drawHandle`: walks the 7x7 mask, skipping '.' cells, with a per-row stride. */
    static method DrawHandle(d: array<byte>, width: int, x: int, y: int)
      modifies d
      ensures d[..] == Stamp(old(d[..]), width, x, y)
    {
      MaskLength();
      var offset := (y - 3) * width * 4 + (x - 3) * 4;
      ghost var base := offset;
      var pos := 0;
      var row := 0;
      while row < 7
        invariant 0 <= row <= 7 && pos == 7 * row
        invariant offset == base + PixelIndex(0, row, width)
        invariant d[..] == Stamped(old(d[..]), base, width, pos)
      {
        var col := 0;
        while col < 7
          invariant 0 <= col <= 7 && pos == 7 * row + col
          invariant offset == base + PixelIndex(col, row, width)
          invariant d[..] == Stamped(old(d[..]), base, width, pos)
        {
          assert pos % 7 == col && pos / 7 == row by { DivModUnique(pos, 7, row, col); }
          assert offset == CellOffset(base, width, pos);
          if Mask[pos] == '.' {
            offset := offset + 4;
          } else {
            var c: byte := if Mask[pos] == '1' then 0 else 0xff;
            assert [c, c, c, 0xff] == Ink(Mask[pos]);
            offset := PutPixel(d, offset, [c, c, c, 0xff]);
          }
          col := col + 1;
          pos := pos + 1;
        }
        RowStride(row, width);
        row := row + 1;
        offset := offset + width * 4 - 7 * 4;
      }
    }

    /** `color()`: the packed `(r << 16) | (g << 8) | b` of the current HSV. */
    function Color(): (c: int)
      reads this
      ensures 0.0 <= saturation <= 1.0 && 0.0 <= value <= 1.0 ==> IsByteRGB(Hsv2Rgb(hue, saturation, value))
      ensures var rgb := Hsv2Rgb(hue, saturation, value);
        IsByteRGB(rgb) ==> c == rgb.r * 0x10000 + rgb.g * 0x100 + rgb.b && 0 <= c <= 0xffffff
    {
      var rgb := Hsv2Rgb(hue, saturation, value);
      if 0.0 <= saturation <= 1.0 && 0.0 <= value <= 1.0 then
        PackRGBBytes(rgb);
        PackRGB(rgb)
      else if IsByteRGB(rgb) then
        PackRGBBytes(rgb);
        PackRGB(rgb)
      else PackRGB(rgb)
    }

    /**
     * `track`: a press inside the SV square starts an SV drag; any other press
     * goes to the ring, where it counts only on the ring itself. Returns the
     * colour reported to the `update` callback, if one was.
     */
    method Track(x: real, y: real) returns (reported: Option<int>)
      requires Valid()
      modifies this
      ensures Valid()
      ensures geo.InSquare(x, y) ==>
        && geo.side > 0.0
        && hue == old(hue) && saturation == SaturationAt(geo, x) && value == ValueAt(geo, y)
        && session == SvDrag && canvas == Picture(host, geo, hue, saturation, value)
        && reported == Some(Color())
      ensures !geo.InSquare(x, y) && OnRing(host, geo, x, y) ==>
        && hue == HueAt(host, geo, x, y) && saturation == old(saturation) && value == old(value)
        && session == HueDrag && canvas == Picture(host, geo, hue, saturation, value)
        && reported == Some(Color())
      ensures !geo.InSquare(x, y) && !OnRing(host, geo, x, y) ==>
        && hue == old(hue) && saturation == old(saturation) && value == old(value)
        && session == old(session) && canvas == old(canvas) && reported == None
    {
      var start, end := geo.Start(), geo.End();
      if x >= start as real && x < end as real && y >= start as real && y < end as real {
        reported := TrackSV(x, y);
      } else {
        reported := TrackH(x, y);
      }
    }

    /** `trackH`: on the ring, sets the hue from the angle, redraws, reports and starts a hue drag. */
    method TrackH(x: real, y: real) returns (reported: Option<int>)
      requires Valid()
      modifies this
      ensures Valid()
      ensures OnRing(host, geo, x, y) ==>
        && hue == HueAt(host, geo, x, y) && saturation == old(saturation) && value == old(value)
        && session == HueDrag && canvas == Picture(host, geo, hue, saturation, value)
        && reported == Some(Color())
      ensures !OnRing(host, geo, x, y) ==>
        && hue == old(hue) && saturation == old(saturation) && value == old(value)
        && session == old(session) && canvas == old(canvas) && reported == None
    {
      var outer, inner := geo.Outer(), geo.Inner();
      var distance := Distance(host, geo, x, y);
      if distance >= inner && distance < outer {
        hue := HueAt(host, geo, x, y);
        Draw();
        reported := Some(Color());
        session := HueDrag;
      } else {
        reported := None;
      }
    }

    /** `trackSV`: sets saturation and value from the (unclamped) press, redraws, reports, starts an SV drag. */
    method TrackSV(x: real, y: real) returns (reported: Option<int>)
      requires Valid() && geo.InSquare(x, y)
      modifies this
      ensures Valid() && geo.side > 0.0
      ensures hue == old(hue) && saturation == SaturationAt(geo, x) && value == ValueAt(geo, y)
      ensures session == SvDrag && canvas == Picture(host, geo, hue, saturation, value)
      ensures reported == Some(Color())
    {
      SideOfSquare(geo);
      saturation := SaturationAt(geo, x);
      value := ValueAt(geo, y);
      Draw();
      reported := Some(Color());
      session := SvDrag;
    }

    /**
     * A `mousemove` during a drag: a hue drag follows the angle wherever the
     * pointer is; an SV drag clamps the pointer into [start, end] first.
     * Without a drag nothing happens.
     */
    method Move(x: real, y: real) returns (reported: Option<int>)
      requires Valid()
      modifies this
      ensures Valid() && session == old(session)
      ensures old(session) == Idle ==>
        hue == old(hue) && saturation == old(saturation) && value == old(value)
        && canvas == old(canvas) && reported == None
      ensures old(session) == HueDrag ==>
        && hue == HueAt(host, geo, x, y) && saturation == old(saturation) && value == old(value)
        && canvas == Picture(host, geo, hue, saturation, value) && reported == Some(Color())
      ensures old(session) == SvDrag ==>
        var lo, hi := geo.Start() as real, geo.End() as real;
        && geo.side > 0.0 && hue == old(hue)
        && saturation == SaturationAt(geo, Clamp(x, lo, hi))
        && value == ValueAt(geo, Clamp(y, lo, hi))
        && canvas == Picture(host, geo, hue, saturation, value) && reported == Some(Color())
    {
      match session
      case Idle =>
        reported := None;
      case HueDrag =>
        hue := HueAt(host, geo, x, y);
        Draw();
        reported := Some(Color());
      case SvDrag =>
        SideOfSquare(geo);
        var start, end := geo.Start() as real, geo.End() as real;
        var mx := Clamp(x, start, end);
        var my := Clamp(y, start, end);
        saturation := SaturationAt(geo, mx);
        value := ValueAt(geo, my);
        Draw();
        reported := Some(Color());
    }

    /** A `mouseup`: the drag's listeners are removed. */
    method Release()
      requires Valid()
      modifies this
      ensures Valid() && session == Idle
      ensures hue == old(hue) && saturation == old(saturation) && value == old(value)
      ensures canvas == old(canvas)
    {
      session := Idle;
    }
  }
}
