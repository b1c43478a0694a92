/**
 * Colour conversions of the picker (src/helper.ts): CSS colour text to a packed
 * 0xRRGGBB integer and back, and RGB <-> HSV. JavaScript numbers are modelled as
 * exact integers and reals; NaN is `None`.
 */
module ColorMath {
  import opened Wrappers
  import opened JsNumber
  import opened JsText

  /** Three colour channels, each 0..255 when produced from a packed colour. */
  datatype RGB = RGB(r: int, g: int, b: int)

  /** Hue, saturation and value, each nominally in [0, 1]. */
  datatype HSV = HSV(h: real, s: real, v: real)

  /** `Math.round(x)`: the nearest integer, halves rounded up. */
  function Round(x: real): (n: int)
    ensures n as real - 0.5 <= x < n as real + 0.5
  {
    (x + 0.5).Floor
  }

  /** JavaScript's `%` on integers: truncating, so the remainder has the sign of the dividend. */
  function TruncRem(a: int, n: int): (r: int)
    requires n > 0
    ensures (a - r) % n == 0
    ensures a >= 0 ==> 0 <= r < n
    ensures a < 0 ==> -n < r <= 0
  {
    TruncRemFacts(a, n);
    if a >= 0 then a % n else -((-a) % n)
  }

  lemma TruncRemFacts(a: int, n: int)
    requires n > 0
    ensures a >= 0 ==> (a - a % n) % n == 0
    ensures a < 0 ==> (a + (-a) % n) % n == 0
  {
    var b := if a >= 0 then a else -a;
    var q := b / n;
    DivModIdentity(b, n);
    if a >= 0 {
      DivModUnique(a - a % n, n, q, 0);
    } else {
      DivModUnique(a + (-a) % n, n, -q, 0);
    }
  }

  // ---------------------------------------------------------------------------
  // toNumber: CSS colour text to a packed integer

  predicate NoDecimal(s: string)
  {
    forall i :: 0 <= i < |s| ==> !IsDigit(s[i], 10)
  }

  /** Length of the longest prefix of s made of decimal digits. */
  function DigitRun(s: string): (k: nat)
    ensures k <= |s|
    ensures k < |s| ==> !IsDigit(s[k], 10)
  {
    if s == [] || !IsDigit(s[0], 10) then 0 else 1 + DigitRun(s[1..])
  }

  /** Length of the longest prefix of s free of decimal digits. */
  function SeparatorRun(s: string): (k: nat)
    ensures k <= |s|
    ensures k < |s| ==> IsDigit(s[k], 10)
  {
    if s == [] || IsDigit(s[0], 10) then 0 else 1 + SeparatorRun(s[1..])
  }

  /**
   * `s.split(/[^0-9]+/)`: the pieces between maximal runs of non-digits. A leading
   * (trailing) separator yields an empty first (last) piece; "" yields [""].
   */
  function SplitOnNonDigits(s: string): (parts: seq<string>)
    ensures |parts| >= 1
    decreases |s|
  {
    var k := DigitRun(s);
    if k == |s| then [s]
    else
      var rest := s[k..];
      var j := SeparatorRun(rest);
      [s[..k]] + SplitOnNonDigits(rest[j..])
  }

  /** `parseInt(parts[i], 10)`, where an index past the end reads `undefined`, which parses as NaN. */
  function PartValue(parts: seq<string>, i: nat): Option<int>
  {
    if i < |parts| then ParseInt(parts[i], 10) else None
  }

  /** `a * wa + b * wb + c * wc`, NaN as soon as one operand is NaN. */
  function Weighted(a: Option<int>, wa: int, b: Option<int>, wb: int, c: Option<int>, wc: int): Option<int>
  {
    if a.Some? && b.Some? && c.Some? then Some(a.value * wa + b.value * wb + c.value * wc) else None
  }

  /** `toNumber(c)`: `#rgb`, `#rrggbb` (any other length after `#` too), otherwise `rgb()`/`rgba()`. */
  function ToNumber(c: string): (n: Option<int>)
    ensures n.Some? ==> n.value >= 0
    ensures |c| > 0 && c[0] == '#' ==> (n.Some? <==> |c| > 1 && AllDigits(c[1..], 16))
    ensures |c| == 4 && c[0] == '#' && n.Some? ==> n.value <= 0xffffff
  {
    if |c| == 4 && c[0] == '#' then
      assert c[1..2] == [c[1]] && c[2..3] == [c[2]] && c[3..4] == [c[3]];
      SingleDigit(c[1]);
      SingleDigit(c[2]);
      SingleDigit(c[3]);
      Weighted(ParseInt(c[1..2], 16), 0x110000, ParseInt(c[2..3], 16), 0x1100, ParseInt(c[3..4], 16), 0x11)
    else if |c| > 0 && c[0] == '#' then
      ParseInt(c[1..], 16)
    else
      var parts := SplitOnNonDigits(c);
      Weighted(PartValue(parts, 1), 0x10000, PartValue(parts, 2), 0x100, PartValue(parts, 3), 1)
  }

  // ---------------------------------------------------------------------------
  // toString: packed integer to `rgb(r,g,b)`

  /** The three channels `c >> 16`, `(c >> 8) & 0xff`, `c & 0xff` of a packed colour. */
  function Channels(c: int): (ch: RGB)
    ensures 0 <= ch.g < 256 && 0 <= ch.b < 256
    ensures -0x8000 <= ch.r < 0x8000
  {
    Pow2Values();
    AndLowMask(Shr(c, 8), 8);
    AndLowMask(c, 8);
    RGB(Shr(c, 16), And(Shr(c, 8), 0xff), And(c, 0xff))
  }

  /** `toString(c)`: the decimal channels in `rgb(r,g,b)` form. */
  function ToString(c: int): (s: string)
    ensures |s| >= 10 && s[..4] == "rgb(" && s[|s| - 1] == ')'
  {
    var ch := Channels(c);
    Functional("rgb(", NumberToString(ch.r, 10), NumberToString(ch.g, 10), NumberToString(ch.b, 10), ")")
  }

  /** The text `prefix R,G,B tail` of a functional colour form with channel texts R, G and B. */
  function Functional(prefix: string, rd: string, gd: string, bd: string, tail: string): string
  {
    prefix + (rd + ("," + (gd + ("," + (bd + tail)))))
  }

  /** `(r << 16) | (g << 8) | b`: packing three channels into one integer. */
  function PackRGB(c: RGB): int
  {
    Or(Or(Shl(c.r, 16), Shl(c.g, 8)), c.b)
  }

  predicate IsByte(x: int)
  {
    0 <= x < 256
  }

  predicate IsByteRGB(c: RGB)
  {
    IsByte(c.r) && IsByte(c.g) && IsByte(c.b)
  }

  // ---------------------------------------------------------------------------
  // RGB <-> HSV

  function Min3(a: int, b: int, c: int): (m: int)
    ensures m <= a && m <= b && m <= c && (m == a || m == b || m == c)
  {
    if a <= b && a <= c then a else if b <= c then b else c
  }

  function Max3(a: int, b: int, c: int): (m: int)
    ensures m >= a && m >= b && m >= c && (m == a || m == b || m == c)
  {
    if a >= b && a >= c then a else if b >= c then b else c
  }

  /**
   * `rgb2hsv(r, g, b)`: black and greys have hue 0; the hue sector follows the largest
   * channel. For byte channels the result lies in the unit cube, with hue below 1 and
   * value the largest channel over 255, and the saturation is 0 exactly for greys.
   */
  function Rgb2Hsv(r: int, g: int, b: int): (c: HSV)
    ensures IsByteRGB(RGB(r, g, b)) ==>
      && 0.0 <= c.h < 1.0
      && 0.0 <= c.s <= 1.0
      && c.v == Max3(r, g, b) as real / 255.0
      && (c.s == 0.0 <==> r == g == b)
  {
    var mn := Min3(r, g, b);
    var mx := Max3(r, g, b);
    if mx == 0 then HSV(0.0, 0.0, 0.0)
    else
      var delta := (mx - mn) as real;
      var s := delta / mx as real;
      assert IsByteRGB(RGB(r, g, b)) ==> 0.0 <= s <= 1.0 && (s == 0.0 <==> mn == mx) by {
        if IsByteRGB(RGB(r, g, b)) {
          RatioBounds(delta, mx as real);
        }
      }
      if s == 0.0 then HSV(0.0, s, mx as real / 255.0)
      else
        assert delta != 0.0;
        var h :=
          if r == mx then (g - b) as real / delta
          else if g == mx then 2.0 + (b - r) as real / delta
          else 4.0 + (r - g) as real / delta;
        assert IsByteRGB(RGB(r, g, b)) ==> -1.0 <= h <= 5.0 by {
          if IsByteRGB(RGB(r, g, b)) {
            if r == mx {
              RatioBounds((g - b) as real, delta);
            } else if g == mx {
              RatioBounds((b - r) as real, delta);
            } else {
              RatioBounds((r - g) as real, delta);
            }
          }
        }
        var h6 := h / 6.0;
        assert IsByteRGB(RGB(r, g, b)) ==> -1.0 <= h6 * 6.0 <= 5.0;
        HSV(if h6 < 0.0 then h6 + 1.0 else h6, s, mx as real / 255.0)
  }

  /** The `switch (i % 6)` of hsv2rgb: which of v, p, q, t goes to which channel. */
  function Sector(k: int, v: int, p: int, q: int, t: int): RGB
  {
    if k == 0 then RGB(v, t, p)
    else if k == 1 then RGB(q, v, p)
    else if k == 2 then RGB(p, v, t)
    else if k == 3 then RGB(p, q, v)
    else if k == 4 then RGB(t, p, v)
    else if k == 5 then RGB(v, p, q)
    else RGB(0, 0, 0)
  }

  /**
   * `hsv2rgb(h, s, v)`: the six-sector conversion, the sector taken with JavaScript's `%`.
   * With saturation and value in [0, 1], every hue (even a negative one) gives byte channels.
   */
  function Hsv2Rgb(h: real, s: real, v: real): (c: RGB)
    ensures 0.0 <= s <= 1.0 && 0.0 <= v <= 1.0 ==> IsByteRGB(c)
  {
    var h6 := h * 6.0;
    var i := h6.Floor;
    assert 0.0 <= s <= 1.0 && 0.0 <= v <= 1.0 ==> IsByteRGB(SectorColor(TruncRem(i, 6), h6 - i as real, s, v)) by {
      if 0.0 <= s <= 1.0 && 0.0 <= v <= 1.0 {
        SectorOfUnit(TruncRem(i, 6), h6 - i as real, s, v);
      }
    }
    SectorColor(TruncRem(i, 6), h6 - i as real, s, v)
  }

  /** The body of hsv2rgb once the sector k and the fraction f within it are known. */
  function SectorColor(k: int, f: real, s: real, v: real): RGB
  {
    var p := Round(v * (1.0 - s) * 255.0);
    var q := Round(v * (1.0 - f * s) * 255.0);
    var t := Round(v * (1.0 - (1.0 - f) * s) * 255.0);
    Sector(k, Round(v * 255.0), p, q, t)
  }

  // ---------------------------------------------------------------------------
  // Packed colours and their channels

  lemma DivDiv(a: nat, p: nat, q: nat)
    requires p > 0 && q > 0
    ensures a / p / q == a / (p * q)
    ensures a % (p * q) == (a / p % q) * p + a % p
  {
    var x, y := a / p, a % p;
    DivModIdentity(a, p);
    DivModIdentity(x, q);
    var z, w := x / q, x % q;
    assert a == z * (p * q) + (w * p + y) by {
      assert a == (z * q + w) * p + y;
      MulDistrib(z * q, w, p);
      MulAssoc(z, q, p);
    }
    assert w * p + y < p * q by {
      MulMono(w, q - 1, p);
      assert (q - 1) * p == p * q - p;
    }
    DivModUnique(a, p * q, z, w * p + y);
  }

  /** For a colour in 0..0xffffff the shifts and masks pick out its three bytes. */
  lemma ChannelsValues(c: int)
    requires 0 <= c <= 0xffffff
    ensures Channels(c) == RGB(c / 0x10000, c / 0x100 % 0x100, c % 0x100)
  {
    Pow2Values();
    AndLowMask(Shr(c, 8), 8);
    AndLowMask(c, 8);
    DivDiv(c, 0x100, 0x100);
  }

  /** `toString`'s channels are bytes, and they recombine to the colour. */
  lemma ChannelsOfColor(c: int)
    requires 0 <= c <= 0xffffff
    ensures IsByteRGB(Channels(c))
    ensures Channels(c).r * 0x10000 + Channels(c).g * 0x100 + Channels(c).b == c
  {
    ChannelsValues(c);
    DivDiv(c, 0x100, 0x100);
    DivModIdentity(c, 0x10000);
    DivModIdentity(c, 0x100);
    DivBelow(c, 0x10000, 0x100);
  }

  /** `(r << 16) | (g << 8) | b` adds the bytes in place when each channel is a byte. */
  lemma PackRGBBytes(c: RGB)
    requires IsByteRGB(c)
    ensures PackRGB(c) == c.r * 0x10000 + c.g * 0x100 + c.b
    ensures 0 <= PackRGB(c) <= 0xffffff
  {
    Pow2Values();
    var hi, mid := c.r * 0x10000, c.g * 0x100;
    ShlSmall(c.r, 16, hi);
    ShlSmall(c.g, 8, mid);
    OrDisjoint(c.r, mid, 16, hi);
    OrDisjoint(c.r * 0x100 + c.g, c.b, 8, hi + mid);
    PackThrough(c, hi, mid, hi + mid, hi + mid + c.b);
  }

  lemma PackThrough(c: RGB, hi: int, mid: int, hm: int, w: int)
    requires Shl(c.r, 16) == hi && Shl(c.g, 8) == mid
    requires Or(hi, mid) == hm && Or(hm, c.b) == w
    ensures PackRGB(c) == w
  {
  }

  /** Unpacking a packed colour gives back its channels. */
  lemma ChannelsOfPack(c: RGB)
    requires IsByteRGB(c)
    ensures Channels(PackRGB(c)) == c
  {
    PackRGBBytes(c);
    var n := PackRGB(c);
    ChannelsValues(n);
    PlaceValues(c.r, c.g, c.b, n);
  }

  /** The base-256 places of `r * 0x10000 + g * 0x100 + b` are r, g and b. */
  lemma PlaceValues(r: int, g: int, b: int, n: int)
    requires IsByte(r) && IsByte(g) && IsByte(b) && n == r * 0x10000 + g * 0x100 + b
    ensures n / 0x10000 == r && n / 0x100 % 0x100 == g && n % 0x100 == b
  {
    DivModUnique(n, 0x10000, r, g * 0x100 + b);
    DivModUnique(n, 0x100, r * 0x100 + g, b);
    DivModUnique(r * 0x100 + g, 0x100, r, g);
  }

  // ---------------------------------------------------------------------------
  // toNumber

  lemma {:induction false} DigitRunOf(d: string, t: string)
    requires AllDigits(d, 10) && (t == [] || !IsDigit(t[0], 10))
    ensures DigitRun(d + t) == |d|
  {
    if d != [] {
      assert (d + t)[1..] == d[1..] + t;
      DigitRunOf(d[1..], t);
    } else {
      assert d + t == t;
    }
  }

  lemma {:induction false} SeparatorRunOf(sep: string, t: string)
    requires NoDecimal(sep) && (t == [] || IsDigit(t[0], 10))
    ensures SeparatorRun(sep + t) == |sep|
  {
    if sep != [] {
      assert (sep + t)[1..] == sep[1..] + t;
      SeparatorRunOf(sep[1..], t);
    } else {
      assert sep + t == t;
    }
  }

  /** A digit group followed by a separator splits off as one piece. */
  lemma SplitHead(d: string, t: string)
    requires AllDigits(d, 10) && |t| > 0 && !IsDigit(t[0], 10)
    ensures SplitOnNonDigits(d + t) == [d] + SplitOnNonDigits(t[SeparatorRun(t)..])
  {
    DigitRunOf(d, t);
    assert (d + t)[..|d|] == d;
    assert (d + t)[|d|..] == t;
  }

  /** The separator between two digit groups is consumed whole. */
  lemma SplitStep(d: string, sep: string, t: string)
    requires AllDigits(d, 10) && |sep| > 0 && NoDecimal(sep) && (t == [] || IsDigit(t[0], 10))
    ensures SplitOnNonDigits(d + (sep + t)) == [d] + SplitOnNonDigits(t)
  {
    SplitHead(d, sep + t);
    SeparatorRunOf(sep, t);
    assert (sep + t)[|sep|..] == t;
  }

  /** A leading separator leaves an empty first piece. */
  lemma SplitLead(sep: string, t: string)
    requires |sep| > 0 && NoDecimal(sep) && (t == [] || IsDigit(t[0], 10))
    ensures SplitOnNonDigits(sep + t) == [""] + SplitOnNonDigits(t)
  {
    var s := sep + t;
    assert !IsDigit(s[0], 10);
    assert DigitRun(s) == 0;
    assert s[0..] == s;
    SeparatorRunOf(sep, t);
    assert s[|sep|..] == t;
  }

  lemma DecimalDigits(n: nat)
    ensures AllDigits(Digits(n, 10), 10) && |Digits(n, 10)| > 0
  {
    var s := Digits(n, 10);
    assert forall i :: 0 <= i < |s| ==> IsDigit(s[i], 10);
  }

  lemma SplitTwoGroups(gd: string, bd: string, tail: string)
    requires AllDigits(gd, 10) && AllDigits(bd, 10) && |bd| > 0
    requires |tail| > 0 && !IsDigit(tail[0], 10)
    ensures var parts := SplitOnNonDigits(gd + ("," + (bd + tail)));
      |parts| >= 2 && parts[0] == gd && parts[1] == bd
  {
    var t3 := bd + tail;
    var p2, p3 := SplitOnNonDigits(gd + ("," + t3)), SplitOnNonDigits(t3);
    assert IsDigit(t3[0], 10) by {
      assert t3[0] == bd[0];
    }
    assert p2 == [gd] + p3 by {
      SplitStep(gd, ",", t3);
    }
    var p4 := SplitOnNonDigits(tail[SeparatorRun(tail)..]);
    assert p3 == [bd] + p4 by {
      SplitHead(bd, tail);
    }
    PrependPiece(p3, bd, p4);
    PrependPiece(p2, gd, p3);
  }

  /** The pieces after a first piece keep their order, one place later. */
  lemma PrependPiece(parts: seq<string>, first: string, rest: seq<string>)
    requires parts == [first] + rest
    ensures |parts| == |rest| + 1 && parts[0] == first
    ensures forall i :: 0 <= i < |rest| ==> parts[i + 1] == rest[i]
  {
  }

  /** Three digit groups separated by commas split into three pieces. */
  lemma SplitGroups(rd: string, gd: string, bd: string, tail: string)
    requires AllDigits(rd, 10) && AllDigits(gd, 10) && AllDigits(bd, 10) && |gd| > 0 && |bd| > 0
    requires |tail| > 0 && !IsDigit(tail[0], 10)
    ensures var parts := SplitOnNonDigits(rd + ("," + (gd + ("," + (bd + tail)))));
      |parts| >= 3 && parts[0] == rd && parts[1] == gd && parts[2] == bd
  {
    var t2 := gd + ("," + (bd + tail));
    var p1, p2 := SplitOnNonDigits(rd + ("," + t2)), SplitOnNonDigits(t2);
    assert IsDigit(t2[0], 10) by {
      assert t2[0] == gd[0];
    }
    assert p1 == [rd] + p2 by {
      SplitStep(rd, ",", t2);
    }
    assert |p2| >= 2 && p2[0] == gd && p2[1] == bd by {
      SplitTwoGroups(gd, bd, tail);
    }
    PrependPiece(p1, rd, p2);
  }

  /**
   * The split of `rgb(R,G,B)` (and of `rgba(R,G,B,...)`) has the three digit groups at
   * positions 1..3, after the empty piece before `rgb(`.
   */
  lemma SplitFunctional(prefix: string, rd: string, gd: string, bd: string, tail: string)
    requires |prefix| > 0 && NoDecimal(prefix)
    requires AllDigits(rd, 10) && AllDigits(gd, 10) && AllDigits(bd, 10) && |rd| > 0 && |gd| > 0 && |bd| > 0
    requires |tail| > 0 && !IsDigit(tail[0], 10)
    ensures var parts := SplitOnNonDigits(Functional(prefix, rd, gd, bd, tail));
      |parts| >= 4 && parts[0] == "" && parts[1] == rd && parts[2] == gd && parts[3] == bd
  {
    var t1 := rd + ("," + (gd + ("," + (bd + tail))));
    var p0, p1 := SplitOnNonDigits(prefix + t1), SplitOnNonDigits(t1);
    assert IsDigit(t1[0], 10) by {
      assert t1[0] == rd[0];
    }
    assert p0 == [""] + p1 by {
      SplitLead(prefix, t1);
    }
    assert |p1| >= 3 && p1[0] == rd && p1[1] == gd && p1[2] == bd by {
      SplitGroups(rd, gd, bd, tail);
    }
    PrependPiece(p0, "", p1);
  }

  lemma WeightedChannels(r: int, g: int, b: int)
    ensures Weighted(Some(r), 0x10000, Some(g), 0x100, Some(b), 1) == Some(r * 0x10000 + g * 0x100 + b)
  {
  }

  /** Text that does not start with `#` is read through its split. */
  lemma ToNumberOfSplit(s: string)
    requires |s| > 0 && s[0] != '#'
    ensures var parts := SplitOnNonDigits(s);
      ToNumber(s) == Weighted(PartValue(parts, 1), 0x10000, PartValue(parts, 2), 0x100, PartValue(parts, 3), 1)
  {
  }

  /** `toNumber` of a functional form with three decimal channels. */
  lemma ToNumberFunctional(prefix: string, r: nat, g: nat, b: nat, tail: string, s: string)
    requires |prefix| > 0 && NoDecimal(prefix) && prefix[0] != '#'
    requires |tail| > 0 && !IsDigit(tail[0], 10)
    requires s == Functional(prefix, Digits(r, 10), Digits(g, 10), Digits(b, 10), tail)
    ensures ToNumber(s) == Some(r * 0x10000 + g * 0x100 + b)
  {
    var rd, gd, bd := Digits(r, 10), Digits(g, 10), Digits(b, 10);
    DecimalDigits(r);
    DecimalDigits(g);
    DecimalDigits(b);
    SplitFunctional(prefix, rd, gd, bd, tail);
    var parts := SplitOnNonDigits(s);
    ParseDigits(r, 10);
    ParseDigits(g, 10);
    ParseDigits(b, 10);
    assert PartValue(parts, 1) == Some(r);
    assert PartValue(parts, 2) == Some(g);
    assert PartValue(parts, 3) == Some(b);
    assert s[0] == prefix[0];
    ToNumberOfSplit(s);
    WeightedChannels(r, g, b);
  }

  lemma SingleDigit(ch: char)
    ensures IsDigit(ch, 16) ==> ParseInt([ch], 16) == Some(DigitValue(ch))
  {
    if IsDigit(ch, 16) {
      assert AllDigits([ch], 16);
      assert [ch][..0] == [];
      assert DigitsValue([ch], 16) == DigitsValue([], 16) * 16 + DigitValue(ch);
    }
  }

  /** `toNumber("#" + d1 + d2 + d3)` doubles each hex digit into a byte. */
  lemma ShortHex(d1: char, d2: char, d3: char)
    ensures var n := ToNumber(['#', d1, d2, d3]);
      n.Some? <==> IsDigit(d1, 16) && IsDigit(d2, 16) && IsDigit(d3, 16)
    ensures var n := ToNumber(['#', d1, d2, d3]);
      n.Some? ==>
        var v1, v2, v3 := DigitValue(d1), DigitValue(d2), DigitValue(d3);
        n.value == (v1 * 16 + v1) * 0x10000 + (v2 * 16 + v2) * 0x100 + (v3 * 16 + v3)
  {
    var c := ['#', d1, d2, d3];
    assert c[1..2] == [d1] && c[2..3] == [d2] && c[3..4] == [d3];
    SingleDigit(d1);
    SingleDigit(d2);
    SingleDigit(d3);
  }

  /** Any other text after `#` is read whole as one base-16 number. */
  lemma LongHex(digits: string)
    requires |digits| != 3
    ensures ToNumber("#" + digits) == ParseInt(digits, 16)
  {
    assert ("#" + digits)[1..] == digits;
  }

  /** `toNumber(toString(c)) == c` for every 24-bit colour. */
  lemma ToNumberOfToString(c: int)
    requires 0 <= c <= 0xffffff
    ensures ToNumber(ToString(c)) == Some(c)
  {
    var ch := Channels(c);
    ChannelsOfColor(c);
    ToStringText(c, ch);
    Delimiters();
    ToNumberFunctional("rgb(", ch.r, ch.g, ch.b, ")", ToString(c));
    assert ch.r * 0x10000 + ch.g * 0x100 + ch.b == c;
  }

  /** The openings `rgb(` and `rgba(` hold no decimal digit, and neither `,` nor `)` is one. */
  lemma Delimiters()
    ensures NoDecimal("rgb(") && "rgb("[0] != '#' && NoDecimal("rgba(") && "rgba("[0] != '#'
    ensures !IsDigit(',', 10) && !IsDigit(')', 10)
  {
  }

  /** For byte channels `toString` writes each channel's plain decimal digits. */
  lemma ToStringText(c: int, ch: RGB)
    requires ch == Channels(c) && IsByteRGB(ch)
    ensures ToString(c) == Functional("rgb(", Digits(ch.r, 10), Digits(ch.g, 10), Digits(ch.b, 10), ")")
  {
  }

  /** In `rgba(r,g,b,a)` whatever follows the third channel, the alpha included, is ignored. */
  lemma ToNumberIgnoresAlpha(c: RGB, alpha: string)
    requires IsByteRGB(c)
    ensures ToNumber(Functional("rgba(", Digits(c.r, 10), Digits(c.g, 10), Digits(c.b, 10), "," + alpha + ")"))
      == Some(c.r * 0x10000 + c.g * 0x100 + c.b)
  {
    Delimiters();
    ToNumberFunctional("rgba(", c.r, c.g, c.b, "," + alpha + ")", Functional("rgba(", Digits(c.r, 10), Digits(c.g, 10), Digits(c.b, 10), "," + alpha + ")"));
  }

  // ---------------------------------------------------------------------------
  // Laws of rgb2hsv and hsv2rgb

  lemma RatioBounds(x: real, d: real)
    requires d > 0.0 && -d <= x <= d
    ensures -1.0 <= x / d <= 1.0
    ensures x >= 0.0 ==> x / d >= 0.0
    ensures x > 0.0 ==> x / d > 0.0
    ensures x < 0.0 ==> x / d < 0.0
    ensures x < d ==> x / d < 1.0
    ensures x / d * d == x
  {
    assert x / d * d == x;
    UnitRatio(x / d, x, d);
  }

  /** The bounds of `RatioBounds`, stated for any q with `q * d == x`, so no division is involved. */
  lemma UnitRatio(q: real, x: real, d: real)
    requires d > 0.0 && q * d == x && -d <= x <= d
    ensures -1.0 <= q <= 1.0 && (x < d ==> q < 1.0)
    ensures (x >= 0.0 ==> q >= 0.0) && (x > 0.0 ==> q > 0.0) && (x < 0.0 ==> q < 0.0)
  {
    MulSign(q - 1.0, d);
    MulSign(q + 1.0, d);
    MulSign(q, d);
    assert (q - 1.0) * d == x - d;
    assert (q + 1.0) * d == x + d;
  }

  lemma MulSign(a: real, d: real)
    requires d > 0.0
    ensures a > 0.0 <==> a * d > 0.0
    ensures a < 0.0 <==> a * d < 0.0
  {
  }

  lemma UnitProduct(a: real, b: real)
    requires 0.0 <= a <= 1.0 && 0.0 <= b <= 1.0
    ensures 0.0 <= a * b <= 1.0
  {
    if b > 0.0 {
      MulSign(a, b);
      assert a * b >= 0.0;
      MulSign(1.0 - a, b);
      assert (1.0 - a) * b == b - a * b;
      assert a * b <= b;
    } else {
      assert a * b == a * 0.0 == 0.0;
    }
  }

  lemma RoundByte(x: real)
    requires 0.0 <= x <= 255.0
    ensures 0 <= Round(x) <= 255
  {
  }

  /** Black and every grey get hue and saturation 0, and value `x/255`. */
  lemma Rgb2HsvAchromatic(x: int)
    requires IsByte(x)
    ensures Rgb2Hsv(x, x, x) == HSV(0.0, 0.0, x as real / 255.0)
  {
  }

  lemma ScaledByte(a: real, b: real)
    requires 0.0 <= a <= 1.0 && 0.0 <= b <= 1.0
    ensures 0 <= Round(a * b * 255.0) <= 255
  {
    UnitProduct(a, b);
    RoundByte(a * b * 255.0);
  }

  lemma SectorOfUnit(k: int, f: real, s: real, v: real)
    requires 0.0 <= f <= 1.0 && 0.0 <= s <= 1.0 && 0.0 <= v <= 1.0
    ensures IsByteRGB(SectorColor(k, f, s, v))
  {
    CandidateBytes(f, s, v);
    SectorBytes(k, Round(v * 255.0), Round(v * (1.0 - s) * 255.0),
      Round(v * (1.0 - f * s) * 255.0), Round(v * (1.0 - (1.0 - f) * s) * 255.0));
  }

  /** The four rounded candidates hsv2rgb picks from are bytes. */
  lemma CandidateBytes(f: real, s: real, v: real)
    requires 0.0 <= f <= 1.0 && 0.0 <= s <= 1.0 && 0.0 <= v <= 1.0
    ensures IsByte(Round(v * 255.0)) && IsByte(Round(v * (1.0 - s) * 255.0))
    ensures IsByte(Round(v * (1.0 - f * s) * 255.0))
    ensures IsByte(Round(v * (1.0 - (1.0 - f) * s) * 255.0))
  {
    RoundByte(v * 255.0);
    ScaledByte(v, 1.0 - s);
    FadedByte(v, f, s);
    FadedByte(v, 1.0 - f, s);
  }

  /** `v * (1 - f * s)` scaled to 255 and rounded is a byte. */
  lemma FadedByte(v: real, f: real, s: real)
    requires 0.0 <= f <= 1.0 && 0.0 <= s <= 1.0 && 0.0 <= v <= 1.0
    ensures IsByte(Round(v * (1.0 - f * s) * 255.0))
  {
    UnitProduct(f, s);
    ScaledByte(v, 1.0 - f * s);
  }

  lemma SectorBytes(k: int, v: int, p: int, q: int, t: int)
    requires IsByte(v) && IsByte(p) && IsByte(q) && IsByte(t)
    ensures IsByteRGB(Sector(k, v, p, q, t))
  {
  }

  /** Hue is periodic with period 1 for non-negative hues: the sector is taken modulo 6. */
  lemma Hsv2RgbPeriodic(h: real, s: real, v: real)
    requires h >= 0.0
    ensures Hsv2Rgb(h + 1.0, s, v) == Hsv2Rgb(h, s, v)
  {
    var i := (h * 6.0).Floor;
    assert (h + 1.0) * 6.0 == h * 6.0 + 6.0;
    assert ((h + 1.0) * 6.0).Floor == i + 6;
    DivModUnique(i + 6, 6, i / 6 + 1, i % 6);
  }

  /** Hue 0 and hue 1 at full saturation and value are both pure red. */
  lemma Hsv2RgbRed()
    ensures Hsv2Rgb(1.0, 1.0, 1.0) == RGB(255, 0, 0)
    ensures Hsv2Rgb(0.0, 1.0, 1.0) == RGB(255, 0, 0)
  {
    Hsv2RgbPeriodic(0.0, 1.0, 1.0);
  }

  /**
   * A negative hue whose sector is not a multiple of 6 has a negative truncated
   * remainder, matches no case of the switch and gives black.
   */
  lemma Hsv2RgbNegativeSector(h: real, s: real, v: real)
    requires h < 0.0 && (h * 6.0).Floor % 6 != 0
    ensures Hsv2Rgb(h, s, v) == RGB(0, 0, 0)
  {
    var i := (h * 6.0).Floor;
    var k := TruncRem(i, 6);
    assert k != 0 by {
      if k == 0 {
        DivModIdentity(-i, 6);
        DivModUnique(i, 6, -((-i) / 6), 0);
      }
    }
  }

  // ---------------------------------------------------------------------------
  // hsv2rgb undoes rgb2hsv

  /** Scaling the value back by 255 cancels the division by the largest channel. */
  lemma ScaleValue(mx: real, delta: real, x: real)
    requires mx > 0.0
    ensures mx / 255.0 * (1.0 - x * (delta / mx)) * 255.0 == mx - x * delta
  {
    var s := delta / mx;
    var w := mx / 255.0;
    assert s * mx == delta;
    assert w * 255.0 == mx;
    calc {
      w * (1.0 - x * s) * 255.0;
      (w * 255.0) * (1.0 - x * s);
      mx * (1.0 - x * s);
      mx - x * (s * mx);
    }
  }

  lemma RoundScaled(m: real, d: real, x: real)
    requires m > 0.0
    ensures Round(m / 255.0 * (1.0 - x * (d / m)) * 255.0) == Round(m - x * d)
  {
    ScaleValue(m, d, x);
  }

  /** Full value and zero saturation loss give back the largest and the smallest channel. */
  lemma RoundScaledEnds(mx: int, mn: int)
    requires mx > 0
    ensures var m, d := mx as real, (mx - mn) as real;
      Round(m / 255.0 * 255.0) == mx && Round(m / 255.0 * (1.0 - d / m) * 255.0) == mn
  {
    var m, d := mx as real, (mx - mn) as real;
    ScaleValue(m, d, 1.0);
    assert 1.0 * (d / m) == d / m;
    RoundOfInt(mn);
    RoundOfInt(mx);
  }

  lemma RoundOfInt(n: int)
    ensures Round(n as real) == n
  {
  }

  /** SectorColor from the four rounded candidates. */
  lemma SectorColorOf(k: int, f: real, s: real, v: real, a: int, p: int, q: int, t: int)
    requires Round(v * 255.0) == a && Round(v * (1.0 - s) * 255.0) == p
    requires Round(v * (1.0 - f * s) * 255.0) == q && Round(v * (1.0 - (1.0 - f) * s) * 255.0) == t
    ensures SectorColor(k, f, s, v) == Sector(k, a, p, q, t)
  {
  }

  /** The saturation rgb2hsv gives a spread mn..mx. */
  function Saturation(mx: int, mn: int): real
    requires mx > 0
  {
    (mx - mn) as real / mx as real
  }

  /** The value rgb2hsv gives a largest channel mx. */
  function Value(mx: int): real
  {
    mx as real / 255.0
  }

  lemma SpreadSector(k: int, f: real, mx: int, mn: int, e: int)
    requires mn < mx && mx > 0
    requires f * (mx - mn) as real == e as real
    ensures SectorColor(k, f, Saturation(mx, mn), Value(mx)) == Sector(k, mx, mn, mx - e, mn + e)
  {
    SpreadRounds(mx, mn, f, e);
    SectorColorOf(k, f, Saturation(mx, mn), Value(mx), mx, mn, mx - e, mn + e);
  }

  /**
   * With the saturation and value rgb2hsv produces for a spread mn..mx, the four
   * rounded candidates of hsv2rgb are the largest channel, the smallest one, and,
   * when f times the spread is a whole number e, the largest less e and the smallest plus e.
   */
  lemma SpreadRounds(mx: int, mn: int, f: real, e: int)
    requires mn < mx && mx > 0
    requires f * (mx - mn) as real == e as real
    ensures Round(Value(mx) * 255.0) == mx
    ensures Round(Value(mx) * (1.0 - Saturation(mx, mn)) * 255.0) == mn
    ensures Round(Value(mx) * (1.0 - f * Saturation(mx, mn)) * 255.0) == mx - e
    ensures Round(Value(mx) * (1.0 - (1.0 - f) * Saturation(mx, mn)) * 255.0) == mn + e
  {
    var m, d := mx as real, (mx - mn) as real;
    RoundScaledEnds(mx, mn);
    assert Round(m / 255.0 * (1.0 - f * (d / m)) * 255.0) == mx - e by {
      RoundScaled(m, d, f);
      RoundOfInt(mx - e);
    }
    assert Round(m / 255.0 * (1.0 - (1.0 - f) * (d / m)) * 255.0) == mn + e by {
      RoundScaled(m, d, 1.0 - f);
      assert (1.0 - f) * d == d - f * d;
      RoundOfInt(mn + e);
    }
  }

  /** A hue whose sixfold is k + f, with k a sector and f in [0, 1), selects sector k with fraction f. */
  lemma Hsv2RgbInSector(hue: real, k: int, f: real, s: real, v: real)
    requires 0 <= k < 6 && 0.0 <= f < 1.0 && hue * 6.0 == k as real + f
    ensures Hsv2Rgb(hue, s, v) == SectorColor(k, f, s, v)
  {
    assert (hue * 6.0).Floor == k;
    DivModUnique(k, 6, 0, k);
  }

  /** The round trip, once rgb2hsv's hue is placed in sector k with fraction f and f times the spread is e. */
  lemma RoundTripVia(c: HSV, want: RGB, mx: int, mn: int, k: int, f: real, e: int)
    requires mn < mx && mx > 0
    requires c == HSV(c.h, (mx - mn) as real / mx as real, mx as real / 255.0)
    requires 0 <= k < 6 && 0.0 <= f < 1.0 && c.h * 6.0 == k as real + f
    requires f * (mx - mn) as real == e as real
    requires Sector(k, mx, mn, mx - e, mn + e) == want
    ensures Hsv2Rgb(c.h, c.s, c.v) == want
  {
    Hsv2RgbInSector(c.h, k, f, Saturation(mx, mn), Value(mx));
    SpreadSector(k, f, mx, mn, e);
  }


  /** rgb2hsv when red is a largest channel: the hue is (g - b) / spread, wrapped into [0, 1). */
  lemma Rgb2HsvRed(r: int, g: int, b: int)
    requires IsByteRGB(RGB(r, g, b)) && Min3(r, g, b) < r && r == Max3(r, g, b)
    ensures var d := (r - Min3(r, g, b)) as real; var x := (g - b) as real / d;
      && -1.0 <= x <= 1.0 && x * d == (g - b) as real
      && Rgb2Hsv(r, g, b) == HSV(if x < 0.0 then x / 6.0 + 1.0 else x / 6.0, d / r as real, r as real / 255.0)
  {
    var d := (r - Min3(r, g, b)) as real;
    RatioBounds(d, r as real);
    RatioBounds((g - b) as real, d);
  }

  /** rgb2hsv when green is a largest channel and red is not: the hue is (2 + (b - r) / spread) / 6. */
  lemma Rgb2HsvGreen(r: int, g: int, b: int)
    requires IsByteRGB(RGB(r, g, b)) && Min3(r, g, b) < g && g == Max3(r, g, b) && r != g
    ensures var d := (g - Min3(r, g, b)) as real; var x := (b - r) as real / d;
      && -1.0 <= x <= 1.0 && x * d == (b - r) as real
      && Rgb2Hsv(r, g, b) == HSV((2.0 + x) / 6.0, d / g as real, g as real / 255.0)
  {
    var d := (g - Min3(r, g, b)) as real;
    RatioBounds(d, g as real);
    RatioBounds((b - r) as real, d);
  }

  /** rgb2hsv when blue is the only largest channel: the hue is (4 + (r - g) / spread) / 6. */
  lemma Rgb2HsvBlue(r: int, g: int, b: int)
    requires IsByteRGB(RGB(r, g, b)) && Min3(r, g, b) < b && b == Max3(r, g, b) && r != b && g != b
    ensures var d := (b - Min3(r, g, b)) as real; var x := (r - g) as real / d;
      && -1.0 <= x <= 1.0 && x * d == (r - g) as real
      && Rgb2Hsv(r, g, b) == HSV((4.0 + x) / 6.0, d / b as real, b as real / 255.0)
  {
    var d := (b - Min3(r, g, b)) as real;
    RatioBounds(d, b as real);
    RatioBounds((r - g) as real, d);
  }

  /** What the ratio x = n / d tells about n, for a positive d. */
  lemma RatioFacts(x: real, d: real, n: real)
    requires d > 0.0 && x * d == n
    ensures n == d ==> x == 1.0
    ensures n < d ==> x < 1.0
    ensures n >= 0.0 ==> x >= 0.0
    ensures n < 0.0 ==> x < 0.0
    ensures (x + 1.0) * d == n + d
  {
    MulSign(x - 1.0, d);
    assert (x - 1.0) * d == n - d;
    MulSign(x, d);
  }

  /** The round trip when red is a largest channel (rgb2hsv tests red first). */
  lemma RoundTripRed(r: int, g: int, b: int)
    requires IsByteRGB(RGB(r, g, b)) && Min3(r, g, b) < r && r == Max3(r, g, b)
    ensures var c := Rgb2Hsv(r, g, b); Hsv2Rgb(c.h, c.s, c.v) == RGB(r, g, b)
  {
    var d := (r - Min3(r, g, b)) as real;
    Rgb2HsvRed(r, g, b);
    RoundTripRedHue(r, g, b, Rgb2Hsv(r, g, b), (g - b) as real / d);
  }

  lemma RoundTripRedHue(r: int, g: int, b: int, c: HSV, x: real)
    requires IsByteRGB(RGB(r, g, b)) && Min3(r, g, b) < r && r == Max3(r, g, b)
    requires var d := (r - Min3(r, g, b)) as real;
      && -1.0 <= x <= 1.0 && x * d == (g - b) as real
      && c == HSV(if x < 0.0 then x / 6.0 + 1.0 else x / 6.0, d / r as real, r as real / 255.0)
    ensures Hsv2Rgb(c.h, c.s, c.v) == RGB(r, g, b)
  {
    var mn := Min3(r, g, b);
    var d := (r - mn) as real;
    RatioFacts(x, d, (g - b) as real);
    if g - b == r - mn {
      RoundTripVia(c, RGB(r, g, b), r, mn, 1, 0.0, 0);
    } else if g >= b {
      RoundTripVia(c, RGB(r, g, b), r, mn, 0, x, g - b);
    } else {
      RoundTripVia(c, RGB(r, g, b), r, mn, 5, x + 1.0, g - b + r - mn);
    }
  }

  /** The round trip when green is a largest channel and red is not. */
  lemma RoundTripGreen(r: int, g: int, b: int)
    requires IsByteRGB(RGB(r, g, b)) && Min3(r, g, b) < g && g == Max3(r, g, b) && r != g
    ensures var c := Rgb2Hsv(r, g, b); Hsv2Rgb(c.h, c.s, c.v) == RGB(r, g, b)
  {
    var d := (g - Min3(r, g, b)) as real;
    Rgb2HsvGreen(r, g, b);
    RoundTripGreenHue(r, g, b, Rgb2Hsv(r, g, b), (b - r) as real / d);
  }

  lemma RoundTripGreenHue(r: int, g: int, b: int, c: HSV, x: real)
    requires IsByteRGB(RGB(r, g, b)) && Min3(r, g, b) < g && g == Max3(r, g, b) && r != g
    requires var d := (g - Min3(r, g, b)) as real;
      && -1.0 <= x <= 1.0 && x * d == (b - r) as real
      && c == HSV((2.0 + x) / 6.0, d / g as real, g as real / 255.0)
    ensures Hsv2Rgb(c.h, c.s, c.v) == RGB(r, g, b)
  {
    var mn := Min3(r, g, b);
    var d := (g - mn) as real;
    RatioFacts(x, d, (b - r) as real);
    if b - r == g - mn {
      RoundTripVia(c, RGB(r, g, b), g, mn, 3, 0.0, 0);
    } else if b >= r {
      RoundTripVia(c, RGB(r, g, b), g, mn, 2, x, b - r);
    } else {
      RoundTripVia(c, RGB(r, g, b), g, mn, 1, x + 1.0, b - r + g - mn);
    }
  }

  /** The round trip when blue is the only largest channel. */
  lemma RoundTripBlue(r: int, g: int, b: int)
    requires IsByteRGB(RGB(r, g, b)) && Min3(r, g, b) < b && b == Max3(r, g, b) && r != b && g != b
    ensures var c := Rgb2Hsv(r, g, b); Hsv2Rgb(c.h, c.s, c.v) == RGB(r, g, b)
  {
    var d := (b - Min3(r, g, b)) as real;
    Rgb2HsvBlue(r, g, b);
    RoundTripBlueHue(r, g, b, Rgb2Hsv(r, g, b), (r - g) as real / d);
  }

  lemma RoundTripBlueHue(r: int, g: int, b: int, c: HSV, x: real)
    requires IsByteRGB(RGB(r, g, b)) && Min3(r, g, b) < b && b == Max3(r, g, b) && r != b && g != b
    requires var d := (b - Min3(r, g, b)) as real;
      && -1.0 <= x <= 1.0 && x * d == (r - g) as real
      && c == HSV((4.0 + x) / 6.0, d / b as real, b as real / 255.0)
    ensures Hsv2Rgb(c.h, c.s, c.v) == RGB(r, g, b)
  {
    var mn := Min3(r, g, b);
    var d := (b - mn) as real;
    RatioFacts(x, d, (r - g) as real);
    if r >= g {
      RoundTripVia(c, RGB(r, g, b), b, mn, 4, x, r - g);
    } else {
      RoundTripVia(c, RGB(r, g, b), b, mn, 3, x + 1.0, r - g + b - mn);
    }
  }

  /** Over exact arithmetic, hsv2rgb recovers every byte colour from its rgb2hsv. */
  lemma Hsv2RgbOfRgb2Hsv(r: int, g: int, b: int)
    requires IsByteRGB(RGB(r, g, b))
    ensures var c := Rgb2Hsv(r, g, b); Hsv2Rgb(c.h, c.s, c.v) == RGB(r, g, b)
  {
    var mn, mx := Min3(r, g, b), Max3(r, g, b);
    if mn == mx {
      var v := mx as real / 255.0;
      assert Rgb2Hsv(r, g, b) == HSV(0.0, 0.0, v);
      Hsv2RgbInSector(0.0, 0, 0.0, 0.0, v);
      assert v * 255.0 == mx as real;
      RoundOfInt(mx);
    } else if r == mx {
      RoundTripRed(r, g, b);
    } else if g == mx {
      RoundTripGreen(r, g, b);
    } else {
      RoundTripBlue(r, g, b);
    }
  }
}
