/**
 * The picker window: a hex field, three decimal channel fields, a swatch and
 * the colour wheel, kept in step by one `update` whose bit flags say which
 * parts not to rewrite.
 */
module Picker {
  import opened Wrappers
  import opened JsNumber
  import opened JsText
  import opened ColorMath
  import Wheel

  /** Size in pixels of the colour wheel. */
  const WheelSize: nat := 200
  /** Thickness of the colour ring. */
  const WheelThickness: int := 10
  /** Gap between the ring and the SV square. */
  const WheelGap: int := 2

  /** The parts of the window an `update` leaves alone. */
  datatype Ignore = None | Hex | Red | Green | Blue | HSV
  {
    function Bit(): int
    {
      match this
      case None => 0x00
      case Hex => 0x01
      case Red => 0x02
      case Green => 0x04
      case Blue => 0x08
      case HSV => 0x10
    }
  }

  /**
   * `!(ignore & flag)`: whether `update` rewrites the part `flag` guards. A flag
   * refreshes every part but its own, and `Ignore.None` refreshes all of them, so a
   * keyup never rewrites its own field and a wheel drag never resets the wheel.
   */
  function Refreshes(ignore: Ignore, flag: Ignore): (b: bool)
    ensures flag != Ignore.None ==> (b <==> ignore != flag)
  {
    assert flag != Ignore.None ==> (And(ignore.Bit(), flag.Bit()) == 0 <==> ignore != flag) by {
      if flag != Ignore.None {
        FlagIsPow2(flag);
        if ignore == Ignore.None {
          BitAndZero(flag.Bit());
        } else {
          FlagIsPow2(ignore);
          BitAndPow2(FlagPosition(ignore), FlagPosition(flag));
        }
      }
    }
    And(ignore.Bit(), flag.Bit()) == 0
  }

  /** The number a bitwise operator sees: NaN becomes 0. */
  function BitOperand(n: Option<int>): int
  {
    if n.Some? then n.value else 0
  }

  /** `hex` in `update`: lower-case base 16, left-padded with '0' to at least six characters. */
  function PadHex(s: string): (t: string)
    ensures |t| == if |s| < 6 then 6 else |s|
  {
    if |s| < 6 then Zeros(6 - |s|) + s else s
  }

  /** The text `update` writes into the hex field: for a 24-bit colour, exactly six hex digits that denote it. */
  function HexText(c: int): (t: string)
    ensures |t| >= 6
    ensures 0 <= c <= 0xffffff ==> |t| == 6 && AllDigits(t, 16) && ParseInt(t, 16) == Some(c)
  {
    var t := PadHex(NumberToString(c, 16));
    assert 0 <= c <= 0xffffff ==> |t| == 6 && AllDigits(t, 16) && ParseInt(t, 16) == Some(c) by {
      if 0 <= c <= 0xffffff {
        var s := Digits(c, 16);
        Pow16Six();
        DigitsLength(c, 16, 6);
        LeadingZeros(6 - |s|, s, 16);
        DigitsValueOfDigits(c, 16);
      }
    }
    t
  }

  /** The padding loop in `update` stops at `PadHex` of the digits. */
  lemma PaddedLoop(hex: string, digits: string)
    requires |digits| <= |hex| <= if |digits| < 6 then 6 else |digits|
    requires hex == Zeros(|hex| - |digits|) + digits && |hex| >= 6
    ensures hex == PadHex(digits)
  {
    if |digits| >= 6 {
      assert Zeros(0) + digits == digits;
    }
  }

  /** The hex field's keyup colour: `parseInt(text, 16) & 0xffffff`. */
  function HexEntry(text: string): (c: int)
    ensures 0 <= c <= 0xffffff
    ensures c == BitOperand(ParseInt(text, 16)) % 0x100_0000
  {
    Pow2Values();
    AndLowMask(BitOperand(ParseInt(text, 16)), 24);
    And(BitOperand(ParseInt(text, 16)), 0xffffff)
  }

  /** The red field's keyup colour: `((parseInt(text, 10) & 0xff) << 16) | (color & 0xffff)`. */
  function RedEntry(text: string, color: int): (c: int)
    ensures 0 <= c <= 0xffffff
    ensures c == BitOperand(ParseInt(text, 10)) % 0x100 * 0x1_0000 + color % 0x1_0000
  {
    var n := BitOperand(ParseInt(text, 10));
    RedSplice(n, color);
    Or(Shl(And(n, 0xff), 16), And(color, 0xffff))
  }

  /** The green field's keyup colour: `((parseInt(text, 10) & 0xff) << 8) | (color & 0xff00ff)`. */
  function GreenEntry(text: string, color: int): (c: int)
    ensures 0 <= c <= 0xffffff
    ensures c == color % 0x100_0000 - color % 0x1_0000 + BitOperand(ParseInt(text, 10)) % 0x100 * 0x100 + color % 0x100
  {
    var n := BitOperand(ParseInt(text, 10));
    GreenSplice(n, color);
    Or(Shl(And(n, 0xff), 8), And(color, 0xff00ff))
  }

  /** The blue field's keyup colour: `(parseInt(text, 10) & 0xff) | (color & 0xffff00)`. */
  function BlueEntry(text: string, color: int): (c: int)
    ensures 0 <= c <= 0xffffff
    ensures c == color % 0x100_0000 - color % 0x100 + BitOperand(ParseInt(text, 10)) % 0x100
  {
    var n := BitOperand(ParseInt(text, 10));
    BlueSplice(n, color);
    Or(And(n, 0xff), And(color, 0xffff00))
  }

  // ---------------------------------------------------------------------------
  // Bit-level facts behind the keyup formulas

  lemma {:induction false} BitOrComm(a: nat, b: nat)
    ensures BitOr(a, b) == BitOr(b, a)
    decreases a + b
  {
    if a != 0 && b != 0 {
      BitOrComm(a / 2, b / 2);
    }
  }

  lemma OrComm(x: int, y: int)
    ensures Or(x, y) == Or(y, x)
  {
    BitOrComm(ToUint32(x), ToUint32(y));
  }

  /** `x & 0xff00ff` clears bits 8..15 and everything from bit 24 up. */
  lemma AndClearMiddle(x: int)
    ensures And(x, 0xff00ff) == x % 0x100_0000 - x % 0x1_0000 + x % 0x100
  {
    Pow2Values();
    var u := ToUint32(x);
    var m := 0xff00ff;
    BitAndSplit(u, m, 16);
    assert Hi(m, 16) == 0xff && Lo(m, 16) == 0xff;
    BitAndLowMask(Hi(u, 16), 8);
    BitAndLowMask(Lo(u, 16), 8);
    DivDiv(u, 0x1_0000, 0x100);
    ModModFactor(u, 0x100, 0x100);
    ModPow2Uint32(x, 24);
    ModPow2Uint32(x, 16);
    ModPow2Uint32(x, 8);
  }

  /** `x & 0xffff00` clears bits 0..7 and everything from bit 24 up. */
  lemma AndClearLow(x: int)
    ensures And(x, 0xffff00) == x % 0x100_0000 - x % 0x100
  {
    Pow2Values();
    var u := ToUint32(x);
    var m := 0xffff00;
    BitAndSplit(u, m, 8);
    assert Hi(m, 8) == 0xffff && Lo(m, 8) == 0;
    BitAndLowMask(Hi(u, 8), 16);
    BitAndZero(Lo(u, 8));
    DivDiv(u, 0x100, 0x1_0000);
    ModPow2Uint32(x, 24);
    ModPow2Uint32(x, 8);
  }

  lemma RedSplice(n: int, color: int)
    ensures var c := Or(Shl(And(n, 0xff), 16), And(color, 0xffff));
      0 <= c <= 0xffffff && c == n % 0x100 * 0x1_0000 + color % 0x1_0000
  {
    Pow2Values();
    AndLowMask(n, 8);
    AndLowMask(color, 16);
    var r := n % 0x100;
    ShlSmall(r, 16, r * 0x1_0000);
    OrDisjoint(r, color % 0x1_0000, 16, r * 0x1_0000);
  }

  lemma GreenSplice(n: int, color: int)
    ensures var c := Or(Shl(And(n, 0xff), 8), And(color, 0xff00ff));
      0 <= c <= 0xffffff && c == color % 0x100_0000 - color % 0x1_0000 + n % 0x100 * 0x100 + color % 0x100
  {
    var g := n % 0x100;
    assert Shl(And(n, 0xff), 8) == g * 0x100 by {
      Pow2Values();
      AndLowMask(n, 8);
      ShlSmall(g, 8, g * 0x100);
    }
    ClearMiddleByte(color);
    SpliceMiddle(g, color % 0x100_0000 / 0x1_0000, color % 0x100);
  }

  /** `x & 0xff00ff` keeps bits 16..23 and 0..7 of x in place. */
  lemma ClearMiddleByte(x: int)
    ensures var hi := x % 0x100_0000 / 0x1_0000;
      && 0 <= hi < 0x100 && And(x, 0xff00ff) == hi * 0x1_0000 + x % 0x100
      && hi * 0x1_0000 == x % 0x100_0000 - x % 0x1_0000
  {
    AndClearMiddle(x);
    DivDiv(x % 0x100_0000, 0x1_0000, 0x100);
    ModModFactor(x, 0x1_0000, 0x100);
    DivModIdentity(x % 0x100_0000, 0x1_0000);
  }

  /** Or-ing a byte shifted to bits 8..15 into `hi * 2^16 + lo` with a byte lo. */
  lemma SpliceMiddle(g: nat, hi: nat, lo: nat)
    requires g < 0x100 && hi < 0x100 && lo < 0x100
    ensures Or(g * 0x100, hi * 0x1_0000 + lo) == hi * 0x1_0000 + g * 0x100 + lo
  {
    Pow2Values();
    var x, y := g * 0x100, hi * 0x1_0000 + lo;
    BitOrSplit(x, y, 16);
    DivModUnique(x, 0x1_0000, 0, x);
    DivModUnique(y, 0x1_0000, hi, lo);
    BitOrZero(hi);
    BitOrDisjoint(g, lo, 8);
  }

  lemma BlueSplice(n: int, color: int)
    ensures var c := Or(And(n, 0xff), And(color, 0xffff00));
      0 <= c <= 0xffffff && c == color % 0x100_0000 - color % 0x100 + n % 0x100
  {
    var h := color % 0x100_0000 / 0x100;
    assert 0 <= And(n, 0xff) < 0x100 && And(n, 0xff) == n % 0x100 by {
      Pow2Values();
      AndLowMask(n, 8);
    }
    ClearLowByte(color);
    SpliceLow(h, And(n, 0xff));
  }

  /** `x & 0xffff00` keeps bits 8..23 of x, shifted in place. */
  lemma ClearLowByte(x: int)
    ensures var h := x % 0x100_0000 / 0x100;
      0 <= h < 0x1_0000 && And(x, 0xffff00) == h * 0x100 == x % 0x100_0000 - x % 0x100
  {
    AndClearLow(x);
    ModModFactor(x, 0x100, 0x1_0000);
    DivModIdentity(x % 0x100_0000, 0x100);
  }

  /** Or-ing a byte into `h * 2^8` with h below 2^16. */
  lemma SpliceLow(h: int, lo: int)
    requires 0 <= h < 0x1_0000 && 0 <= lo < 0x100
    ensures Or(lo, h * 0x100) == h * 0x100 + lo
  {
    Pow2Values();
    OrComm(lo, h * 0x100);
    OrDisjoint(h, lo, 8, h * 0x100);
  }

  // ---------------------------------------------------------------------------
  // Properties of the flags and the field texts

  /** The position of a flag's single bit. */
  function FlagPosition(f: Ignore): nat
    requires f != Ignore.None
  {
    match f
    case Hex => 0
    case Red => 1
    case Green => 2
    case Blue => 3
    case HSV => 4
  }

  lemma FlagIsPow2(f: Ignore)
    requires f != Ignore.None
    ensures f.Bit() == Pow2(FlagPosition(f)) <= 0x10
  {
    assert Pow2(4) == 0x10;
  }

  /** Two single-bit masks overlap exactly when they are the same bit. */
  lemma {:induction false} BitAndPow2(i: nat, j: nat)
    ensures BitAnd(Pow2(i), Pow2(j)) == if i == j then Pow2(i) else 0
  {
    BitAndStep(Pow2(i), Pow2(j));
    if i == 0 && j == 0 {
      BitAndZero(0);
    } else if i == 0 {
      assert Pow2(j) % 2 == 0 && Pow2(i) / 2 == 0;
      BitAndZero(Pow2(j) / 2);
    } else if j == 0 {
      assert Pow2(i) % 2 == 0 && Pow2(j) / 2 == 0;
      BitAndZero(Pow2(i) / 2);
    } else {
      assert Pow2(i) / 2 == Pow2(i - 1) && Pow2(i) % 2 == 0;
      assert Pow2(j) / 2 == Pow2(j - 1) && Pow2(j) % 2 == 0;
      BitAndPow2(i - 1, j - 1);
    }
  }

  /** `Pow(16, 6)` is the first colour beyond 24 bits. */
  lemma Pow16Six()
    ensures Pow(16, 6) == 0x100_0000
  {
  }

  /** The swatch's `"#" + hex` is a CSS colour that `toNumber` reads back as the colour. */
  lemma SwatchColour(c: int)
    requires 0 <= c <= 0xffffff
    ensures ToNumber("#" + HexText(c)) == Some(c)
  {
    LongHex(HexText(c));
  }

  /** Releasing a key in the hex field as `update` left it reproduces the colour. */
  lemma HexFieldRoundTrip(c: int)
    requires 0 <= c <= 0xffffff
    ensures HexEntry(HexText(c)) == c
  {
    assert ParseInt(HexText(c), 16) == Some(c) by {
    }
    DivModUnique(c, 0x100_0000, 0, c);
  }

  /** A 24-bit colour is its three bytes in place, and its low parts are its low bytes. */
  lemma ColorParts(c: int)
    requires 0 <= c <= 0xffffff
    ensures var ch := Channels(c);
      && IsByteRGB(ch) && c == ch.r * 0x1_0000 + ch.g * 0x100 + ch.b
      && c % 0x100_0000 == c && c % 0x1_0000 == ch.g * 0x100 + ch.b && c % 0x100 == ch.b
  {
    var ch := Channels(c);
    assert IsByteRGB(ch) && c == ch.r * 0x1_0000 + ch.g * 0x100 + ch.b by {
      ChannelsOfColor(c);
    }
    assert c % 0x1_0000 == ch.g * 0x100 + ch.b by {
      DivModUnique(c, 0x1_0000, ch.r, ch.g * 0x100 + ch.b);
    }
    assert c % 0x100 == ch.b by {
      DivModUnique(c, 0x100, ch.r * 0x100 + ch.g, ch.b);
    }
    DivModUnique(c, 0x100_0000, 0, c);
  }

  /** The byte a channel keyup writes: the typed number modulo 256, or 0 for text that is not a number. */
  function TypedByte(text: string): (n: int)
    ensures 0 <= n < 0x100
  {
    BitOperand(ParseInt(text, 10)) % 0x100
  }

  /** A red keyup replaces the red byte of a 24-bit colour and keeps green and blue. */
  lemma RedSplicesByte(text: string, c: int)
    requires 0 <= c <= 0xffffff
    ensures Channels(RedEntry(text, c)) == Channels(c).(r := TypedByte(text))
  {
    var ch, n, e := Channels(c), TypedByte(text), RedEntry(text, c);
    ColorParts(c);
    assert e == n * 0x1_0000 + ch.g * 0x100 + ch.b;
    ChannelsValues(e);
    PlaceValues(n, ch.g, ch.b, e);
  }

  /** A green keyup replaces the green byte of a 24-bit colour and keeps red and blue. */
  lemma GreenSplicesByte(text: string, c: int)
    requires 0 <= c <= 0xffffff
    ensures Channels(GreenEntry(text, c)) == Channels(c).(g := TypedByte(text))
  {
    var ch, n, e := Channels(c), TypedByte(text), GreenEntry(text, c);
    ColorParts(c);
    assert e == ch.r * 0x1_0000 + n * 0x100 + ch.b;
    ChannelsValues(e);
    PlaceValues(ch.r, n, ch.b, e);
  }

  /** A blue keyup replaces the blue byte of a 24-bit colour and keeps red and green. */
  lemma BlueSplicesByte(text: string, c: int)
    requires 0 <= c <= 0xffffff
    ensures Channels(BlueEntry(text, c)) == Channels(c).(b := TypedByte(text))
  {
    var ch, n, e := Channels(c), TypedByte(text), BlueEntry(text, c);
    ColorParts(c);
    assert e == ch.r * 0x1_0000 + ch.g * 0x100 + n;
    ChannelsValues(e);
    PlaceValues(ch.r, ch.g, n, e);
  }

  /** Both 24-bit colours with the same bytes are the same colour. */
  lemma SameChannels(c: int, e: int)
    requires 0 <= c <= 0xffffff && 0 <= e <= 0xffffff
    requires Channels(c) == Channels(e)
    ensures c == e
  {
    ChannelsOfColor(c);
    ChannelsOfColor(e);
  }

  /** The decimal text `update` writes into a channel field is that channel's byte when typed back. */
  lemma TypedChannel(x: int)
    requires 0 <= x < 0x100
    ensures TypedByte(NumberToString(x, 10)) == x
  {
    ParseDigits(x, 10);
  }

  /** Releasing a key in the red field as `update` left it reproduces the colour. */
  lemma RedFieldRoundTrip(c: int)
    requires 0 <= c <= 0xffffff
    ensures RedEntry(NumberToString(Channels(c).r, 10), c) == c
  {
    var t := NumberToString(Channels(c).r, 10);
    ColorParts(c);
    TypedChannel(Channels(c).r);
    RedSplicesByte(t, c);
    SameChannels(c, RedEntry(t, c));
  }

  /** Releasing a key in the green field as `update` left it reproduces the colour. */
  lemma GreenFieldRoundTrip(c: int)
    requires 0 <= c <= 0xffffff
    ensures GreenEntry(NumberToString(Channels(c).g, 10), c) == c
  {
    var t := NumberToString(Channels(c).g, 10);
    ColorParts(c);
    TypedChannel(Channels(c).g);
    GreenSplicesByte(t, c);
    SameChannels(c, GreenEntry(t, c));
  }

  /** Releasing a key in the blue field as `update` left it reproduces the colour. */
  lemma BlueFieldRoundTrip(c: int)
    requires 0 <= c <= 0xffffff
    ensures BlueEntry(NumberToString(Channels(c).b, 10), c) == c
  {
    var t := NumberToString(Channels(c).b, 10);
    ColorParts(c);
    TypedChannel(Channels(c).b);
    BlueSplicesByte(t, c);
    SameChannels(c, BlueEntry(t, c));
  }

  /**
   * The wheel shows the colour `update` gave it: for a 24-bit colour, packing
   * hsv2rgb of rgb2hsv of its channels gives the colour back.
   */
  lemma WheelColourOfUpdate(c: int)
    requires 0 <= c <= 0xffffff
    ensures var ch := Channels(c); var hsv := Rgb2Hsv(ch.r, ch.g, ch.b);
      PackRGB(Hsv2Rgb(hsv.h, hsv.s, hsv.v)) == c
  {
    var ch := Channels(c);
    ChannelsOfColor(c);
    Hsv2RgbOfRgb2Hsv(ch.r, ch.g, ch.b);
    PackRGBBytes(ch);
  }

  /** The padding loop of `update`: prepends '0' until the hex text has six characters. */
  method PaddedHex(c: int) returns (hex: string)
    ensures hex == HexText(c)
  {
    hex := NumberToString(c, 16);
    ghost var digits := hex;
    while |hex| < 6
      invariant |digits| <= |hex| <= if |digits| < 6 then 6 else |digits|
      invariant hex == Zeros(|hex| - |digits|) + digits
    {
      assert "0" + (Zeros(|hex| - |digits|) + digits) == Zeros(|hex| + 1 - |digits|) + digits;
      hex := "0" + hex;
    }
    PaddedLoop(hex, digits);
  }

  // ---------------------------------------------------------------------------
  // The window

  class Picker {
    var color: int
    /** The text of the hex, red, green and blue input fields. */
    var hexText: string
    var redText: string
    var greenText: string
    var blueText: string
    /** The swatch's CSS background colour. */
    var swatch: string
    const wheel: Wheel.ColorWheel

    ghost predicate Valid()
      reads wheel, wheel.ring
    {
      wheel.Valid()
    }

    /** The wheel shows colour c: its HSV is rgb2hsv of c's channels and its canvas is drawn from that HSV. */
    ghost predicate WheelShows(c: int)
      requires Valid()
      reads wheel, wheel.ring
    {
      var ch := Channels(c);
      && Rgb2Hsv(ch.r, ch.g, ch.b) == ColorMath.HSV(wheel.hue, wheel.saturation, wheel.value)
      && wheel.canvas == Wheel.Picture(wheel.host, wheel.geo, wheel.hue, wheel.saturation, wheel.value)
    }

    /** Builds the wheel at 200 pixels with a 10-pixel ring and a 2-pixel gap, and draws it. */
    constructor (host: Wheel.Host)
      requires host.Valid()
      ensures Valid() && fresh(wheel)
      ensures color == 0 && hexText == "" && redText == "" && greenText == "" && blueText == ""
      ensures swatch == ""
      ensures wheel.host == host && wheel.geo == Wheel.Inscribed(host, WheelSize, WheelThickness, WheelGap)
      ensures wheel.session == Wheel.Idle
      ensures wheel.hue == 0.0 && wheel.saturation == 0.0 && wheel.value == 0.0
      ensures wheel.canvas == Wheel.Picture(host, wheel.geo, 0.0, 0.0, 0.0)
    {
      color := 0;
      hexText, redText, greenText, blueText := "", "", "", "";
      swatch := "";
      var w := new Wheel.ColorWheel(host, WheelSize, WheelThickness, WheelGap);
      w.Draw();
      wheel := w;
    }

    /**
     * `update(color, ignore)`: stores the colour and the swatch, rewrites each
     * field whose flag is clear, and resets and redraws the wheel unless `HSV` is set.
     */
    method Update(c: int, ignore: Ignore)
      requires Valid()
      modifies this, wheel
      ensures Valid()
      ensures color == c && swatch == "#" + HexText(c)
      ensures hexText == if Refreshes(ignore, Hex) then HexText(c) else old(hexText)
      ensures redText == if Refreshes(ignore, Red) then NumberToString(Channels(c).r, 10) else old(redText)
      ensures greenText == if Refreshes(ignore, Green) then NumberToString(Channels(c).g, 10) else old(greenText)
      ensures blueText == if Refreshes(ignore, Blue) then NumberToString(Channels(c).b, 10) else old(blueText)
      ensures Refreshes(ignore, Ignore.HSV) ==>
        var ch := Channels(c);
        && Rgb2Hsv(ch.r, ch.g, ch.b) == ColorMath.HSV(wheel.hue, wheel.saturation, wheel.value)
        && wheel.canvas == Wheel.Picture(wheel.host, wheel.geo, wheel.hue, wheel.saturation, wheel.value)
      ensures Refreshes(ignore, Ignore.HSV) && 0 <= c <= 0xffffff ==> wheel.Color() == c
      ensures !Refreshes(ignore, Ignore.HSV) ==>
        && wheel.hue == old(wheel.hue) && wheel.saturation == old(wheel.saturation)
        && wheel.value == old(wheel.value) && wheel.canvas == old(wheel.canvas)
      ensures wheel.session == old(wheel.session)
    {
      ShowText(c, ignore);
      var ch := Channels(c);
      ShowOnWheel(ch.r, ch.g, ch.b, Refreshes(ignore, Ignore.HSV));
      if Refreshes(ignore, Ignore.HSV) && 0 <= c <= 0xffffff {
        assert wheel.Color() == c by {
          WheelColourOfUpdate(c);
        }
      }
    }

    /** The text half of `update`: the colour, the padded hex, the four fields and the swatch. */
    method ShowText(c: int, ignore: Ignore)
      modifies this`color, this`hexText, this`redText, this`greenText, this`blueText, this`swatch
      ensures color == c && swatch == "#" + HexText(c)
      ensures hexText == if Refreshes(ignore, Hex) then HexText(c) else old(hexText)
      ensures redText == if Refreshes(ignore, Red) then NumberToString(Channels(c).r, 10) else old(redText)
      ensures greenText == if Refreshes(ignore, Green) then NumberToString(Channels(c).g, 10) else old(greenText)
      ensures blueText == if Refreshes(ignore, Blue) then NumberToString(Channels(c).b, 10) else old(blueText)
    {
      color := c;
      var hex := PaddedHex(color);
      var ch := Channels(color);
      var r, g, b := ch.r, ch.g, ch.b;
      ShowFields(hex, r, g, b, Refreshes(ignore, Hex), Refreshes(ignore, Red),
        Refreshes(ignore, Green), Refreshes(ignore, Blue));
      swatch := "#" + hex;
    }

    /**
     * The four fields of `update`: the hex text, then each channel in decimal,
     * each written only when its flag is clear.
     */
    method ShowFields(hex: string, r: int, g: int, b: int, showHex: bool, showRed: bool, showGreen: bool, showBlue: bool)
      modifies this`hexText, this`redText, this`greenText, this`blueText
      ensures hexText == if showHex then hex else old(hexText)
      ensures redText == if showRed then NumberToString(r, 10) else old(redText)
      ensures greenText == if showGreen then NumberToString(g, 10) else old(greenText)
      ensures blueText == if showBlue then NumberToString(b, 10) else old(blueText)
    {
      if showHex {
        hexText := hex;
      }
      if showRed {
        redText := NumberToString(r, 10);
      }
      if showGreen {
        greenText := NumberToString(g, 10);
      }
      if showBlue {
        blueText := NumberToString(b, 10);
      }
    }

    /** The last arm of `update`: when the `HSV` flag is clear, the wheel takes the colour's HSV and redraws. */
    method ShowOnWheel(r: int, g: int, b: int, showHsv: bool)
      requires Valid()
      modifies wheel
      ensures Valid()
      ensures showHsv ==>
        && Rgb2Hsv(r, g, b) == ColorMath.HSV(wheel.hue, wheel.saturation, wheel.value)
        && wheel.canvas == Wheel.Picture(wheel.host, wheel.geo, wheel.hue, wheel.saturation, wheel.value)
      ensures !showHsv ==>
        && wheel.hue == old(wheel.hue) && wheel.saturation == old(wheel.saturation)
        && wheel.value == old(wheel.value) && wheel.canvas == old(wheel.canvas)
      ensures wheel.session == old(wheel.session)
    {
      if showHsv {
        var hsv := Rgb2Hsv(r, g, b);
        wheel.SetHSV(hsv.h, hsv.s, hsv.v);
        wheel.Draw();
      }
    }

    /** `pick(color)`: shows the colour everywhere, the wheel included. */
    method Pick(c: int)
      requires Valid()
      modifies this, wheel
      ensures Valid()
      ensures color == c && swatch == "#" + HexText(c) && hexText == HexText(c)
      ensures redText == NumberToString(Channels(c).r, 10)
      ensures greenText == NumberToString(Channels(c).g, 10)
      ensures blueText == NumberToString(Channels(c).b, 10)
      ensures var ch := Channels(c);
        && Rgb2Hsv(ch.r, ch.g, ch.b) == ColorMath.HSV(wheel.hue, wheel.saturation, wheel.value)
        && wheel.canvas == Wheel.Picture(wheel.host, wheel.geo, wheel.hue, wheel.saturation, wheel.value)
      ensures 0 <= c <= 0xffffff ==> wheel.Color() == c
      ensures wheel.session == old(wheel.session)
    {
      Pow2Values();
      assert Refreshes(Ignore.None, Hex) && Refreshes(Ignore.None, Red) && Refreshes(Ignore.None, Green);
      assert Refreshes(Ignore.None, Blue) && Refreshes(Ignore.None, Ignore.HSV);
      Update(c, Ignore.None);
    }

    /** A `keyup` in the hex field after it was edited to `text`. */
    method HexKeyup(text: string)
      requires Valid()
      modifies this, wheel
      ensures Valid()
      ensures color == HexEntry(text) && hexText == text
      ensures redText == NumberToString(Channels(color).r, 10)
      ensures greenText == NumberToString(Channels(color).g, 10)
      ensures blueText == NumberToString(Channels(color).b, 10)
      ensures swatch == "#" + HexText(color) && wheel.Color() == color
      ensures WheelShows(color)
      ensures wheel.session == old(wheel.session)
    {
      hexText := text;
      assert !Refreshes(Hex, Hex);
      assert Refreshes(Hex, Red) && Refreshes(Hex, Green);
      assert Refreshes(Hex, Blue) && Refreshes(Hex, Ignore.HSV);
      Update(HexEntry(text), Hex);
    }

    /** A `keyup` in the red field after it was edited to `text`. */
    method RedKeyup(text: string)
      requires Valid()
      modifies this, wheel
      ensures Valid()
      ensures color == RedEntry(text, old(color)) && redText == text
      ensures hexText == HexText(color)
      ensures greenText == NumberToString(Channels(color).g, 10)
      ensures blueText == NumberToString(Channels(color).b, 10)
      ensures swatch == "#" + HexText(color) && wheel.Color() == color
      ensures WheelShows(color)
      ensures wheel.session == old(wheel.session)
    {
      redText := text;
      assert !Refreshes(Red, Red);
      assert Refreshes(Red, Hex) && Refreshes(Red, Green);
      assert Refreshes(Red, Blue) && Refreshes(Red, Ignore.HSV);
      Update(RedEntry(text, color), Red);
    }

    /** A `keyup` in the green field after it was edited to `text`. */
    method GreenKeyup(text: string)
      requires Valid()
      modifies this, wheel
      ensures Valid()
      ensures color == GreenEntry(text, old(color)) && greenText == text
      ensures hexText == HexText(color)
      ensures redText == NumberToString(Channels(color).r, 10)
      ensures blueText == NumberToString(Channels(color).b, 10)
      ensures swatch == "#" + HexText(color) && wheel.Color() == color
      ensures WheelShows(color)
      ensures wheel.session == old(wheel.session)
    {
      greenText := text;
      assert !Refreshes(Green, Green);
      assert Refreshes(Green, Hex) && Refreshes(Green, Red);
      assert Refreshes(Green, Blue) && Refreshes(Green, Ignore.HSV);
      Update(GreenEntry(text, color), Green);
    }

    /** A `keyup` in the blue field after it was edited to `text`. */
    method BlueKeyup(text: string)
      requires Valid()
      modifies this, wheel
      ensures Valid()
      ensures color == BlueEntry(text, old(color)) && blueText == text
      ensures hexText == HexText(color)
      ensures redText == NumberToString(Channels(color).r, 10)
      ensures greenText == NumberToString(Channels(color).g, 10)
      ensures swatch == "#" + HexText(color) && wheel.Color() == color
      ensures WheelShows(color)
      ensures wheel.session == old(wheel.session)
    {
      blueText := text;
      assert !Refreshes(Blue, Blue);
      assert Refreshes(Blue, Hex) && Refreshes(Blue, Red);
      assert Refreshes(Blue, Green) && Refreshes(Blue, Ignore.HSV);
      Update(BlueEntry(text, color), Blue);
    }

    /**
     * A `mousedown` on the canvas: the wheel tracks the press and, when it
     * reports a colour, the fields follow with the wheel's own state left alone.
     */
    method MouseDown(x: real, y: real)
      requires Valid()
      modifies this, wheel
      ensures Valid()
      ensures wheel.geo.InSquare(x, y) ==>
        && wheel.geo.side > 0.0 && wheel.session == Wheel.SvDrag && wheel.hue == old(wheel.hue)
        && wheel.saturation == Wheel.SaturationAt(wheel.geo, x) && wheel.value == Wheel.ValueAt(wheel.geo, y)
      ensures !wheel.geo.InSquare(x, y) && Wheel.OnRing(wheel.host, wheel.geo, x, y) ==>
        && wheel.session == Wheel.HueDrag && wheel.hue == Wheel.HueAt(wheel.host, wheel.geo, x, y)
        && wheel.saturation == old(wheel.saturation) && wheel.value == old(wheel.value)
      ensures wheel.geo.InSquare(x, y) || Wheel.OnRing(wheel.host, wheel.geo, x, y) ==>
        && color == wheel.Color() && swatch == "#" + HexText(color) && hexText == HexText(color)
        && redText == NumberToString(Channels(color).r, 10)
        && greenText == NumberToString(Channels(color).g, 10)
        && blueText == NumberToString(Channels(color).b, 10)
        && wheel.canvas == Wheel.Picture(wheel.host, wheel.geo, wheel.hue, wheel.saturation, wheel.value)
      ensures !wheel.geo.InSquare(x, y) && !Wheel.OnRing(wheel.host, wheel.geo, x, y) ==>
        && wheel.session == old(wheel.session) && color == old(color) && swatch == old(swatch)
        && hexText == old(hexText) && redText == old(redText)
        && greenText == old(greenText) && blueText == old(blueText)
        && wheel.hue == old(wheel.hue) && wheel.saturation == old(wheel.saturation)
        && wheel.value == old(wheel.value) && wheel.canvas == old(wheel.canvas)
    {
      var reported := wheel.Track(x, y);
      if reported.Some? {
        assert !Refreshes(Ignore.HSV, Ignore.HSV);
        assert Refreshes(Ignore.HSV, Hex) && Refreshes(Ignore.HSV, Red);
        assert Refreshes(Ignore.HSV, Green) && Refreshes(Ignore.HSV, Blue);
        Update(reported.value, Ignore.HSV);
      }
    }

    /** A `mousemove` while a drag is in progress. */
    method MouseMove(x: real, y: real)
      requires Valid()
      modifies this, wheel
      ensures Valid() && wheel.session == old(wheel.session)
      ensures wheel.session == Wheel.HueDrag ==>
        && wheel.hue == Wheel.HueAt(wheel.host, wheel.geo, x, y)
        && wheel.saturation == old(wheel.saturation) && wheel.value == old(wheel.value)
      ensures wheel.session == Wheel.SvDrag ==>
        var lo, hi := wheel.geo.Start() as real, wheel.geo.End() as real;
        && wheel.geo.side > 0.0 && wheel.hue == old(wheel.hue)
        && wheel.saturation == Wheel.SaturationAt(wheel.geo, Wheel.Clamp(x, lo, hi))
        && wheel.value == Wheel.ValueAt(wheel.geo, Wheel.Clamp(y, lo, hi))
      ensures wheel.session != Wheel.Idle ==>
        && color == wheel.Color() && swatch == "#" + HexText(color) && hexText == HexText(color)
        && redText == NumberToString(Channels(color).r, 10)
        && greenText == NumberToString(Channels(color).g, 10)
        && blueText == NumberToString(Channels(color).b, 10)
        && wheel.canvas == Wheel.Picture(wheel.host, wheel.geo, wheel.hue, wheel.saturation, wheel.value)
      ensures wheel.session == Wheel.Idle ==>
        && color == old(color) && swatch == old(swatch)
        && hexText == old(hexText) && redText == old(redText)
        && greenText == old(greenText) && blueText == old(blueText)
        && wheel.hue == old(wheel.hue) && wheel.saturation == old(wheel.saturation)
        && wheel.value == old(wheel.value) && wheel.canvas == old(wheel.canvas)
    {
      var reported := wheel.Move(x, y);
      if reported.Some? {
        assert !Refreshes(Ignore.HSV, Ignore.HSV);
        assert Refreshes(Ignore.HSV, Hex) && Refreshes(Ignore.HSV, Red);
        assert Refreshes(Ignore.HSV, Green) && Refreshes(Ignore.HSV, Blue);
        Update(reported.value, Ignore.HSV);
      }
    }

    /** A `mouseup`: the drag ends. */
    method MouseUp()
      requires Valid()
      modifies wheel
      ensures Valid() && wheel.session == Wheel.Idle
      ensures wheel.hue == old(wheel.hue) && wheel.saturation == old(wheel.saturation)
      ensures wheel.value == old(wheel.value) && wheel.canvas == old(wheel.canvas)
      ensures color == old(color) && swatch == old(swatch) && hexText == old(hexText)
      ensures redText == old(redText) && greenText == old(greenText) && blueText == old(blueText)
    {
      wheel.Release();
    }
  }
}
