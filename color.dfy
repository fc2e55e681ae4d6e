/**
 * The RGBA colour value type: construction by clamping, hex text in both directions,
 * RGB to HSV and back, replacing the alpha, and equality with a tolerance on alpha.
 * Numbers are exact: channels are `int`, alpha and the HSV components are `real`.
 */
module Colors {
  import opened Wrappers
  import opened Text

  /** The four stored channels: red, green, blue in 0..255 and alpha in 0..1. */
  datatype Rgba = Rgba(r: int, g: int, b: int, a: real)

  predicate InRange(c: Rgba) {
    0 <= c.r <= 255 && 0 <= c.g <= 255 && 0 <= c.b <= 255 && 0.0 <= c.a <= 1.0
  }

  /** Every colour the constructor can produce: all channels within their ranges. */
  type Color = c: Rgba | InRange(c) witness Rgba(0, 0, 0, 0.0)

  /** A colour in HSV form: hue in degrees, saturation, value and alpha in 0..1. */
  datatype Hsv = Hsv(h: real, s: real, v: real, a: real)

  datatype HexError = InvalidFormat | BadDigit

  function MaxInt(x: int, y: int): int { if x >= y then x else y }
  function MinInt(x: int, y: int): int { if x <= y then x else y }
  function MaxReal(x: real, y: real): real { if x >= y then x else y }
  function MinReal(x: real, y: real): real { if x <= y then x else y }
  function Abs(x: real): real { if x >= 0.0 then x else -x }

  /** `Math.min(Math.max(v, lo), hi)` on integers: the point of lo..hi nearest to `v`. */
  function ClampInt(v: int, lo: int, hi: int): (r: int)
    requires lo <= hi
    ensures lo <= r <= hi
    ensures lo <= v <= hi ==> r == v
    ensures v < lo ==> r == lo
    ensures v > hi ==> r == hi
  {
    MinInt(MaxInt(v, lo), hi)
  }

  /** `Math.min(Math.max(v, lo), hi)` on reals: the point of lo..hi nearest to `v`. */
  function ClampReal(v: real, lo: real, hi: real): (r: real)
    requires lo <= hi
    ensures lo <= r <= hi
    ensures lo <= v <= hi ==> r == v
    ensures v < lo ==> r == lo
    ensures v > hi ==> r == hi
  {
    MinReal(MaxReal(v, lo), hi)
  }

  /** `Math.round`: the integer nearest to `x`, halves rounded up. */
  function Round(x: real): (n: int)
    ensures x - 0.5 < n as real <= x + 0.5
  {
    (x + 0.5).Floor
  }

  /** Rounding toward zero, the integer part `%` divides by. */
  function Trunc(x: real): (n: int)
    ensures x >= 0.0 ==> n as real <= x < n as real + 1.0
    ensures x < 0.0 ==> n as real - 1.0 < x <= n as real
  {
    if x >= 0.0 then x.Floor else -((-x).Floor)
  }

  /** `k` whole steps of `y`. */
  function Multiple(y: real, k: int): real { y * k as real }

  /** JavaScript `%` on numbers: the remainder of truncating division, with the sign of `x`. */
  function FMod(x: real, y: real): (r: real)
    requires y > 0.0
    ensures x >= 0.0 ==> 0.0 <= r < y
    ensures x <= 0.0 ==> -y < r <= 0.0
    ensures -y < x < y ==> r == x
    ensures exists k: int :: x - r == Multiple(y, k)
  {
    var q := Trunc(x / y);
    QuotientBounds(x, y, q);
    var r := x - y * q as real;
    assert x - r == Multiple(y, q);
    r
  }

  lemma MulLe(a: real, b: real, y: real)
    requires a <= b && y > 0.0
    ensures a * y <= b * y
  {
    assert (b - a) * y >= 0.0;
  }
  lemma MulLt(a: real, b: real, y: real)
    requires a < b && y > 0.0
    ensures a * y < b * y
  {
    assert (b - a) * y > 0.0;
  }
  /** Multiplying by a positive number keeps the order of two numbers, both ways. */
  lemma ScaleOrder(a: real, b: real, y: real)
    requires y > 0.0
    ensures a <= b <==> a * y <= b * y
    ensures a < b <==> a * y < b * y
  {
    if a <= b { MulLe(a, b, y); } else { MulLt(b, a, y); }
    if a < b { MulLt(a, b, y); } else { MulLe(b, a, y); }
  }
  lemma QuotientBounds(x: real, y: real, q: int)
    requires y > 0.0
    requires x / y >= 0.0 ==> q as real <= x / y < q as real + 1.0
    requires x / y < 0.0 ==> q as real - 1.0 < x / y <= q as real
    ensures x >= 0.0 ==> 0.0 <= x - y * q as real < y
    ensures x <= 0.0 ==> -y < x - y * q as real <= 0.0
    ensures -y < x < y ==> q == 0
  {
    var t := x / y;
    assert x == t * y;
    if t >= 0.0 {
      QuotientNonneg(x, y, t, q);
    } else {
      QuotientNeg(x, y, t, q);
    }
  }

  lemma QuotientNonneg(x: real, y: real, t: real, q: int)
    requires y > 0.0 && x == t * y && t >= 0.0
    requires q as real <= t < q as real + 1.0
    ensures 0.0 <= x && 0.0 <= x - y * q as real < y
    ensures x < y ==> q == 0
  {
    var s := t - q as real;
    assert x - y * q as real == s * y;
    ScaleOrder(0.0, t, y);
    ScaleOrder(0.0, s, y);
    ScaleOrder(s, 1.0, y);
    ScaleOrder(t, 1.0, y);
  }

  lemma QuotientNeg(x: real, y: real, t: real, q: int)
    requires y > 0.0 && x == t * y && t < 0.0
    requires q as real - 1.0 < t <= q as real
    ensures x < 0.0 && -y < x - y * q as real <= 0.0
    ensures -y < x ==> q == 0
  {
    var s := t - q as real;
    assert x - y * q as real == s * y;
    ScaleOrder(t, 0.0, y);
    assert x < 0.0;
    assert -1.0 < s <= 0.0;
    ScaleOrder(-1.0, s, y);
    assert -y < s * y;
    ScaleOrder(s, 0.0, y);
    assert s * y <= 0.0;
    ScaleOrder(-1.0, t, y);
  }

  /** `new Color(r, g, b, a)`: every channel clamped into its range. */
  function Make(r: int, g: int, b: int, a: real): (c: Color)
    ensures c.r == ClampInt(r, 0, 255) && c.g == ClampInt(g, 0, 255) && c.b == ClampInt(b, 0, 255)
    ensures c.a == ClampReal(a, 0.0, 1.0)
    ensures InRange(Rgba(r, g, b, a)) ==> c == Rgba(r, g, b, a)
  {
    Rgba(ClampInt(r, 0, 255), ClampInt(g, 0, 255), ClampInt(b, 0, 255), ClampReal(a, 0.0, 1.0))
  }

  // ---------------------------------------------------------------- hex text

  /**
   * `parseInt(hi + lo, 16)`: two hex digits of either case read as a byte; otherwise as much of a
   * number as stands at the front (a digit alone, or a digit after a sign or white space), and NaN
   * (`None`) when there is none, as for `0x`.
   */
  function ParseHexPair(hi: char, lo: char): (n: Option<int>)
    ensures HexDigitValue(hi).Some? && HexDigitValue(lo).Some? ==> n == Some(HexByte(hi, lo))
    ensures n.Some? <==>
      ((HexDigitValue(hi).Some? && !(hi == '0' && (lo == 'x' || lo == 'X')))
       || ((hi == '+' || hi == '-' || IsSpace(hi)) && HexDigitValue(lo).Some?))
    ensures n.Some? ==> -15 <= n.value <= 255
  {
    match (HexDigitValue(hi), HexDigitValue(lo))
    case (Some(h), Some(l)) => Some(16 * h + l)
    case (Some(h), None) => if hi == '0' && (lo == 'x' || lo == 'X') then None else Some(h)
    case (None, Some(l)) => if hi == '-' then Some(-l) else if hi == '+' || IsSpace(hi) then Some(l) else None
    case (None, None) => None
  }

  /** The byte two hex digits of either case stand for. */
  function HexByte(hi: char, lo: char): (n: int)
    requires HexDigitValue(hi).Some? && HexDigitValue(lo).Some?
    ensures 0 <= n <= 255
  {
    16 * HexDigitValue(hi).value + HexDigitValue(lo).value
  }

  /** The pair reader agrees with the general `parseInt(text, 16)` on every two-character text. */
  lemma HexPairIsParseHex(hi: char, lo: char)
    ensures ParseHexPair(hi, lo) == ParseHex([hi, lo])
  {
    var s := [hi, lo];
    var m := NumeralStart(s, Hex);
    if HexDigitValue(hi).Some? {
      assert SkipSpace(s, 0) == 0;
      if !(hi == '0' && (lo == 'x' || lo == 'X')) {
        assert m == Numeral(false, 16, 0);
        var hv := HexDigitValue(hi).value;
        if HexDigitValue(lo).Some? {
          var lv := HexDigitValue(lo).value;
          assert DigitRun(s, 2, 16) == [];
          assert DigitRun(s, 1, 16) == [lv];
          assert DigitRun(s, 0, 16) == [hv, lv];
          assert [hv, lv][..1] == [hv] && [hv][..0] == [];
          assert DigitsValue([hv], 16) == hv;
          assert DigitsValue([hv, lv], 16) == 16 * hv + lv;
          assert ParseHex(s) == Some(16 * hv + lv);
        } else {
          assert DigitRun(s, 1, 16) == [];
          assert DigitRun(s, 0, 16) == [hv];
          assert [hv][..0] == [];
          assert DigitsValue([hv], 16) == hv;
          assert ParseHex(s) == Some(hv);
        }
      }
    } else if hi == '+' || hi == '-' || IsSpace(hi) {
      if HexDigitValue(lo).Some? {
        var lv := HexDigitValue(lo).value;
        if IsSpace(hi) {
          assert SkipSpace(s, 1) == 1;
        } else {
          assert SkipSpace(s, 0) == 0;
        }
        assert m == Numeral(hi == '-', 16, 1);
        assert DigitRun(s, 2, 16) == [];
        assert DigitRun(s, 1, 16) == [lv];
        assert [lv][..0] == [];
        assert DigitsValue([lv], 16) == lv;
        assert ParseHex(s) == Some(if hi == '-' then -lv else lv);
      } else if IsSpace(hi) {
        if IsSpace(lo) {
          assert SkipSpace(s, 2) == 2;
        } else {
          assert SkipSpace(s, 1) == 1;
        }
      } else {
        assert SkipSpace(s, 0) == 0;
      }
    } else {
      assert SkipSpace(s, 0) == 0;
      assert m.start == 0;
    }
  }

  /** A byte as `n.toString(16).padStart(2, '0')` writes it. */
  function ByteToHex(n: int): (s: string)
    requires 0 <= n <= 255
    ensures |s| == 2 && IsLowerHexDigit(s[0]) && IsLowerHexDigit(s[1])
    ensures ParseHexPair(s[0], s[1]) == Some(n)
  {
    [HexDigit(n / 16), HexDigit(n % 16)]
  }

  /** The colour three parsed channels and an alpha give, or `BadDigit` if a channel did not parse. */
  function Assemble(r: Option<int>, g: Option<int>, b: Option<int>, a: real): (res: Result<Color, HexError>)
    ensures res.Ok? <==> r.Some? && g.Some? && b.Some?
    ensures res.Err? ==> res.error == BadDigit
    ensures res.Ok? ==> res.value == Make(r.value, g.value, b.value, a)
  {
    if r.Some? && g.Some? && b.Some? then Ok(Make(r.value, g.value, b.value, a)) else Err(BadDigit)
  }

  /**
   * `Color.fromHex`: after removing the first `#`, three digits are doubled nibbles, six are
   * `rrggbb` and eight are `rrggbbaa` with alpha `aa / 255`; any other length is `InvalidFormat`.
   */
  function FromHex(hex: string): (res: Result<Color, HexError>)
    ensures res == Err(InvalidFormat) <==> |RemoveFirst(hex, '#')| !in {3, 6, 8}
    ensures res.Ok? && |RemoveFirst(hex, '#')| != 8 ==> res.value.a == 1.0
  {
    var h := RemoveFirst(hex, '#');
    if |h| == 3 then
      Assemble(ParseHexPair(h[0], h[0]), ParseHexPair(h[1], h[1]), ParseHexPair(h[2], h[2]), 1.0)
    else if |h| == 6 then
      Assemble(ParseHexPair(h[0], h[1]), ParseHexPair(h[2], h[3]), ParseHexPair(h[4], h[5]), 1.0)
    else if |h| == 8 then
      match ParseHexPair(h[6], h[7])
      case Some(a) =>
        Assemble(ParseHexPair(h[0], h[1]), ParseHexPair(h[2], h[3]), ParseHexPair(h[4], h[5]), a as real / 255.0)
      case None => Err(BadDigit)
    else
      Err(InvalidFormat)
  }

  /** Every character of `h` is a hex digit of either case. */
  predicate AllHexDigits(h: string) {
    forall k :: 0 <= k < |h| ==> HexDigitValue(h[k]).Some?
  }

  /** Six hex digits, with or without a leading `#`, are the three channels they spell, opaque. */
  lemma FromHexSix(h: string)
    requires |h| == 6 && AllHexDigits(h)
    ensures FromHex(h) == Ok(Rgba(HexByte(h[0], h[1]), HexByte(h[2], h[3]), HexByte(h[4], h[5]), 1.0))
    ensures FromHex("#" + h) == FromHex(h)
  {
    assert '#' !in h by {
      forall k | 0 <= k < |h| ensures h[k] != '#' { assert HexDigitValue(h[k]).Some?; }
    }
    assert RemoveFirst("#" + h, '#') == h by {
      assert ("#" + h)[1..] == h;
    }
  }

  /** Eight hex digits are three channels and an alpha of the last byte over 255. */
  lemma FromHexEight(h: string)
    requires |h| == 8 && AllHexDigits(h)
    ensures FromHex(h) ==
      Ok(Rgba(HexByte(h[0], h[1]), HexByte(h[2], h[3]), HexByte(h[4], h[5]), HexByte(h[6], h[7]) as real / 255.0))
    ensures FromHex("#" + h) == FromHex(h)
  {
    assert '#' !in h by {
      forall k | 0 <= k < |h| ensures h[k] != '#' { assert HexDigitValue(h[k]).Some?; }
    }
    assert RemoveFirst("#" + h, '#') == h by {
      assert ("#" + h)[1..] == h;
    }
    var a := HexByte(h[6], h[7]);
    assert 0.0 <= a as real / 255.0 <= 1.0;
  }

  /** Three hex digits are each digit doubled. */
  lemma FromHexThree(h: string)
    requires |h| == 3 && AllHexDigits(h)
    ensures FromHex(h) == Ok(Rgba(HexByte(h[0], h[0]), HexByte(h[1], h[1]), HexByte(h[2], h[2]), 1.0))
  {
    assert '#' !in h by {
      forall k | 0 <= k < |h| ensures h[k] != '#' { assert HexDigitValue(h[k]).Some?; }
    }
  }

  /** Upper-case digits read as lower-case ones do. */
  lemma FromHexUpper()
    ensures FromHex("#FF0000") == Ok(Rgba(255, 0, 0, 1.0))
  {
    assert RemoveFirst("#FF0000", '#') == "FF0000";
    assert ParseHexPair('F', 'F') == Some(255) && ParseHexPair('0', '0') == Some(0);
  }

  /**
   * A pair that is not two digits is read as far as `parseInt` reads it: `fg` is 15, `-f` is -15
   * and is clamped to 0, and a pair with no number in front is no colour.
   */
  lemma FromHexPartialPairs()
    ensures FromHex("fgfgfg") == Ok(Rgba(15, 15, 15, 1.0))
    ensures FromHex("-f0000") == Ok(Rgba(0, 0, 0, 1.0))
    ensures FromHex("gg0000") == Err(BadDigit)
  {
    assert RemoveFirst("fgfgfg", '#') == "fgfgfg";
    assert ParseHexPair('f', 'g') == Some(15);
    assert RemoveFirst("-f0000", '#') == "-f0000";
    assert ParseHexPair('-', 'f') == Some(-15) && ParseHexPair('0', '0') == Some(0);
    assert RemoveFirst("gg0000", '#') == "gg0000";
    assert ParseHexPair('g', 'g') == None;
  }

  /** The byte `toHex` writes for an alpha: `Math.round(a * 255)`, within half a step of `a * 255`. */
  function AlphaByte(a: real): (n: int)
    requires 0.0 <= a <= 1.0
    ensures 0 <= n <= 255
    ensures -0.5 < n as real - a * 255.0 <= 0.5
  {
    Round(a * 255.0)
  }

  /** `color.toHex(includeAlpha)`: `#` and two lower-case, zero-padded hex digits per byte. */
  function ToHex(c: Color, includeAlpha: bool): (s: string)
    ensures |s| == if includeAlpha then 9 else 7
    ensures s[0] == '#'
    ensures forall k :: 1 <= k < |s| ==> IsLowerHexDigit(s[k])
  {
    var tail := ByteToHex(c.r) + ByteToHex(c.g) + ByteToHex(c.b)
      + (if includeAlpha then ByteToHex(AlphaByte(c.a)) else "");
    assert forall k :: 0 <= k < |tail| ==> IsLowerHexDigit(tail[k]);
    "#" + tail
  }

  /** Reading back `toHex(true)` gives the same channels and the alpha rounded to one byte. */
  lemma HexRoundTrip(c: Color)
    ensures FromHex(ToHex(c, true)) == Ok(Rgba(c.r, c.g, c.b, AlphaByte(c.a) as real / 255.0))
    ensures FromHex(ToHex(c, false)) == Ok(Rgba(c.r, c.g, c.b, 1.0))
  {
    var s := ToHex(c, true);
    var h := RemoveFirst(s, '#');
    assert h == s[1..];
    var rh, gh, bh, ah := ByteToHex(c.r), ByteToHex(c.g), ByteToHex(c.b), ByteToHex(AlphaByte(c.a));
    assert h == rh + gh + bh + ah;
    assert h[0] == rh[0] && h[1] == rh[1] && h[2] == gh[0] && h[3] == gh[1];
    assert h[4] == bh[0] && h[5] == bh[1] && h[6] == ah[0] && h[7] == ah[1];
    var s' := ToHex(c, false);
    var h' := RemoveFirst(s', '#');
    assert h' == s'[1..];
    assert h' == rh + gh + bh;
    assert h'[0] == rh[0] && h'[1] == rh[1] && h'[2] == gh[0] && h'[3] == gh[1];
    assert h'[4] == bh[0] && h'[5] == bh[1];
  }

  /** The hex round trip changes alpha by at most half of one byte step. */
  lemma HexRoundTripWithinTolerance(c: Color)
    ensures FromHex(ToHex(c, true)).Ok?
    ensures Equals(FromHex(ToHex(c, true)).value, c, 1.0 / 510.0)
  {
    HexRoundTrip(c);
    var n := AlphaByte(c.a);
    assert -0.5 / 255.0 < n as real / 255.0 - c.a <= 0.5 / 255.0;
  }

  /** Three digits mean the same as each digit written twice. */
  lemma ShortHexDoubles(d0: char, d1: char, d2: char)
    ensures FromHex([d0, d1, d2]) == FromHex([d0, d0, d1, d1, d2, d2])
  {
    var short, long := [d0, d1, d2], [d0, d0, d1, d1, d2, d2];
    if '#' in short {
      // Removing one `#` leaves two characters of the short form and five of the long one.
      assert '#' in long by {
        var k :| 0 <= k < 3 && short[k] == '#';
        assert long[2 * k] == short[k];
      }
    } else {
      assert '#' !in long by {
        assert forall k :: 0 <= k < 6 ==> long[k] in short;
      }
    }
  }

  /** `f00` and `ff0000` are both opaque red. */
  lemma FromHexRed()
    ensures FromHex("f00") == Ok(Rgba(255, 0, 0, 1.0))
    ensures FromHex("ff0000") == Ok(Rgba(255, 0, 0, 1.0))
  {
    assert RemoveFirst("f00", '#') == "f00";
    assert ParseHexPair('f', 'f') == Some(255) && ParseHexPair('0', '0') == Some(0);
    assert RemoveFirst("ff0000", '#') == "ff0000";
  }

  /** `#ff000080` is red with alpha 128 / 255. */
  lemma FromHexHalfRed()
    ensures FromHex("#ff000080") == Ok(Rgba(255, 0, 0, 128.0 / 255.0))
  {
    var h := RemoveFirst("#ff000080", '#');
    assert h == "ff000080";
    assert ParseHexPair('f', 'f') == Some(255) && ParseHexPair('0', '0') == Some(0);
    assert ParseHexPair(h[6], h[7]) == Some(128);
  }

  /** Two digits are no colour, and only the first `#` is removed, wherever it stands. */
  lemma FromHexFormat()
    ensures FromHex("12") == Err(InvalidFormat)
    ensures FromHex("##f00") == Err(InvalidFormat)
    ensures FromHex("f0#0") == FromHex("f00")
  {
    assert RemoveFirst("12", '#') == "12";
    assert RemoveFirst("##f00", '#') == "#f00";
    assert RemoveFirst("f0#0", '#') == "f00" by {
      assert RemoveFirst("#0", '#') == "0";
      assert RemoveFirst("0#0", '#') == "00";
    }
  }

  // ---------------------------------------------------------------- HSV

  function Max3(x: int, y: int, z: int): int { MaxInt(x, MaxInt(y, z)) }
  function Min3(x: int, y: int, z: int): int { MinInt(x, MinInt(y, z)) }

  /**
   * The hue the piecewise formula gives, by which channel is the largest, before negative angles
   * are lifted: it lies in [-60, 300], and a negative one lifted by 360 lands in [0, 360).
   */
  function RawHue(r: real, g: real, b: real, max: real, delta: real): (h: real)
    requires max == MaxReal(r, MaxReal(g, b)) && delta == max - MinReal(r, MinReal(g, b))
    requires delta > 0.0
    ensures -60.0 <= h <= 300.0
    ensures h < 0.0 ==> 0.0 <= h + 360.0 < 360.0
  {
    if max == r then
      RatioBounds(g - b, delta);
      60.0 * FMod((g - b) / delta, 6.0)
    else if max == g then
      RatioBounds(b - r, delta);
      60.0 * ((b - r) / delta + 2.0)
    else if max == b then
      RatioBounds(r - g, delta);
      60.0 * ((r - g) / delta + 4.0)
    else 0.0
  }

  /** The hue in degrees of three normalised channels: 0 for a grey, negative angles moved up by 360. */
  function Hue(r: real, g: real, b: real): (h: real)
    ensures 0.0 <= h < 360.0
  {
    var max := MaxReal(r, MaxReal(g, b));
    var min := MinReal(r, MinReal(g, b));
    var delta := max - min;
    var h := if delta != 0.0 then RawHue(r, g, b, max, delta) else 0.0;
    if h < 0.0 then h + 360.0 else h
  }

  /**
   * `color.toHsv()`: hue in [0, 360), saturation and value in [0, 1], alpha passed through;
   * value is the largest channel over 255, and saturation is 0 exactly for a grey, whose hue is 0.
   */
  function ToHsv(c: Color): (hsv: Hsv)
    ensures 0.0 <= hsv.h < 360.0
    ensures 0.0 <= hsv.s <= 1.0 && 0.0 <= hsv.v <= 1.0
    ensures hsv.a == c.a
    ensures hsv.v == Max3(c.r, c.g, c.b) as real / 255.0
    ensures Max3(c.r, c.g, c.b) == Min3(c.r, c.g, c.b) ==> hsv.h == 0.0
    ensures hsv.s == 0.0 <==> Max3(c.r, c.g, c.b) == Min3(c.r, c.g, c.b)
  {
    var r := c.r as real / 255.0;
    var g := c.g as real / 255.0;
    var b := c.b as real / 255.0;
    var max := MaxReal(r, MaxReal(g, b));
    var min := MinReal(r, MinReal(g, b));
    var delta := max - min;
    var s := if max == 0.0 then 0.0 else delta / max;
    NormalizedExtremes(c);
    SaturationRange(delta, max);
    Hsv(Hue(r, g, b), s, max, c.a)
  }

  lemma NormalizedExtremes(c: Color)
    ensures MaxReal(c.r as real / 255.0, MaxReal(c.g as real / 255.0, c.b as real / 255.0))
      == Max3(c.r, c.g, c.b) as real / 255.0
    ensures MinReal(c.r as real / 255.0, MinReal(c.g as real / 255.0, c.b as real / 255.0))
      == Min3(c.r, c.g, c.b) as real / 255.0
  {
  }

  lemma RatioBounds(x: real, d: real)
    requires d > 0.0 && -d <= x <= d
    ensures -1.0 <= x / d <= 1.0
    ensures x >= 0.0 ==> x / d >= 0.0
    ensures x < 0.0 ==> x / d < 0.0
    ensures x == d ==> x / d == 1.0
    ensures (x / d) * d == x
  {
    var t := x / d;
    assert x == t * d;
    ScaleOrder(-1.0, t, d);
    ScaleOrder(t, 1.0, d);
    ScaleOrder(0.0, t, d);
    if x == d {
      ScaleOrder(1.0, t, d);
      assert t * d == 1.0 * d;
      assert t == 1.0;
    }
  }

  lemma SaturationRange(delta: real, max: real)
    requires 0.0 <= delta <= max
    ensures max != 0.0 ==> 0.0 <= delta / max <= 1.0
    ensures max != 0.0 ==> (delta / max == 0.0 <==> delta == 0.0)
  {
    if max != 0.0 {
      RatioBounds(delta, max);
      if delta != 0.0 {
        ScaleOrder(0.0, delta / max, max);
      }
    }
  }

  /** The red, green and blue parts `fromHsv` adds the offset `m` to. */
  datatype Components = Components(r: real, g: real, b: real)

  /** The components `fromHsv` picks for a hue: `c`, `x` and 0 by 60-degree sector. */
  function Sector(h: real, c: real, x: real): Components {
    if 0.0 <= h < 60.0 then Components(c, x, 0.0)
    else if h < 120.0 then Components(x, c, 0.0)
    else if h < 180.0 then Components(0.0, c, x)
    else if h < 240.0 then Components(0.0, x, c)
    else if h < 300.0 then Components(x, 0.0, c)
    else Components(c, 0.0, x)
  }

  /** Whatever the hue, the sector hands out `c`, `x` and 0, each to one channel. */
  lemma SectorPermutes(h: real, c: real, x: real)
    ensures var p := Sector(h, c, x); multiset{p.r, p.g, p.b} == multiset{c, x, 0.0}
  {
  }

  /** `1 - |((h / 60) % 2) - 1|`: the weight of the middle component. */
  function MidWeight(h: real): real {
    1.0 - Abs(FMod(h / 60.0, 2.0) - 1.0)
  }

  /** For every hue the weight is at most 1, and it takes the sign of the hue. */
  lemma MidWeightBounds(h: real)
    ensures MidWeight(h) <= 1.0
    ensures h >= 0.0 ==> 0.0 <= MidWeight(h)
    ensures h <= 0.0 ==> MidWeight(h) <= 0.0
  {
  }

  /** The middle component `x = c * (1 - |((h / 60) % 2) - 1|)` for chroma `c`. */
  function Mid(c: real, h: real): real {
    c * MidWeight(h)
  }

  /**
   * `Color.fromHsv(h, s, v, a)`: chroma `c = v * s`, middle component `x`, offset `m = v - c`,
   * each channel `round((component + m) * 255)`, then clamped like any constructed colour.
   */
  function FromHsv(h: real, s: real, v: real, a: real): (res: Color)
    ensures res.a == ClampReal(a, 0.0, 1.0)
  {
    FromChroma(h, v * s, v, a)
  }

  /** The colour `fromHsv` builds once the chroma `c = v * s` is known. */
  function FromChroma(h: real, c: real, v: real, a: real): (res: Color)
    ensures res.a == ClampReal(a, 0.0, 1.0)
  {
    Shift(Sector(h, c, Mid(c, h)), v - c, a)
  }

  /** Each component plus the offset `m`, scaled to a byte and rounded, then clamped by the constructor. */
  function Shift(parts: Components, m: real, a: real): Color {
    Make(Round((parts.r + m) * 255.0), Round((parts.g + m) * 255.0), Round((parts.b + m) * 255.0), a)
  }

  /** With no saturation `fromHsv` gives the grey of `round(v * 255)`, whatever the hue. */
  lemma FromHsvGrey(h: real, v: real, a: real)
    ensures var res := FromHsv(h, 0.0, v, a);
      res.r == res.g == res.b == ClampInt(Round(v * 255.0), 0, 255)
  {
    FromHsvShift(h, 0.0, v, a);
    assert v * 0.0 == 0.0 && v - 0.0 == v;
    assert Mid(0.0, h) == 0.0;
    assert Sector(h, 0.0, 0.0) == Components(0.0, 0.0, 0.0);
    assert FromHsv(h, 0.0, v, a) == Shift(Components(0.0, 0.0, 0.0), v, a);
  }

  /** Components that stay within [0, 1] once shifted are rounded to bytes with no clamping. */
  lemma ShiftBytes(parts: Components, m: real, a: real)
    requires 0.0 <= parts.r + m <= 1.0 && 0.0 <= parts.g + m <= 1.0 && 0.0 <= parts.b + m <= 1.0
    ensures var res := Shift(parts, m, a);
      res.r == Round((parts.r + m) * 255.0) && res.g == Round((parts.g + m) * 255.0)
      && res.b == Round((parts.b + m) * 255.0)
  {
    RoundMonotone(0.0, (parts.r + m) * 255.0);
    RoundMonotone((parts.r + m) * 255.0, 255.0);
    RoundMonotone(0.0, (parts.g + m) * 255.0);
    RoundMonotone((parts.g + m) * 255.0, 255.0);
    RoundMonotone(0.0, (parts.b + m) * 255.0);
    RoundMonotone((parts.b + m) * 255.0, 255.0);
    assert Round(0.0) == 0 && Round(255.0) == 255;
  }

  /** Converting to HSV and back gives the very same colour (with exact arithmetic). */
  lemma HsvRoundTrip(c: Color)
    ensures var hsv := ToHsv(c); FromHsv(hsv.h, hsv.s, hsv.v, hsv.a) == c
  {
    HsvComponents(c.r as real / 255.0, c.g as real / 255.0, c.b as real / 255.0, ToHsv(c));
    FromHsvBack(c, ToHsv(c));
  }

  /**
   * The components `fromHsv` computes from `hsv`, each plus the offset `v - v * s`, are the
   * normalised channels `R`, `G` and `B`.
   */
  predicate ComponentsRestore(R: real, G: real, B: real, hsv: Hsv) {
    var comps := Sector(hsv.h, hsv.v * hsv.s, Mid(hsv.v * hsv.s, hsv.h));
    var m := hsv.v - hsv.v * hsv.s;
    comps.r + m == R && comps.g + m == G && comps.b + m == B
  }

  /** The hue, saturation and value `toHsv` computes restore the channels through `fromHsv`'s components. */
  lemma HsvComponents(R: real, G: real, B: real, hsv: Hsv)
    requires R >= 0.0 && G >= 0.0 && B >= 0.0
    requires var max := MaxReal(R, MaxReal(G, B));
      var min := MinReal(R, MinReal(G, B));
      hsv.h == Hue(R, G, B) && hsv.v == max && hsv.s == if max == 0.0 then 0.0 else (max - min) / max
    ensures ComponentsRestore(R, G, B, hsv)
  {
    var max := MaxReal(R, MaxReal(G, B));
    var min := MinReal(R, MinReal(G, B));
    ChromaOf(hsv.v, hsv.s, max, min);
    var chroma := hsv.v * hsv.s;
    if max == min {
      GreyComponents(hsv.h, chroma);
    } else {
      ChromaComponents(R, G, B, chroma);
    }
  }

  /** The chroma `v * s` for the value and saturation `toHsv` computes is `max - min`. */
  lemma ChromaOf(v: real, s: real, max: real, min: real)
    requires 0.0 <= min <= max && v == max
    requires s == if max == 0.0 then 0.0 else (max - min) / max
    ensures v * s == max - min
  {
    if max == 0.0 {
      assert min == 0.0;
    } else {
      RatioBounds(max - min, max);
    }
  }

  lemma GreyComponents(h: real, chroma: real)
    requires chroma == 0.0
    ensures Sector(h, chroma, Mid(chroma, h)) == Components(0.0, 0.0, 0.0)
  {
    assert Mid(chroma, h) == 0.0;
  }

  lemma ChromaComponents(R: real, G: real, B: real, chroma: real)
    requires MaxReal(R, MaxReal(G, B)) > MinReal(R, MinReal(G, B))
    requires chroma == MaxReal(R, MaxReal(G, B)) - MinReal(R, MinReal(G, B))
    ensures var min := MinReal(R, MinReal(G, B));
      Sector(Hue(R, G, B), chroma, Mid(chroma, Hue(R, G, B))) == Components(R - min, G - min, B - min)
  {
    SectorRestores(R, G, B);
  }

  /** When the components plus the offset are the normalised channels, rounding restores each channel. */
  lemma FromHsvBack(c: Color, hsv: Hsv)
    requires hsv.a == c.a
    requires ComponentsRestore(c.r as real / 255.0, c.g as real / 255.0, c.b as real / 255.0, hsv)
    ensures FromHsv(hsv.h, hsv.s, hsv.v, hsv.a) == c
  {
    ChannelBack(c.r);
    ChannelBack(c.g);
    ChannelBack(c.b);
    FromHsvShift(hsv.h, hsv.s, hsv.v, hsv.a);
  }

  lemma FromHsvShift(h: real, s: real, v: real, a: real)
    ensures FromHsv(h, s, v, a) == Shift(Sector(h, v * s, Mid(v * s, h)), v - v * s, a)
  {
  }

  /** A channel normalised to [0, 1] and scaled back rounds to itself. */
  lemma ChannelBack(k: int)
    ensures Round((k as real / 255.0) * 255.0) == k
  {
    assert (k as real / 255.0) * 255.0 == k as real;
  }

  /**
   * The sector `fromHsv` picks for the hue of `(R, G, B)` gives the largest channel the chroma
   * `max - min`, the middle one its excess over `min`, and the smallest 0.
   */
  predicate SectorRestored(R: real, G: real, B: real) {
    var max := MaxReal(R, MaxReal(G, B));
    var min := MinReal(R, MinReal(G, B));
    var h := Hue(R, G, B);
    Sector(h, max - min, Mid(max - min, h)) == Components(R - min, G - min, B - min)
  }

  /**
   * For a colour that is not grey, the sector `fromHsv` picks for its hue gives the largest channel
   * the chroma `max - min`, the middle one its excess over `min`, and the smallest 0.
   */
  lemma SectorRestores(R: real, G: real, B: real)
    requires MaxReal(R, MaxReal(G, B)) > MinReal(R, MinReal(G, B))
    ensures SectorRestored(R, G, B)
  {
    if R >= G && R >= B {
      if R == G {
        SectorYellow(R, G, B);
      } else if G >= B {
        SectorRedGreen(R, G, B);
      } else {
        SectorRedBlue(R, G, B);
      }
    } else if G >= B {
      if G == B {
        SectorCyan(R, G, B);
      } else if B < R {
        SectorGreenRed(R, G, B);
      } else {
        SectorGreenBlue(R, G, B);
      }
    } else if R < G {
      SectorBlueGreen(R, G, B);
    } else {
      SectorBlueRed(R, G, B);
    }
  }

  /** `1 - |((h / 60) % 2) - 1|` written out for each 60-degree sector. */
  lemma MidWeightPiecewise(h: real)
    requires 0.0 <= h < 360.0
    ensures 0.0 <= h < 60.0 ==> MidWeight(h) == h / 60.0
    ensures 60.0 <= h < 120.0 ==> MidWeight(h) == 2.0 - h / 60.0
    ensures 120.0 <= h < 180.0 ==> MidWeight(h) == h / 60.0 - 2.0
    ensures 180.0 <= h < 240.0 ==> MidWeight(h) == 4.0 - h / 60.0
    ensures 240.0 <= h < 300.0 ==> MidWeight(h) == h / 60.0 - 4.0
    ensures 300.0 <= h < 360.0 ==> MidWeight(h) == 6.0 - h / 60.0
    ensures 0.0 <= MidWeight(h) <= 1.0
  {
    var k := h / 60.0;
    if h < 120.0 {
      assert Trunc(k / 2.0) == 0;
    } else if h < 240.0 {
      assert Trunc(k / 2.0) == 1;
    } else {
      assert Trunc(k / 2.0) == 2;
    }
  }

  /** Solver step only: a ratio over the chroma, scaled back by the chroma, gives its numerator. */
  lemma ChromaTimes(d: real, t: real, x: real)
    requires d > 0.0 && t == x / d
    ensures d * t == x && d * -t == -x
  {
  }

  /** Solver step only: isolates the product of the chroma and a known middle weight. */
  lemma MidIs(d: real, h: real, t: real, x: real)
    requires MidWeight(h) == t && d * t == x
    ensures Mid(d, h) == x
  {
  }

  /** Solver step only: isolates the product of the chroma and a middle weight of the opposite sign. */
  lemma MidIsNeg(d: real, h: real, t: real, x: real)
    requires MidWeight(h) == -t && d * t == x
    ensures Mid(d, h) == -x
  {
  }

  /** `SectorRestored` from its parts: the extremes, the hue, the middle component and the sector. */
  lemma RestoredFrom(R: real, G: real, B: real, max: real, min: real, h: real, x: real)
    requires max == MaxReal(R, MaxReal(G, B)) && min == MinReal(R, MinReal(G, B)) && h == Hue(R, G, B)
    requires Mid(max - min, h) == x
    requires Sector(h, max - min, x) == Components(R - min, G - min, B - min)
    ensures SectorRestored(R, G, B)
  {
  }

  // Red largest, green next: hue in [0, 60).
  lemma SectorRedGreen(R: real, G: real, B: real)
    requires R > G >= B
    ensures SectorRestored(R, G, B)
  {
    var d := R - B;
    var t := (G - B) / d;
    RatioBounds(G - B, d);
    assert t < 1.0 by {
      ScaleOrder(t, 1.0, d);
    }
    assert MaxReal(R, MaxReal(G, B)) == R && MinReal(R, MinReal(G, B)) == B;
    assert RawHue(R, G, B, R, d) == 60.0 * t;
    var h := Hue(R, G, B);
    assert h == 60.0 * t;
    MidWeightPiecewise(h);
    assert MidWeight(h) == t;
    ChromaTimes(d, t, G - B);
    MidIs(d, h, t, G - B);
    assert Sector(h, d, G - B) == Components(d, G - B, 0.0);
    RestoredFrom(R, G, B, R, B, h, G - B);
  }

  // Red and green equal and largest: hue 60.
  lemma SectorYellow(R: real, G: real, B: real)
    requires R == G > B
    ensures SectorRestored(R, G, B)
  {
    var d := R - B;
    assert MaxReal(R, MaxReal(G, B)) == R && MinReal(R, MinReal(G, B)) == B;
    assert (G - B) / d == 1.0;
    assert RawHue(R, G, B, R, d) == 60.0;
    var h := Hue(R, G, B);
    assert h == 60.0;
    MidWeightPiecewise(h);
    assert MidWeight(h) == 1.0;
  }

  // Red largest, blue next: hue in [300, 360).
  lemma SectorRedBlue(R: real, G: real, B: real)
    requires R >= B > G
    ensures SectorRestored(R, G, B)
  {
    var d := R - G;
    var t := (G - B) / d;
    RatioBounds(G - B, d);
    assert MaxReal(R, MaxReal(G, B)) == R && MinReal(R, MinReal(G, B)) == G;
    assert RawHue(R, G, B, R, d) == 60.0 * t;
    var h := Hue(R, G, B);
    assert h == 60.0 * t + 360.0;
    MidWeightPiecewise(h);
    assert MidWeight(h) == -t;
    ChromaTimes(d, t, G - B);
    MidIsNeg(d, h, t, G - B);
    assert Sector(h, d, -(G - B)) == Components(d, 0.0, B - G);
    RestoredFrom(R, G, B, R, G, h, -(G - B));
  }

  // Green largest, red next: hue in (60, 120).
  lemma SectorGreenRed(R: real, G: real, B: real)
    requires G > R > B
    ensures SectorRestored(R, G, B)
  {
    var d := G - B;
    var t := (B - R) / d;
    RatioBounds(B - R, d);
    assert t > -1.0 by {
      ScaleOrder(-1.0, t, d);
    }
    assert MaxReal(R, MaxReal(G, B)) == G && MinReal(R, MinReal(G, B)) == B;
    assert RawHue(R, G, B, G, d) == 60.0 * (t + 2.0);
    var h := Hue(R, G, B);
    assert h == 60.0 * (t + 2.0);
    MidWeightPiecewise(h);
    assert MidWeight(h) == -t;
    ChromaTimes(d, t, B - R);
    MidIsNeg(d, h, t, B - R);
    assert Sector(h, d, -(B - R)) == Components(R - B, d, 0.0);
    RestoredFrom(R, G, B, G, B, h, -(B - R));
  }

  // Green largest, blue next: hue in [120, 180).
  lemma SectorGreenBlue(R: real, G: real, B: real)
    requires G > B >= R
    ensures SectorRestored(R, G, B)
  {
    var d := G - R;
    var t := (B - R) / d;
    RatioBounds(B - R, d);
    assert t < 1.0 by {
      ScaleOrder(t, 1.0, d);
    }
    assert MaxReal(R, MaxReal(G, B)) == G && MinReal(R, MinReal(G, B)) == R;
    assert RawHue(R, G, B, G, d) == 60.0 * (t + 2.0);
    var h := Hue(R, G, B);
    assert h == 60.0 * (t + 2.0);
    MidWeightPiecewise(h);
    assert MidWeight(h) == t;
    ChromaTimes(d, t, B - R);
    MidIs(d, h, t, B - R);
    assert Sector(h, d, B - R) == Components(0.0, d, B - R);
    RestoredFrom(R, G, B, G, R, h, B - R);
  }

  // Green and blue equal and largest: hue 180.
  lemma SectorCyan(R: real, G: real, B: real)
    requires G == B > R
    ensures SectorRestored(R, G, B)
  {
    var d := G - R;
    assert MaxReal(R, MaxReal(G, B)) == G && MinReal(R, MinReal(G, B)) == R;
    assert (B - R) / d == 1.0;
    assert RawHue(R, G, B, G, d) == 120.0 + 60.0;
    var h := Hue(R, G, B);
    assert h == 180.0;
    MidWeightPiecewise(h);
    assert MidWeight(h) == 1.0;
  }

  // Blue largest, green next: hue in (180, 240).
  lemma SectorBlueGreen(R: real, G: real, B: real)
    requires B > G > R
    ensures SectorRestored(R, G, B)
  {
    var d := B - R;
    var t := (R - G) / d;
    RatioBounds(R - G, d);
    assert t > -1.0 by {
      ScaleOrder(-1.0, t, d);
    }
    assert MaxReal(R, MaxReal(G, B)) == B && MinReal(R, MinReal(G, B)) == R;
    assert RawHue(R, G, B, B, d) == 60.0 * (t + 4.0);
    var h := Hue(R, G, B);
    assert h == 60.0 * (t + 4.0);
    MidWeightPiecewise(h);
    assert MidWeight(h) == -t;
    ChromaTimes(d, t, R - G);
    MidIsNeg(d, h, t, R - G);
    assert Sector(h, d, -(R - G)) == Components(0.0, G - R, d);
    RestoredFrom(R, G, B, B, R, h, -(R - G));
  }

  // Blue largest, red next: hue in [240, 300).
  lemma SectorBlueRed(R: real, G: real, B: real)
    requires B > R >= G
    ensures SectorRestored(R, G, B)
  {
    var d := B - G;
    var t := (R - G) / d;
    RatioBounds(R - G, d);
    assert t < 1.0 by {
      ScaleOrder(t, 1.0, d);
    }
    assert MaxReal(R, MaxReal(G, B)) == B && MinReal(R, MinReal(G, B)) == G;
    assert RawHue(R, G, B, B, d) == 60.0 * (t + 4.0);
    var h := Hue(R, G, B);
    assert h == 60.0 * (t + 4.0);
    MidWeightPiecewise(h);
    assert MidWeight(h) == t;
    ChromaTimes(d, t, R - G);
    MidIs(d, h, t, R - G);
    assert Sector(h, d, R - G) == Components(R - G, 0.0, d);
    RestoredFrom(R, G, B, B, G, h, R - G);
  }

  /** The largest channel of `c` is `hi` and the smallest is `lo`. */
  predicate HasExtremes(c: Color, hi: int, lo: int) {
    Max3(c.r, c.g, c.b) == hi && Min3(c.r, c.g, c.b) == lo
  }

  /**
   * For hue in [0, 360) and saturation and value in [0, 1], the largest channel `fromHsv` gives is
   * `round(v * 255)` and the smallest is `round((v - v * s) * 255)`.
   */
  lemma FromHsvExtremes(h: real, s: real, v: real, a: real)
    requires 0.0 <= h < 360.0 && 0.0 <= s <= 1.0 && 0.0 <= v <= 1.0
    ensures HasExtremes(FromHsv(h, s, v, a), Round(v * 255.0), Round((v - v * s) * 255.0))
  {
    ProductBounds(v, s);
    SectorExtremes(h, v * s, v, a);
  }

  /** The middle component lies between 0 and the chroma. */
  lemma MidBounds(c: real, h: real)
    requires 0.0 <= c && 0.0 <= h < 360.0
    ensures 0.0 <= Mid(c, h) <= c
  {
    MidWeightPiecewise(h);
    var w := MidWeight(h);
    ProductBounds(c, w);
    assert Mid(c, h) == c * w;
  }

  lemma ProductBounds(a: real, b: real)
    requires 0.0 <= a && 0.0 <= b <= 1.0
    ensures 0.0 <= a * b <= a
  {
    if a > 0.0 {
      MulLe(b, 1.0, a);
      MulLe(0.0, b, a);
    }
  }

  /** The sector puts the chroma in one channel and 0 in another, so they become the extremes. */
  lemma SectorExtremes(h: real, c: real, v: real, a: real)
    requires 0.0 <= h < 360.0 && 0.0 <= c <= v <= 1.0
    ensures HasExtremes(FromChroma(h, c, v, a), Round(v * 255.0), Round((v - c) * 255.0))
  {
    var m := v - c;
    var x := Mid(c, h);
    MidBounds(c, h);
    RoundMonotone(m * 255.0, (x + m) * 255.0);
    RoundMonotone((x + m) * 255.0, v * 255.0);
    SectorChannels(h, c, x, v, a);
  }

  /**
   * Each channel of the shifted sector is the rounding of `m`, `x + m` or `v`, with `v` and `m`
   * both present.
   */
  lemma SectorChannels(h: real, c: real, x: real, v: real, a: real)
    requires 0.0 <= x <= c <= v <= 1.0
    ensures var m := v - c;
      var lo, mid, hi := Round(m * 255.0), Round((x + m) * 255.0), Round(v * 255.0);
      var res := Shift(Sector(h, c, x), m, a);
      res.r in {lo, mid, hi} && res.g in {lo, mid, hi} && res.b in {lo, mid, hi}
      && hi in {res.r, res.g, res.b} && lo in {res.r, res.g, res.b}
  {
    var m := v - c;
    var parts := Sector(h, c, x);
    assert (c + m) * 255.0 == v * 255.0;
    assert (0.0 + m) * 255.0 == m * 255.0;
    ShiftBytes(parts, m, a);
    if 0.0 <= h < 60.0 {
      assert parts == Components(c, x, 0.0);
    } else if h < 120.0 {
      assert parts == Components(x, c, 0.0);
    } else if h < 180.0 {
      assert parts == Components(0.0, c, x);
    } else if h < 240.0 {
      assert parts == Components(0.0, x, c);
    } else if h < 300.0 {
      assert parts == Components(x, 0.0, c);
    } else {
      assert parts == Components(c, 0.0, x);
    }
  }

  lemma RoundMonotone(x: real, y: real)
    requires x <= y
    ensures Round(x) <= Round(y)
  {
  }

  /** Pure red sits at hue 0. */
  lemma FromHsvRed()
    ensures FromHsv(0.0, 1.0, 1.0, 1.0) == Rgba(255, 0, 0, 1.0)
  {
    ToHsvRed();
    HsvRoundTrip(Rgba(255, 0, 0, 1.0));
  }

  /** Pure green sits at hue 120. */
  lemma FromHsvGreen()
    ensures FromHsv(120.0, 1.0, 1.0, 1.0) == Rgba(0, 255, 0, 1.0)
  {
    ToHsvGreen();
    HsvRoundTrip(Rgba(0, 255, 0, 1.0));
  }

  /** Pure blue sits at hue 240. */
  lemma FromHsvBlue()
    ensures FromHsv(240.0, 1.0, 1.0, 1.0) == Rgba(0, 0, 255, 1.0)
  {
    ToHsvBlue();
    HsvRoundTrip(Rgba(0, 0, 255, 1.0));
  }

  /** Pure red has hue 0 and full saturation and value. */
  lemma ToHsvRed()
    ensures ToHsv(Rgba(255, 0, 0, 1.0)) == Hsv(0.0, 1.0, 1.0, 1.0)
  {
    assert MaxReal(1.0, MaxReal(0.0, 0.0)) == 1.0 && MinReal(1.0, MinReal(0.0, 0.0)) == 0.0;
    assert FMod(0.0, 6.0) == 0.0;
    assert RawHue(1.0, 0.0, 0.0, 1.0, 1.0) == 0.0;
    assert Hue(1.0, 0.0, 0.0) == 0.0;
  }

  /** Pure green has hue 120. */
  lemma ToHsvGreen()
    ensures ToHsv(Rgba(0, 255, 0, 1.0)) == Hsv(120.0, 1.0, 1.0, 1.0)
  {
    assert MaxReal(0.0, MaxReal(1.0, 0.0)) == 1.0 && MinReal(0.0, MinReal(1.0, 0.0)) == 0.0;
    assert RawHue(0.0, 1.0, 0.0, 1.0, 1.0) == 120.0;
    assert Hue(0.0, 1.0, 0.0) == 120.0;
  }

  /** Pure blue has hue 240. */
  lemma ToHsvBlue()
    ensures ToHsv(Rgba(0, 0, 255, 1.0)) == Hsv(240.0, 1.0, 1.0, 1.0)
  {
    assert MaxReal(0.0, MaxReal(0.0, 1.0)) == 1.0 && MinReal(0.0, MinReal(0.0, 1.0)) == 0.0;
    assert RawHue(0.0, 0.0, 1.0, 1.0, 1.0) == 240.0;
    assert Hue(0.0, 0.0, 1.0) == 240.0;
  }

  // ---------------------------------------------------------------- alpha and equality

  /** `color.setAlpha(a)`: the same red, green and blue with alpha clamped into [0, 1]. */
  function SetAlpha(c: Color, a: real): (res: Color)
    ensures res.r == c.r && res.g == c.g && res.b == c.b
    ensures 0.0 <= a <= 1.0 ==> res.a == a
    ensures a < 0.0 ==> res.a == 0.0
    ensures a > 1.0 ==> res.a == 1.0
  {
    Make(c.r, c.g, c.b, MinReal(MaxReal(a, 0.0), 1.0))
  }

  /** `color.equals(other, tolerance)`: the same red, green and blue, alphas at most `tolerance` apart. */
  predicate Equals(c: Color, other: Color, tolerance: real)
    ensures Equals(c, other, tolerance) ==> tolerance >= 0.0 && c.r == other.r && c.g == other.g && c.b == other.b
    ensures tolerance == 0.0 ==> (Equals(c, other, tolerance) <==> c == other)
  {
    c.r == other.r && c.g == other.g && c.b == other.b && Abs(c.a - other.a) <= tolerance
  }

  lemma EqualsReflexive(c: Color, tolerance: real)
    requires tolerance >= 0.0
    ensures Equals(c, c, tolerance)
  {
  }

  lemma EqualsSymmetric(c: Color, other: Color, tolerance: real)
    ensures Equals(c, other, tolerance) <==> Equals(other, c, tolerance)
  {
  }

  /** With the default tolerance of zero, `equals` is exactly equality of colours. */
  lemma EqualsExact(c: Color, other: Color)
    ensures Equals(c, other, 0.0) <==> c == other
  {
  }
}
