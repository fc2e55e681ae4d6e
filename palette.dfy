/**
 * The palette store: an ordered list of colours with an "auto add" flag, insert-if-absent,
 * clearing, sorting by four orders, building a palette from the distinct colours of an RGBA
 * pixel buffer, and loading a GIMP palette (`.gpl`) text file.
 */
module Palettes {
  import opened Wrappers
  import opened Text
  import opened Colors

  /** The 32 opaque colours the palette starts with, dark red to purple, eight at a time. */
  const DefaultColors: seq<Color> := DefaultRow0 + DefaultRow1 + DefaultRow2 + DefaultRow3

  const DefaultRow0: seq<Color> := [
    Rgba(139, 0, 0, 1.0), Rgba(178, 34, 34, 1.0), Rgba(205, 92, 92, 1.0), Rgba(218, 165, 32, 1.0),
    Rgba(255, 215, 0, 1.0), Rgba(240, 230, 140, 1.0), Rgba(85, 107, 47, 1.0), Rgba(107, 142, 35, 1.0)
  ]
  const DefaultRow1: seq<Color> := [
    Rgba(34, 139, 34, 1.0), Rgba(60, 179, 113, 1.0), Rgba(0, 128, 128, 1.0), Rgba(64, 224, 208, 1.0),
    Rgba(0, 191, 255, 1.0), Rgba(30, 144, 255, 1.0), Rgba(65, 105, 225, 1.0), Rgba(138, 43, 226, 1.0)
  ]
  const DefaultRow2: seq<Color> := [
    Rgba(147, 112, 219, 1.0), Rgba(186, 85, 211, 1.0), Rgba(199, 21, 133, 1.0), Rgba(219, 112, 147, 1.0),
    Rgba(255, 105, 180, 1.0), Rgba(255, 20, 147, 1.0), Rgba(255, 0, 0, 1.0), Rgba(255, 69, 0, 1.0)
  ]
  const DefaultRow3: seq<Color> := [
    Rgba(255, 140, 0, 1.0), Rgba(255, 165, 0, 1.0), Rgba(154, 205, 50, 1.0), Rgba(0, 100, 0, 1.0),
    Rgba(0, 255, 127, 1.0), Rgba(0, 255, 255, 1.0), Rgba(70, 130, 180, 1.0), Rgba(128, 0, 128, 1.0)
  ]

  /** No colour occurs twice. */
  predicate NoDuplicates(s: seq<Color>) {
    forall i, j :: 0 <= i < j < |s| ==> s[i] != s[j]
  }

  /** No colour of `s` occurs in `t`. */
  predicate Disjoint(s: seq<Color>, t: seq<Color>) {
    forall i, j :: 0 <= i < |s| && 0 <= j < |t| ==> s[i] != t[j]
  }

  lemma ConcatNoDuplicates(s: seq<Color>, t: seq<Color>)
    requires NoDuplicates(s) && NoDuplicates(t) && Disjoint(s, t)
    ensures NoDuplicates(s + t)
  {
    var r := s + t;
    forall i, j | 0 <= i < j < |r| ensures r[i] != r[j] {
      if j < |s| {
        assert r[i] == s[i] && r[j] == s[j];
      } else if i < |s| {
        assert r[i] == s[i] && r[j] == t[j - |s|];
      } else {
        assert r[i] == t[i - |s|] && r[j] == t[j - |s|];
      }
    }
  }

  lemma DisjointConcat(s: seq<Color>, t: seq<Color>, u: seq<Color>)
    requires Disjoint(s, u) && Disjoint(t, u)
    ensures Disjoint(s + t, u)
  {
    var r := s + t;
    forall i, j | 0 <= i < |r| && 0 <= j < |u| ensures r[i] != u[j] {
      if i < |s| {
        assert r[i] == s[i];
      } else {
        assert r[i] == t[i - |s|];
      }
    }
  }

  lemma DefaultRowsDistinct()
    ensures NoDuplicates(DefaultRow0) && NoDuplicates(DefaultRow1)
    ensures NoDuplicates(DefaultRow2) && NoDuplicates(DefaultRow3)
  {
  }

  lemma DefaultRowsDisjoint()
    ensures Disjoint(DefaultRow0, DefaultRow1) && Disjoint(DefaultRow0, DefaultRow2)
    ensures Disjoint(DefaultRow1, DefaultRow2) && Disjoint(DefaultRow0, DefaultRow3)
    ensures Disjoint(DefaultRow1, DefaultRow3) && Disjoint(DefaultRow2, DefaultRow3)
  {
  }

  /** The initial palette holds 32 distinct opaque colours. */
  lemma DefaultColorsDistinct()
    ensures |DefaultColors| == 32
    ensures forall k :: 0 <= k < |DefaultColors| ==> DefaultColors[k].a == 1.0
    ensures NoDuplicates(DefaultColors)
  {
    DefaultRowsDistinct();
    DefaultRowsDisjoint();
    ConcatNoDuplicates(DefaultRow0, DefaultRow1);
    DisjointConcat(DefaultRow0, DefaultRow1, DefaultRow2);
    ConcatNoDuplicates(DefaultRow0 + DefaultRow1, DefaultRow2);
    DisjointConcat(DefaultRow0, DefaultRow1, DefaultRow3);
    DisjointConcat(DefaultRow0 + DefaultRow1, DefaultRow2, DefaultRow3);
    ConcatNoDuplicates(DefaultRow0 + DefaultRow1 + DefaultRow2, DefaultRow3);
  }

  // ---------------------------------------------------------------- membership

  /** `palette.some(existing => existing.equals(color))`, scanning from the front. */
  function AnyEquals(s: seq<Color>, c: Color): (found: bool)
    ensures found <==> exists k :: 0 <= k < |s| && Equals(s[k], c, 0.0)
  {
    if |s| == 0 then false
    else
      assert forall k :: 1 <= k < |s| ==> s[k] == s[1..][k - 1];
      Equals(s[0], c, 0.0) || AnyEquals(s[1..], c)
  }

  /** With the default tolerance 0, the `some`/`equals` scan is exactly membership. */
  lemma {:induction false} AnyEqualsIsMembership(s: seq<Color>, c: Color)
    ensures AnyEquals(s, c) <==> c in s
  {
    if |s| > 0 {
      EqualsExact(s[0], c);
      AnyEqualsIsMembership(s[1..], c);
      assert s == [s[0]] + s[1..];
    }
  }

  /** The palette after `addColor(c)`: unchanged when `c` is present, otherwise `c` appended last. */
  function WithColor(s: seq<Color>, c: Color): (r: seq<Color>)
    ensures c in r
    ensures c in s ==> r == s
    ensures c !in s ==> r == s + [c]
  {
    AnyEqualsIsMembership(s, c);
    if AnyEquals(s, c) then s else s + [c]
  }

  /** Adding a colour twice is the same as adding it once. */
  lemma WithColorIdempotent(s: seq<Color>, c: Color)
    ensures WithColor(WithColor(s, c), c) == WithColor(s, c)
  {
  }

  /** Insert-if-absent keeps a palette free of duplicates and keeps every earlier entry in place. */
  lemma WithColorKeepsDistinct(s: seq<Color>, c: Color)
    requires NoDuplicates(s)
    ensures NoDuplicates(WithColor(s, c))
    ensures WithColor(s, c)[..|s|] == s
  {
    if c !in s {
      var r := s + [c];
      assert r[..|s|] == s;
      forall i, j | 0 <= i < j < |r| ensures r[i] != r[j] {
        if j == |s| {
          assert r[i] == s[i];
        }
      }
    }
  }

  // ---------------------------------------------------------------- sorting

  /** The `order` argument of `sortPalette`; `Other` stands for any value the `switch` does not name. */
  datatype SortOrder = ByHue | ByValue | BySaturation | ByLuminance | Other

  /** `0.299 r + 0.587 g + 0.114 b`, the weighted brightness the luminance order sorts by. */
  function Luminance(c: Color): (l: real)
    ensures 0.0 <= l <= 255.0
  {
    0.299 * c.r as real + 0.587 * c.g as real + 0.114 * c.b as real
  }

  /** The comparator's tie-break: the first difference whose keys lie more than 0.001 apart, else the third. */
  function Tiered(x1: real, y1: real, x2: real, y2: real, x3: real, y3: real): (d: real)
    ensures d == 0.0 <==> Abs(x1 - y1) <= 0.001 && Abs(x2 - y2) <= 0.001 && x3 == y3
  {
    if Abs(x1 - y1) > 0.001 then x1 - y1
    else if Abs(x2 - y2) > 0.001 then x2 - y2
    else x3 - y3
  }

  /** The comparator on the HSV keys and luminances of its two arguments. */
  function CompareKeys(order: SortOrder, ha: Hsv, hb: Hsv, la: real, lb: real): (d: real)
    ensures order == Other ==> d == 0.0
    ensures order == ByLuminance ==> (d < 0.0 <==> la > lb)
    ensures ha == hb && la == lb ==> d == 0.0
  {
    match order
    case ByHue => Tiered(ha.h, hb.h, ha.s, hb.s, ha.v, hb.v)
    case ByValue => Tiered(hb.v, ha.v, hb.h, ha.h, hb.s, ha.s)
    case BySaturation => Tiered(hb.s, ha.s, hb.v, ha.v, ha.h, hb.h)
    case ByLuminance => lb - la
    case Other => 0.0
  }

  /** The comparator `sortPalette` hands to `Array.prototype.sort`: negative puts `a` first. */
  function Compare(order: SortOrder, a: Color, b: Color): (d: real)
    ensures a == b ==> d == 0.0
    ensures order == Other ==> d == 0.0
  {
    CompareKeys(order, ToHsv(a), ToHsv(b), Luminance(a), Luminance(b))
  }

  lemma TieredAntisymmetric(x1: real, y1: real, x2: real, y2: real, x3: real, y3: real)
    ensures Tiered(y1, x1, y2, x2, y3, x3) == -Tiered(x1, y1, x2, y2, x3, y3)
  {
  }

  /** Swapping the arguments negates the comparison, in every branch. */
  lemma CompareAntisymmetric(order: SortOrder, a: Color, b: Color)
    ensures Compare(order, b, a) == -Compare(order, a, b)
  {
    var ha, hb := ToHsv(a), ToHsv(b);
    match order {
      case ByHue => TieredAntisymmetric(ha.h, hb.h, ha.s, hb.s, ha.v, hb.v);
      case ByValue => TieredAntisymmetric(hb.v, ha.v, hb.h, ha.h, hb.s, ha.s);
      case BySaturation => TieredAntisymmetric(hb.s, ha.s, hb.v, ha.v, ha.h, hb.h);
      case ByLuminance =>
      case Other =>
    }
  }

  /** A colour compares equal to itself, in every branch. */
  lemma CompareSame(order: SortOrder, c: Color)
    ensures Compare(order, c, c) == 0.0
  {
    CompareAntisymmetric(order, c, c);
  }

  /** Under the luminance order, `a` may stay before `b` exactly when it is at least as bright. */
  lemma CompareLuminance(a: Color, b: Color)
    ensures Compare(ByLuminance, a, b) <= 0.0 <==> Luminance(a) >= Luminance(b)
  {
  }

  /** A comparator as `Array.prototype.sort` takes one: a positive result moves the first argument after the second. */
  type Comparator = (Color, Color) -> real

  /** The comparator `sortPalette` passes to `sort` for `order`. */
  function ComparatorFor(order: SortOrder): Comparator {
    (a: Color, b: Color) => Compare(order, a, b)
  }

  /**
   * Inserts `x` in front of the first element it may stay before. Used below to build a stable
   * insertion sort: `x` precedes every element the comparator calls equal to it.
   */
  function Insert(cmp: Comparator, x: Color, s: seq<Color>): (r: seq<Color>)
    ensures multiset(r) == multiset(s) + multiset{x}
  {
    if |s| == 0 then [x]
    else if cmp(x, s[0]) <= 0.0 then [x] + s
    else
      assert s == [s[0]] + s[1..];
      [s[0]] + Insert(cmp, x, s[1..])
  }

  /** `palette.sort(comparator)`: a stable sort, a permutation of its input. */
  function StableSort(cmp: Comparator, s: seq<Color>): (r: seq<Color>)
    ensures multiset(r) == multiset(s)
    ensures |r| == |s|
  {
    if |s| == 0 then []
    else
      assert s == [s[0]] + s[1..];
      Insert(cmp, s[0], StableSort(cmp, s[1..]))
  }

  /** Luminance does not increase along `s`. */
  predicate ByDecreasingLuminance(s: seq<Color>) {
    forall i, j :: 0 <= i < j < |s| ==> Luminance(s[i]) >= Luminance(s[j])
  }

  /** `cmp` lets `a` stay before `b` exactly when `a` is at least as bright. */
  ghost predicate OrdersByLuminance(cmp: Comparator) {
    forall a: Color, b: Color :: cmp(a, b) <= 0.0 <==> Luminance(a) >= Luminance(b)
  }

  /** The luminance branch of the comparator is such a comparator. */
  lemma LuminanceComparator()
    ensures OrdersByLuminance(ComparatorFor(ByLuminance))
  {
    forall a: Color, b: Color
      ensures ComparatorFor(ByLuminance)(a, b) <= 0.0 <==> Luminance(a) >= Luminance(b)
    {
      CompareLuminance(a, b);
    }
  }

  /** A colour at least as bright as everything in a luminance-ordered list may go in front of it. */
  lemma PrependKeepsLuminanceOrder(y: Color, t: seq<Color>)
    requires ByDecreasingLuminance(t)
    requires forall z :: z in t ==> Luminance(z) <= Luminance(y)
    ensures ByDecreasingLuminance([y] + t)
  {
    var r := [y] + t;
    forall i, j | 0 <= i < j < |r| ensures Luminance(r[i]) >= Luminance(r[j]) {
      assert r[j] == t[j - 1];
      if i > 0 {
        assert r[i] == t[i - 1];
      }
    }
  }

  /** Every entry after an insertion is the inserted colour or was there before. */
  lemma InsertMembers(cmp: Comparator, x: Color, s: seq<Color>, y: Color)
    requires y in Insert(cmp, x, s)
    ensures y == x || y in s
  {
    assert y in multiset(Insert(cmp, x, s));
  }

  lemma {:induction false} InsertKeepsLuminanceOrder(cmp: Comparator, x: Color, s: seq<Color>)
    requires OrdersByLuminance(cmp)
    requires ByDecreasingLuminance(s)
    ensures ByDecreasingLuminance(Insert(cmp, x, s))
  {
    if |s| > 0 {
      if cmp(x, s[0]) > 0.0 {
        var t := Insert(cmp, x, s[1..]);
        InsertKeepsLuminanceOrder(cmp, x, s[1..]);
        forall y | y in t ensures Luminance(y) <= Luminance(s[0]) {
          InsertMembers(cmp, x, s[1..], y);
        }
        PrependKeepsLuminanceOrder(s[0], t);
      } else {
        PrependKeepsLuminanceOrder(x, s);
      }
    }
  }

  lemma {:induction false} SortKeepsLuminanceOrder(cmp: Comparator, s: seq<Color>)
    requires OrdersByLuminance(cmp)
    ensures ByDecreasingLuminance(StableSort(cmp, s))
  {
    if |s| > 0 {
      SortKeepsLuminanceOrder(cmp, s[1..]);
      InsertKeepsLuminanceOrder(cmp, s[0], StableSort(cmp, s[1..]));
    }
  }

  /** After sorting by luminance, luminance is non-increasing along the palette. */
  lemma LuminanceSorted(s: seq<Color>)
    ensures ByDecreasingLuminance(StableSort(ComparatorFor(ByLuminance), s))
  {
    LuminanceComparator();
    SortKeepsLuminanceOrder(ComparatorFor(ByLuminance), s);
  }

  /** The entries of `s` whose luminance is `l`, in their order in `s`. */
  function OfLuminance(s: seq<Color>, l: real): seq<Color> {
    if |s| == 0 then []
    else (if Luminance(s[0]) == l then [s[0]] else []) + OfLuminance(s[1..], l)
  }

  lemma {:induction false} InsertOfLuminance(cmp: Comparator, x: Color, s: seq<Color>, l: real)
    requires OrdersByLuminance(cmp)
    requires ByDecreasingLuminance(s)
    ensures OfLuminance(Insert(cmp, x, s), l)
      == (if Luminance(x) == l then [x] else []) + OfLuminance(s, l)
    decreases |s|
  {
    if |s| > 0 {
      if cmp(x, s[0]) <= 0.0 {
        assert ([x] + s)[1..] == s;
      } else {
        assert Luminance(x) < Luminance(s[0]);
        var t := Insert(cmp, x, s[1..]);
        DecreasingTail(s);
        InsertOfLuminance(cmp, x, s[1..], l);
        assert Insert(cmp, x, s) == [s[0]] + t;
        assert ([s[0]] + t)[1..] == t;
        var head := if Luminance(s[0]) == l then [s[0]] else [];
        assert OfLuminance([s[0]] + t, l) == head + OfLuminance(t, l);
        assert OfLuminance(s, l) == head + OfLuminance(s[1..], l);
        if Luminance(x) == l {
          assert head == [];
        }
      }
    }
  }

  /** Dropping the first entry keeps a list ordered by luminance. */
  lemma DecreasingTail(s: seq<Color>)
    requires |s| > 0 && ByDecreasingLuminance(s)
    ensures ByDecreasingLuminance(s[1..])
  {
    forall i, j | 0 <= i < j < |s[1..]| ensures Luminance(s[1..][i]) >= Luminance(s[1..][j]) {
      assert s[1..][i] == s[i + 1] && s[1..][j] == s[j + 1];
    }
  }

  lemma {:induction false} SortOfLuminance(cmp: Comparator, s: seq<Color>, l: real)
    requires OrdersByLuminance(cmp)
    ensures OfLuminance(StableSort(cmp, s), l) == OfLuminance(s, l)
  {
    if |s| > 0 {
      SortOfLuminance(cmp, s[1..], l);
      SortKeepsLuminanceOrder(cmp, s[1..]);
      InsertOfLuminance(cmp, s[0], StableSort(cmp, s[1..]), l);
    }
  }

  /** Sorting by luminance keeps entries of equal luminance in their previous relative order. */
  lemma LuminanceStable(s: seq<Color>, l: real)
    ensures OfLuminance(StableSort(ComparatorFor(ByLuminance), s), l) == OfLuminance(s, l)
  {
    LuminanceComparator();
    SortOfLuminance(ComparatorFor(ByLuminance), s, l);
  }

  /** A comparator that never asks to move anything leaves the list as it was. */
  lemma {:induction false} SortKeepsUnmoved(cmp: Comparator, s: seq<Color>)
    requires forall a: Color, b: Color :: cmp(a, b) <= 0.0
    ensures StableSort(cmp, s) == s
  {
    if |s| > 0 {
      SortKeepsUnmoved(cmp, s[1..]);
      assert s == [s[0]] + s[1..];
    }
  }

  /** The `default` branch calls every pair equal, so sorting leaves the palette as it was. */
  lemma OtherOrderKeepsPalette(s: seq<Color>)
    ensures StableSort(ComparatorFor(Other), s) == s
  {
    SortKeepsUnmoved(ComparatorFor(Other), s);
  }

  // ---------------------------------------------------------------- palette from image pixels

  /** One channel byte of the canvas's RGBA buffer (`Uint8ClampedArray`). */
  type Byte = x: int | 0 <= x < 256

  datatype Pixel = Pixel(r: Byte, g: Byte, b: Byte, a: Byte)

  /** Pixel `k` of an RGBA buffer: bytes `4k` to `4k + 3`. */
  function PixelAt(data: seq<Byte>, k: nat): Pixel
    requires 4 * k + 4 <= |data|
  {
    Pixel(data[4 * k], data[4 * k + 1], data[4 * k + 2], data[4 * k + 3])
  }

  /** The first `n` pixels of an RGBA buffer, in buffer order. */
  function PixelsOf(data: seq<Byte>, n: nat): (ps: seq<Pixel>)
    requires 4 * n <= |data|
    ensures |ps| == n
  {
    if n == 0 then [] else PixelsOf(data, n - 1) + [PixelAt(data, n - 1)]
  }

  /** All pixels of an RGBA buffer of whole pixels. */
  function Pixels(data: seq<Byte>): (ps: seq<Pixel>)
    requires |data| % 4 == 0
    ensures |ps| == |data| / 4
  {
    PixelsOf(data, |data| / 4)
  }

  lemma {:induction false} PixelsOfAt(data: seq<Byte>, n: nat, k: nat)
    requires 4 * n <= |data| && k < n
    ensures PixelsOf(data, n)[k] == PixelAt(data, k)
  {
    if k < n - 1 {
      PixelsOfAt(data, n - 1, k);
    }
  }

  /** Pixel `k` of the buffer is made of bytes `4k` to `4k + 3`. */
  lemma PixelsAt(data: seq<Byte>, k: nat)
    requires |data| % 4 == 0 && k < |data| / 4
    ensures Pixels(data)[k] == Pixel(data[4 * k], data[4 * k + 1], data[4 * k + 2], data[4 * k + 3])
  {
    PixelsOfAt(data, |data| / 4, k);
  }

  /** Bytes appended after the first `n` pixels do not change them. */
  lemma {:induction false} PixelsOfExtend(data: seq<Byte>, more: seq<Byte>, n: nat)
    requires 4 * n <= |data|
    ensures PixelsOf(data + more, n) == PixelsOf(data, n)
  {
    if n > 0 {
      PixelsOfExtend(data, more, n - 1);
      assert PixelAt(data + more, n - 1) == PixelAt(data, n - 1);
    }
  }

  /** The pixels whose alpha byte is at least 10, in order: fainter pixels are skipped. */
  function Visible(ps: seq<Pixel>): (vs: seq<Pixel>)
    ensures |vs| <= |ps|
    ensures forall p :: p in vs <==> p in ps && p.a >= 10
  {
    if |ps| == 0 then []
    else
      var p := ps[|ps| - 1];
      Visible(ps[..|ps| - 1]) + (if p.a >= 10 then [p] else [])
  }

  lemma VisibleSnoc(ps: seq<Pixel>, p: Pixel)
    ensures Visible(ps + [p]) == Visible(ps) + (if p.a >= 10 then [p] else [])
  {
    assert (ps + [p])[..|ps|] == ps;
  }

  /** The first occurrence of each pixel, in order: the iteration order of a JS `Set` filled from `ps`. */
  function Distinct(ps: seq<Pixel>): (ds: seq<Pixel>)
    ensures |ds| <= |ps|
    ensures forall p :: p in ds <==> p in ps
  {
    if |ps| == 0 then []
    else
      var d := Distinct(ps[..|ps| - 1]);
      var p := ps[|ps| - 1];
      if p in d then d else d + [p]
  }

  lemma DistinctSnoc(ps: seq<Pixel>, p: Pixel)
    ensures Distinct(ps + [p]) == if p in ps then Distinct(ps) else Distinct(ps) + [p]
  {
    assert (ps + [p])[..|ps|] == ps;
  }

  /** `new Color(r, g, b, a / 255)`, the palette entry made from a pixel. */
  function PixelColor(p: Pixel): (c: Color)
    ensures c == Rgba(p.r, p.g, p.b, p.a as real / 255.0)
  {
    Make(p.r, p.g, p.b, p.a as real / 255.0)
  }

  /** The `Set` key `${r},${g},${b},${Math.round(a)}`; rounding an integer byte changes nothing. */
  function PixelKey(p: Pixel): string {
    Decimal(p.r) + "," + Decimal(p.g) + "," + Decimal(p.b) + "," + Decimal(p.a)
  }

  /**
   * `key.split(',').map(Number)` destructured into `r, g, b, a`, then `new Color(r, g, b, a / 255)`.
   * `Number` and `parseInt` agree on the decimal numerals a key holds; `None` stands for a key with
   * a missing or non-numeric field.
   */
  function KeyColor(key: string): (c: Option<Color>)
    ensures var parts := Split(key, ',');
      c.Some? <==> (|parts| >= 4 && ParseInt(parts[0]).Some? && ParseInt(parts[1]).Some?
                    && ParseInt(parts[2]).Some? && ParseInt(parts[3]).Some?)
  {
    var parts := Split(key, ',');
    if |parts| < 4 then None
    else
      var r, g, b, a := ParseInt(parts[0]), ParseInt(parts[1]), ParseInt(parts[2]), ParseInt(parts[3]);
      if r.Some? && g.Some? && b.Some? && a.Some? then Some(Make(r.value, g.value, b.value, a.value as real / 255.0))
      else None
  }

  /** A key splits back into the four numerals it was built from. */
  lemma SplitKey(p: Pixel)
    ensures Split(PixelKey(p), ',') == [Decimal(p.r), Decimal(p.g), Decimal(p.b), Decimal(p.a)]
  {
    DecimalNoComma(p.r);
    DecimalNoComma(p.g);
    DecimalNoComma(p.b);
    DecimalNoComma(p.a);
    SplitFour(Decimal(p.r), Decimal(p.g), Decimal(p.b), Decimal(p.a));
  }

  lemma DecimalNoComma(n: nat)
    ensures ',' !in Decimal(n)
  {
    var s := Decimal(n);
    forall k | 0 <= k < |s| ensures s[k] != ',' {
      assert '0' <= s[k] <= '9';
    }
  }

  /** Four comma-free fields joined by commas split back into those fields. */
  lemma SplitFour(r: string, g: string, b: string, a: string)
    requires ',' !in r && ',' !in g && ',' !in b && ',' !in a
    ensures Split(r + "," + g + "," + b + "," + a, ',') == [r, g, b, a]
  {
    assert r + "," + g + "," + b + "," + a == r + [','] + (g + [','] + (b + [','] + a));
    SplitNone(a, ',');
    SplitCons(b, ',', a);
    SplitCons(g, ',', b + [','] + a);
    SplitCons(r, ',', g + [','] + (b + [','] + a));
  }

  /** Decoding a key gives back the colour of the pixel it was made from. */
  lemma KeyRoundTrip(p: Pixel)
    ensures KeyColor(PixelKey(p)) == Some(PixelColor(p))
  {
    ParseIntDecimal(p.r);
    ParseIntDecimal(p.g);
    ParseIntDecimal(p.b);
    ParseIntDecimal(p.a);
    SplitKey(p);
    KeyColorOfPixel(PixelKey(p), Decimal(p.r), Decimal(p.g), Decimal(p.b), Decimal(p.a), p);
  }

  /** A key that splits into four fields reading back as the bytes of `p` decodes to `p`'s colour. */
  lemma KeyColorOfPixel(key: string, wr: string, wg: string, wb: string, wa: string, p: Pixel)
    requires Split(key, ',') == [wr, wg, wb, wa]
    requires ParseInt(wr) == Some(p.r) && ParseInt(wg) == Some(p.g)
    requires ParseInt(wb) == Some(p.b) && ParseInt(wa) == Some(p.a)
    ensures KeyColor(key) == Some(PixelColor(p))
  {
  }

  /** Four comma-free numerals joined by commas decode to the colour of their numbers. */
  lemma KeyOfNumerals(wr: string, wg: string, wb: string, wa: string, r: int, g: int, b: int, a: int)
    requires ',' !in wr && ',' !in wg && ',' !in wb && ',' !in wa
    requires ParseInt(wr) == Some(r) && ParseInt(wg) == Some(g)
    requires ParseInt(wb) == Some(b) && ParseInt(wa) == Some(a)
    ensures KeyColor(wr + "," + wg + "," + wb + "," + wa) == Some(Make(r, g, b, a as real / 255.0))
  {
    SplitFour(wr, wg, wb, wa);
    KeyColorOfParts(wr + "," + wg + "," + wb + "," + wa, [wr, wg, wb, wa], r, g, b, a);
  }

  /** A key whose four fields read as numbers decodes to the colour of those numbers. */
  lemma KeyColorOfParts(key: string, ws: seq<string>, r: int, g: int, b: int, a: int)
    requires Split(key, ',') == ws && |ws| == 4
    requires ParseInt(ws[0]) == Some(r) && ParseInt(ws[1]) == Some(g)
    requires ParseInt(ws[2]) == Some(b) && ParseInt(ws[3]) == Some(a)
    ensures KeyColor(key) == Some(Make(r, g, b, a as real / 255.0))
  {
  }

  /** Different pixels have different keys, so the string `Set` deduplicates exactly the pixels. */
  lemma PixelKeyInjective(p: Pixel, q: Pixel)
    requires PixelKey(p) == PixelKey(q)
    ensures p == q
  {
    SplitKey(p);
    SplitKey(q);
    var sp, sq := Split(PixelKey(p), ','), Split(PixelKey(q), ',');
    assert sp[0] == sq[0] && sp[1] == sq[1] && sp[2] == sq[2] && sp[3] == sq[3];
    ParseIntDecimal(p.r);
    ParseIntDecimal(q.r);
    ParseIntDecimal(p.g);
    ParseIntDecimal(q.g);
    ParseIntDecimal(p.b);
    ParseIntDecimal(q.b);
    ParseIntDecimal(p.a);
    ParseIntDecimal(q.a);
  }

  /** The keys of a sequence of pixels, in the same order. */
  function Keys(ps: seq<Pixel>): (ks: seq<string>)
    ensures |ks| == |ps|
  {
    seq(|ps|, k requires 0 <= k < |ps| => PixelKey(ps[k]))
  }

  lemma KeysMembership(ps: seq<Pixel>, p: Pixel)
    ensures PixelKey(p) in Keys(ps) <==> p in ps
  {
    if PixelKey(p) in Keys(ps) {
      var k :| 0 <= k < |ps| && Keys(ps)[k] == PixelKey(p);
      PixelKeyInjective(p, ps[k]);
    }
    if p in ps {
      var k :| 0 <= k < |ps| && ps[k] == p;
      assert Keys(ps)[k] == PixelKey(p);
    }
  }

  /** The palette entries made from a sequence of pixels, one each, in the same order. */
  function PixelColors(ps: seq<Pixel>): (cs: seq<Color>)
    ensures |cs| == |ps|
    ensures forall k :: 0 <= k < |ps| ==> cs[k] == PixelColor(ps[k])
  {
    if |ps| == 0 then [] else PixelColors(ps[..|ps| - 1]) + [PixelColor(ps[|ps| - 1])]
  }

  /** The palette `generatePaletteFromImage` builds from an RGBA buffer. */
  function ImageColors(data: seq<Byte>): (cs: seq<Color>)
    requires |data| % 4 == 0
    ensures |cs| <= |data| / 4
  {
    PixelColors(Distinct(Visible(Pixels(data))))
  }

  /** The colour decoded from the `j`-th key of a sequence of pixels is that pixel's colour. */
  lemma KeyAt(ps: seq<Pixel>, j: int)
    requires 0 <= j < |ps|
    ensures KeyColor(Keys(ps)[j]) == Some(PixelColor(ps[j]))
  {
    KeyRoundTrip(ps[j]);
  }

  /** `Distinct` keeps exactly one copy of each pixel. */
  lemma {:induction false} DistinctNoDuplicates(ps: seq<Pixel>)
    ensures forall i, j :: 0 <= i < j < |Distinct(ps)| ==> Distinct(ps)[i] != Distinct(ps)[j]
  {
    if |ps| > 0 {
      DistinctNoDuplicates(ps[..|ps| - 1]);
    }
  }

  /** The index of the first occurrence of `p` in `ps`. */
  function FirstIndex(ps: seq<Pixel>, p: Pixel): (k: nat)
    requires p in ps
    ensures k < |ps| && ps[k] == p
    ensures forall j :: 0 <= j < k ==> ps[j] != p
  {
    if ps[0] == p then 0 else 1 + FirstIndex(ps[1..], p)
  }

  lemma {:induction false} FirstIndexPrefix(ps: seq<Pixel>, q: Pixel, p: Pixel)
    requires p in ps
    ensures FirstIndex(ps + [q], p) == FirstIndex(ps, p)
  {
    if ps[0] != p {
      assert (ps + [q])[1..] == ps[1..] + [q];
      FirstIndexPrefix(ps[1..], q, p);
    }
  }

  /** `Distinct` lists the pixels in the order of their first occurrence. */
  lemma {:induction false} DistinctFirstOccurrenceOrder(ps: seq<Pixel>)
    ensures forall i, j :: 0 <= i < j < |Distinct(ps)| ==>
      FirstIndex(ps, Distinct(ps)[i]) < FirstIndex(ps, Distinct(ps)[j])
  {
    if |ps| > 0 {
      var init := ps[..|ps| - 1];
      var p := ps[|ps| - 1];
      assert ps == init + [p];
      DistinctFirstOccurrenceOrder(init);
      var d := Distinct(init);
      forall q | q in init ensures FirstIndex(ps, q) == FirstIndex(init, q) {
        FirstIndexPrefix(init, p, q);
      }
      if p !in d {
        assert FirstIndex(ps, p) == |init|;
      }
    }
  }

  /** The generated palette has no duplicates. */
  lemma ImageColorsDistinct(data: seq<Byte>)
    requires |data| % 4 == 0
    ensures NoDuplicates(ImageColors(data))
  {
    var ds := Distinct(Visible(Pixels(data)));
    DistinctNoDuplicates(Visible(Pixels(data)));
    forall i, j | 0 <= i < j < |ds| ensures PixelColor(ds[i]) != PixelColor(ds[j]) {
      if PixelColor(ds[i]) == PixelColor(ds[j]) {
        PixelColorInjective(ds[i], ds[j]);
      }
    }
  }

  lemma PixelColorInjective(p: Pixel, q: Pixel)
    requires PixelColor(p) == PixelColor(q)
    ensures p == q
  {
    assert p.a as real / 255.0 == q.a as real / 255.0;
  }

  /** A colour is in the generated palette exactly when some pixel of alpha at least 10 has it. */
  lemma ImageColorsExactly(data: seq<Byte>, c: Color)
    requires |data| % 4 == 0
    ensures c in ImageColors(data) <==> exists p :: p in Pixels(data) && p.a >= 10 && PixelColor(p) == c
  {
    PixelColorsMembership(Distinct(Visible(Pixels(data))), c);
  }

  lemma PixelColorsMembership(ps: seq<Pixel>, c: Color)
    ensures c in PixelColors(ps) <==> exists p :: p in ps && PixelColor(p) == c
  {
    var cs := PixelColors(ps);
    if c in cs {
      var k :| 0 <= k < |cs| && cs[k] == c;
      assert ps[k] in ps;
    }
    if exists p :: p in ps && PixelColor(p) == c {
      var p :| p in ps && PixelColor(p) == c;
      var k :| 0 <= k < |ps| && ps[k] == p;
      assert cs[k] == c;
    }
  }

  /**
   * One more pixel: its key joins the keys of the distinct visible pixels when the pixel is visible
   * and its key is not already there.
   */
  lemma VisibleKeysSnoc(ps: seq<Pixel>, p: Pixel)
    ensures Keys(Distinct(Visible(ps + [p]))) == WithKey(Keys(Distinct(Visible(ps))), p)
  {
    if p.a >= 10 {
      VisibleKeyStep(ps, p);
    } else {
      VisibleSnoc(ps, p);
      assert Visible(ps) + [] == Visible(ps);
    }
  }

  /** The key set after `colorSet.add(key)` for pixel `p`, a no-op for a faint pixel. */
  function WithKey(ks: seq<string>, p: Pixel): seq<string> {
    if p.a >= 10 && PixelKey(p) !in ks then ks + [PixelKey(p)] else ks
  }

  lemma VisibleKeyStep(ps: seq<Pixel>, p: Pixel)
    requires p.a >= 10
    ensures var ks := Keys(Distinct(Visible(ps)));
      Keys(Distinct(Visible(ps + [p]))) == if PixelKey(p) !in ks then ks + [PixelKey(p)] else ks
  {
    VisibleSnoc(ps, p);
    var before := Distinct(Visible(ps));
    DistinctSnoc(Visible(ps), p);
    KeysMembership(before, p);
    KeysSnoc(before, p);
  }

  lemma KeysSnoc(ps: seq<Pixel>, p: Pixel)
    ensures Keys(ps + [p]) == Keys(ps) + [PixelKey(p)]
  {
    assert Keys(ps + [p])[|ps|] == PixelKey(p);
  }

  /** A pixel with alpha below 10 contributes nothing. */
  lemma FaintPixelIgnored(data: seq<Byte>, r: Byte, g: Byte, b: Byte, a: Byte)
    requires |data| % 4 == 0 && a < 10
    ensures ImageColors(data + [r, g, b, a]) == ImageColors(data)
  {
    PixelsAppend(data, r, g, b, a);
    VisibleSnoc(Pixels(data), Pixel(r, g, b, a));
    assert Visible(Pixels(data)) + [] == Visible(Pixels(data));
  }

  /** Four more bytes at the end of the buffer make one more pixel at the end. */
  lemma PixelsAppend(data: seq<Byte>, r: Byte, g: Byte, b: Byte, a: Byte)
    requires |data| % 4 == 0
    ensures |(data + [r, g, b, a])| % 4 == 0
    ensures Pixels(data + [r, g, b, a]) == Pixels(data) + [Pixel(r, g, b, a)]
  {
    var more := data + [r, g, b, a];
    var n := |data| / 4;
    assert |more| / 4 == n + 1;
    PixelsOfExtend(data, [r, g, b, a], n);
    assert PixelAt(more, n) == Pixel(r, g, b, a);
  }

  /**
   * The pixel loop of `generatePaletteFromImage`: the key of every pixel with alpha at least 10,
   * added to a `Set` (kept here as a sequence in insertion order).
   */
  method CollectPixelKeys(data: seq<Byte>) returns (colorSet: seq<string>)
    requires |data| % 4 == 0
    ensures colorSet == Keys(Distinct(Visible(Pixels(data))))
  {
    colorSet := [];
    ghost var total := PixelCount(|data|);
    var i := 0;
    ghost var k := 0;
    while i < |data|
      invariant i == 4 * k && 0 <= k <= total && |data| - i == 4 * (total - k)
      invariant colorSet == Keys(Distinct(Visible(PixelsOf(data, k))))
    {
      assert 4 * k + 4 <= |data|;
      var r, g, b, a := data[i], data[i + 1], data[i + 2], data[i + 3];
      var pixel := Pixel(r, g, b, a);
      assert pixel == PixelAt(data, k);
      colorSet := AddPixelKey(colorSet, pixel, PixelsOf(data, k));
      i := i + 4;
      k := k + 1;
    }
    assert k == total;
    assert total == |data| / 4;
  }

  /**
   * The body of the pixel loop: a faint pixel is skipped, any other adds its key to the set, so a
   * set holding the keys of the distinct visible pixels of `ps` then holds those of `ps + [pixel]`.
   */
  method AddPixelKey(colorSet: seq<string>, pixel: Pixel, ghost ps: seq<Pixel>) returns (s: seq<string>)
    requires colorSet == Keys(Distinct(Visible(ps)))
    ensures s == Keys(Distinct(Visible(ps + [pixel])))
  {
    VisibleKeysSnoc(ps, pixel);
    s := colorSet;
    if pixel.a >= 10 {
      var key := PixelKey(pixel);
      if key !in s {
        s := s + [key];
      }
    }
  }

  /** The number of whole pixels in a buffer of `n` bytes. */
  lemma PixelCount(n: int) returns (total: nat)
    requires n >= 0 && n % 4 == 0
    ensures n == 4 * total
  {
    total := n / 4;
  }

  /**
   * The second loop of `generatePaletteFromImage`: each key of the set, in order, split back into
   * its numbers and turned into a colour.
   */
  method ColorsFromKeys(colorSet: seq<string>, ghost ds: seq<Pixel>) returns (newColors: seq<Color>)
    requires colorSet == Keys(ds)
    ensures newColors == PixelColors(ds)
  {
    newColors := [];
    var j := 0;
    while j < |colorSet|
      invariant 0 <= j <= |colorSet|
      invariant newColors == PixelColors(ds[..j])
    {
      KeyAt(ds, j);
      var c := KeyColor(colorSet[j]);
      assert ds[..j + 1][..j] == ds[..j];
      newColors := newColors + [c.value];
      j := j + 1;
    }
    assert ds[..j] == ds;
  }

  // ---------------------------------------------------------------- GIMP palette files

  /** `content.split('\n').map(line => line.trim()).filter(line => line)`. */
  function Lines(content: string): (lines: seq<string>)
    ensures forall k :: 0 <= k < |lines| ==> |lines[k]| > 0
  {
    NonEmptyTrimmed(Split(content, '\n'))
  }

  /** Each raw line trimmed, the ones left empty dropped, order kept. */
  function NonEmptyTrimmed(raw: seq<string>): (lines: seq<string>)
    ensures |lines| <= |raw|
    ensures forall k :: 0 <= k < |lines| ==> |lines[k]| > 0
  {
    if |raw| == 0 then []
    else
      var t := Trim(raw[0]);
      (if |t| > 0 then [t] else []) + NonEmptyTrimmed(raw[1..])
  }

  /** What the `Channels:` scan finds: whether alpha is present, and the index of the first colour line. */
  datatype Channels = Channels(hasRgba: bool, start: int)

  /**
   * The scan of lines `i` up to 4 for a `Channels:` declaration: the first line that declares
   * channels stops it; only `Channels: RGBA` turns alpha on. Without one, colours start at line 1.
   */
  function ScanChannels(lines: seq<string>, i: nat): (ch: Channels)
    ensures 1 <= ch.start <= MaxInt(1, |lines|)
    ensures ch.start != 1 ==> ch.start > i
    decreases |lines| - i
  {
    if i >= MinInt(5, |lines|) then Channels(false, 1)
    else if StartsWith(lines[i], "Channels: RGBA") then Channels(true, i + 1)
    else if StartsWith(lines[i], "Channels:") then Channels(false, i + 1)
    else ScanChannels(lines, i + 1)
  }

  lemma StartsWithRgba(line: string)
    requires StartsWith(line, "Channels: RGBA")
    ensures StartsWith(line, "Channels:")
  {
    assert line[..9] == line[..14][..9];
  }

  /**
   * The first line among 1 to 4 that starts with `Channels:` decides the scan: alpha is read
   * exactly when that line declares `RGBA`, and colours start on the line after it.
   */
  lemma {:induction false} ScanChannelsFirst(lines: seq<string>, i: nat, k: nat)
    requires 1 <= i <= k < MinInt(5, |lines|)
    requires StartsWith(lines[k], "Channels:")
    requires forall j :: i <= j < k ==> !StartsWith(lines[j], "Channels:")
    ensures ScanChannels(lines, i) == Channels(StartsWith(lines[k], "Channels: RGBA"), k + 1)
    decreases k - i
  {
    if i < k {
      assert !StartsWith(lines[i], "Channels:");
      if StartsWith(lines[i], "Channels: RGBA") {
        StartsWithRgba(lines[i]);
      }
      ScanChannelsFirst(lines, i + 1, k);
    }
  }

  /** Without a `Channels:` line among lines 1 to 4, alpha is off and colours start at line 1. */
  lemma {:induction false} ScanChannelsNone(lines: seq<string>, i: nat)
    requires 1 <= i
    requires forall j :: i <= j < MinInt(5, |lines|) ==> !StartsWith(lines[j], "Channels:")
    ensures ScanChannels(lines, i) == Channels(false, 1)
    decreases |lines| - i
  {
    if i < MinInt(5, |lines|) {
      if StartsWith(lines[i], "Channels: RGBA") {
        StartsWithRgba(lines[i]);
      }
      ScanChannelsNone(lines, i + 1);
    }
  }

  /** `Math.max(0, Math.min(255, parseInt(t))) / 255` for the alpha token; NaN is not modelled and reads as 1. */
  function AlphaToken(t: string): (a: real)
    ensures 0.0 <= a <= 1.0
    ensures ParseInt(t).Some? ==> a == ClampInt(ParseInt(t).value, 0, 255) as real / 255.0
    ensures ParseInt(t).None? ==> a == 1.0
  {
    match ParseInt(t)
    case Some(n) => ClampInt(n, 0, 255) as real / 255.0
    case None => 1.0
  }

  /**
   * One line after the header: comments (`#`), empty lines, lines of fewer than three tokens and
   * lines whose first three tokens hold no number give nothing; otherwise the colour of the
   * clamped first three numbers, with alpha from the fourth token when the file declares RGBA.
   */
  function ParseLine(line: string, hasRgba: bool): (c: Option<Color>)
    ensures StartsWith(line, "#") ==> c == None
    ensures |Tokens(line)| < 3 ==> c == None
    ensures c.Some? && !(hasRgba && |Tokens(line)| >= 4) ==> c.value.a == 1.0
  {
    if StartsWith(line, "#") || |line| == 0 then None
    else ReadParts(Tokens(line), hasRgba)
  }

  /** The colour of a line's tokens: the first three read as numbers, the fourth as alpha in an RGBA file. */
  function ReadParts(parts: seq<string>, hasRgba: bool): (c: Option<Color>)
    ensures |parts| < 3 ==> c == None
    ensures c.Some? && !(hasRgba && |parts| >= 4) ==> c.value.a == 1.0
  {
    if |parts| < 3 then None
    else
      var a := if hasRgba && |parts| >= 4 then AlphaToken(parts[3]) else 1.0;
      ReadColor(ParseInt(parts[0]), ParseInt(parts[1]), ParseInt(parts[2]), a)
  }

  /** `new Color(r, g, b, a)` of the clamped numbers when none of them is NaN. */
  function ReadColor(r: Option<int>, g: Option<int>, b: Option<int>, a: real): (c: Option<Color>)
    requires 0.0 <= a <= 1.0
    ensures c.Some? <==> r.Some? && g.Some? && b.Some?
    ensures c.Some? ==> c.value == Rgba(ClampInt(r.value, 0, 255), ClampInt(g.value, 0, 255), ClampInt(b.value, 0, 255), a)
  {
    if r.None? || g.None? || b.None? then None
    else Some(Make(ClampInt(r.value, 0, 255), ClampInt(g.value, 0, 255), ClampInt(b.value, 0, 255), a))
  }

  /** Three byte values and an alpha in range make exactly that colour. */
  lemma ReadBytes(r: Byte, g: Byte, b: Byte, a: real)
    requires 0.0 <= a <= 1.0
    ensures ReadColor(Some(r), Some(g), Some(b), a) == Some(Rgba(r, g, b, a))
  {
  }

  /** How the colour-line loop reads one line. */
  type LineParser = string -> Option<Color>

  /** The loop's reading of a line, for a file with or without alpha. */
  function GplLine(hasRgba: bool): LineParser {
    line => ParseLine(line, hasRgba)
  }

  /** What one parsed line contributes to the palette: its colour, or nothing. */
  function Found(parsed: Option<Color>): (cs: seq<Color>)
    ensures |cs| <= 1
    ensures parsed.Some? ==> cs == [parsed.value]
    ensures parsed.None? ==> cs == []
  {
    match parsed
    case Some(c) => [c]
    case None => []
  }

  /** The colours of lines `start` up to `stop` that `parse` accepts, in file order, without deduplication. */
  function ParsedColors(lines: seq<string>, start: nat, stop: nat, parse: LineParser): (cs: seq<Color>)
    requires start <= stop <= |lines|
    ensures |cs| <= stop - start
    decreases stop - start
  {
    if stop == start then []
    else ParsedColors(lines, start, stop - 1, parse) + Found(parse(lines[stop - 1]))
  }

  /** The palette a `.gpl` text describes, or `None` when `loadFromGpl` rejects it. */
  function ParseGpl(content: string): (res: Option<seq<Color>>)
    ensures res.Some? ==> |res.value| > 0
    ensures res.Some? ==> |Lines(content)| > 0 && StartsWith(Lines(content)[0], "GIMP Palette")
  {
    var lines := Lines(content);
    if |lines| == 0 || !StartsWith(lines[0], "GIMP Palette") then None
    else
      var ch := ScanChannels(lines, 1);
      var cs := ParsedColors(lines, ch.start, |lines|, GplLine(ch.hasRgba));
      if |cs| == 0 then None else Some(cs)
  }

  /** An opaque colour line `r g b name` parses to exactly that colour when alpha is off. */
  lemma GplOpaqueLine(r: Byte, g: Byte, b: Byte, rest: string)
    ensures ParseLine(Decimal(r) + " " + Decimal(g) + " " + Decimal(b) + " " + rest, false) == Some(Rgba(r, g, b, 1.0))
  {
    ByteField(r);
    ByteField(g);
    ByteField(b);
    OpaqueFields(Decimal(r), Decimal(g), Decimal(b), rest, r, g, b);
  }

  /** A colour line `r g b a name` of an RGBA file parses to that colour with alpha `a / 255`. */
  lemma GplAlphaLine(r: Byte, g: Byte, b: Byte, a: Byte, name: string)
    ensures ParseLine(Decimal(r) + " " + Decimal(g) + " " + Decimal(b) + " " + (Decimal(a) + " " + name), true)
      == Some(Rgba(r, g, b, a as real / 255.0))
  {
    ByteField(r);
    ByteField(g);
    ByteField(b);
    ByteField(a);
    AlphaFields(Decimal(r), Decimal(g), Decimal(b), Decimal(a), name, r, g, b, a);
  }

  /** The numeral of a byte is a field that reads back as the byte, and as alpha as the byte over 255. */
  lemma ByteField(n: Byte)
    ensures IsField(Decimal(n)) && ParseInt(Decimal(n)) == Some(n)
    ensures AlphaToken(Decimal(n)) == n as real / 255.0
  {
    DecimalField(n);
    ParseIntDecimal(n);
    AlphaTokenDecimal(n);
  }

  /** A field of a colour line: a non-empty run without white space that does not open a comment. */
  predicate IsField(w: string) {
    |w| > 0 && NoSpace(w) && w[0] != '#'
  }

  /** The tokens of `w1 w2 w3 rest`: the three fields, then the tokens of `rest`. */
  lemma FieldTokens(w1: string, w2: string, w3: string, rest: string)
    requires IsField(w1) && IsField(w2) && IsField(w3)
    ensures var line := w1 + " " + w2 + " " + w3 + " " + rest;
      Tokens(line) == [w1, w2, w3] + Tokens(rest) && !StartsWith(line, "#") && |line| > 0
  {
    Regroup(w1, w2, w3, rest);
    ThreeTokens(w1, w2, w3, rest);
    Nest3(w1, w2, w3, Tokens(rest));
    FirstChar(w1, " " + (w2 + " " + (w3 + " " + rest)));
  }

  lemma OpaqueFields(w1: string, w2: string, w3: string, rest: string, r: Byte, g: Byte, b: Byte)
    requires IsField(w1) && IsField(w2) && IsField(w3)
    requires ParseInt(w1) == Some(r) && ParseInt(w2) == Some(g) && ParseInt(w3) == Some(b)
    ensures ParseLine(w1 + " " + w2 + " " + w3 + " " + rest, false) == Some(Rgba(r, g, b, 1.0))
  {
    var line := w1 + " " + w2 + " " + w3 + " " + rest;
    var ts := OpaqueTokens(w1, w2, w3, rest);
    ParseLineOpaque(line, false, ts, r, g, b);
  }

  lemma OpaqueTokens(w1: string, w2: string, w3: string, rest: string) returns (ts: seq<string>)
    requires IsField(w1) && IsField(w2) && IsField(w3)
    ensures var line := w1 + " " + w2 + " " + w3 + " " + rest;
      Tokens(line) == ts && !StartsWith(line, "#") && |line| > 0
    ensures |ts| >= 3 && ts[0] == w1 && ts[1] == w2 && ts[2] == w3
  {
    FieldTokens(w1, w2, w3, rest);
    ts := [w1, w2, w3] + Tokens(rest);
  }

  lemma AlphaFields(w1: string, w2: string, w3: string, w4: string, name: string, r: Byte, g: Byte, b: Byte, a: Byte)
    requires IsField(w1) && IsField(w2) && IsField(w3) && IsField(w4)
    requires ParseInt(w1) == Some(r) && ParseInt(w2) == Some(g) && ParseInt(w3) == Some(b)
    requires AlphaToken(w4) == a as real / 255.0
    ensures ParseLine(w1 + " " + w2 + " " + w3 + " " + (w4 + " " + name), true) == Some(Rgba(r, g, b, a as real / 255.0))
  {
    var line := w1 + " " + w2 + " " + w3 + " " + (w4 + " " + name);
    var ts := AlphaTokens(w1, w2, w3, w4, name);
    ParseLineAlpha(line, ts, r, g, b, a);
  }

  /** The tokens of `w1 w2 w3 w4 name`: the four fields, then the tokens of `name`. */
  lemma AlphaTokens(w1: string, w2: string, w3: string, w4: string, name: string) returns (ts: seq<string>)
    requires IsField(w1) && IsField(w2) && IsField(w3) && IsField(w4)
    ensures var line := w1 + " " + w2 + " " + w3 + " " + (w4 + " " + name);
      Tokens(line) == ts && !StartsWith(line, "#") && |line| > 0
    ensures |ts| >= 4 && ts[0] == w1 && ts[1] == w2 && ts[2] == w3 && ts[3] == w4
  {
    FieldTokens(w1, w2, w3, w4 + " " + name);
    TokensCons(w4, name);
    ts := [w1, w2, w3] + ([w4] + Tokens(name));
    assert ts[3] == w4;
  }

  /** Three fields that read as numbers, whatever their size, give the colour of the clamped numbers. */
  lemma ClampedFields(w1: string, w2: string, w3: string, rest: string, r: int, g: int, b: int)
    requires IsField(w1) && IsField(w2) && IsField(w3)
    requires ParseInt(w1) == Some(r) && ParseInt(w2) == Some(g) && ParseInt(w3) == Some(b)
    ensures ParseLine(w1 + " " + w2 + " " + w3 + " " + rest, false)
      == Some(Rgba(ClampInt(r, 0, 255), ClampInt(g, 0, 255), ClampInt(b, 0, 255), 1.0))
  {
    var line := w1 + " " + w2 + " " + w3 + " " + rest;
    var ts := OpaqueTokens(w1, w2, w3, rest);
    assert ParseLine(line, false) == ReadParts(ts, false);
  }

  /** `parseInt("300")` is 300, beyond a byte. */
  lemma ParseInt300()
    ensures ParseInt("300") == Some(300)
  {
    var w := "300";
    assert NumeralStart(w, Auto) == Numeral(false, 10, 0);
    assert DigitRun(w, 3, 10) == [] && DigitRun(w, 0, 10) == [3, 0, 0];
    assert DigitsValue([3, 0, 0], 10) == 300 by {
      assert [3, 0, 0][..2] == [3, 0] && [3, 0][..1] == [3];
    }
  }

  /** `parseInt("-5")` is -5, below a byte. */
  lemma ParseIntMinus5()
    ensures ParseInt("-5") == Some(-5)
  {
    var w := "-5";
    assert SkipSpace(w, 0) == 0;
    assert NumeralStart(w, Auto) == Numeral(true, 10, 1);
    assert DigitRun(w, 1, 10) == [5];
  }

  /** `parseInt("128")` is 128. */
  lemma ParseInt128()
    ensures ParseInt("128") == Some(128)
  {
    var w := "128";
    assert NumeralStart(w, Auto) == Numeral(false, 10, 0);
    assert DigitRun(w, 3, 10) == [] && DigitRun(w, 0, 10) == [1, 2, 8];
    assert DigitsValue([1, 2, 8], 10) == 128 by {
      assert [1, 2, 8][..2] == [1, 2] && [1, 2][..1] == [1];
    }
  }

  /** Numbers outside 0..255 are clamped: `300 -5 128 name` is the colour (255, 0, 128), whatever the name. */
  lemma ClampedLine(name: string)
    ensures ParseLine("300" + " " + "-5" + " " + "128" + " " + name, false) == Some(Rgba(255, 0, 128, 1.0))
  {
    ParseInt300();
    ParseIntMinus5();
    ParseInt128();
    NumeralsAreFields();
    ClampedFields("300", "-5", "128", name, 300, -5, 128);
  }

  /** Solver step only: the three numerals of `ClampedLine` are fields. */
  lemma NumeralsAreFields()
    ensures IsField("300") && IsField("-5") && IsField("128")
  {
  }

  /** The alpha token a file writes for a byte reads back as that byte over 255. */
  lemma AlphaTokenDecimal(a: Byte)
    ensures AlphaToken(Decimal(a)) == a as real / 255.0
  {
    ParseIntDecimal(a);
  }

  /** A line whose first three tokens read as bytes, without an alpha token to read, is opaque. */
  lemma ParseLineOpaque(line: string, hasRgba: bool, ts: seq<string>, r: Byte, g: Byte, b: Byte)
    requires !StartsWith(line, "#") && |line| > 0
    requires Tokens(line) == ts && |ts| >= 3 && !(hasRgba && |ts| >= 4)
    requires ParseInt(ts[0]) == Some(r) && ParseInt(ts[1]) == Some(g) && ParseInt(ts[2]) == Some(b)
    ensures ParseLine(line, hasRgba) == Some(Rgba(r, g, b, 1.0))
  {
    assert ParseLine(line, hasRgba) == ReadParts(ts, hasRgba);
    assert ReadParts(ts, hasRgba) == ReadColor(Some(r), Some(g), Some(b), 1.0);
    ReadBytes(r, g, b, 1.0);
  }

  /** In an RGBA file, a line whose first three tokens read as bytes takes its alpha from the fourth. */
  lemma ParseLineAlpha(line: string, ts: seq<string>, r: Byte, g: Byte, b: Byte, a: Byte)
    requires !StartsWith(line, "#") && |line| > 0
    requires Tokens(line) == ts && |ts| >= 4
    requires ParseInt(ts[0]) == Some(r) && ParseInt(ts[1]) == Some(g) && ParseInt(ts[2]) == Some(b)
    requires AlphaToken(ts[3]) == a as real / 255.0
    ensures ParseLine(line, true) == Some(Rgba(r, g, b, a as real / 255.0))
  {
    assert ParseLine(line, true) == ReadParts(ts, true);
    ReadPartsAlpha(ts, r, g, b, a);
  }

  /** Four tokens, the first three bytes, give the colour of those bytes with the fourth as alpha. */
  lemma ReadPartsAlpha(ts: seq<string>, r: Byte, g: Byte, b: Byte, a: Byte)
    requires |ts| >= 4
    requires ParseInt(ts[0]) == Some(r) && ParseInt(ts[1]) == Some(g) && ParseInt(ts[2]) == Some(b)
    requires AlphaToken(ts[3]) == a as real / 255.0
    ensures ReadParts(ts, true) == Some(Rgba(r, g, b, a as real / 255.0))
  {
    ReadBytes(r, g, b, AlphaToken(ts[3]));
  }

  /** Solver step only: regroups the joined line so its tokens can be taken one at a time. */
  lemma Regroup(w1: string, w2: string, w3: string, rest: string)
    ensures w1 + " " + w2 + " " + w3 + " " + rest == w1 + " " + (w2 + " " + (w3 + " " + rest))
  {
  }

  lemma DecimalField(n: nat)
    ensures IsField(Decimal(n))
  {
    var s := Decimal(n);
    forall k | 0 <= k < |s| ensures !IsSpace(s[k]) {
      assert '0' <= s[k] <= '9';
    }
  }

  lemma FirstChar(w: string, tail: string)
    requires |w| > 0 && w[0] != '#'
    ensures !StartsWith(w + tail, "#") && |w + tail| > 0
  {
    assert (w + tail)[0] == w[0];
  }

  /** Solver step only: flattens the nested token lists into one. */
  lemma Nest3(a: string, b: string, c: string, t: seq<string>)
    ensures [a] + ([b] + ([c] + t)) == [a, b, c] + t
  {
  }

  lemma ThreeTokens(w1: string, w2: string, w3: string, rest: string)
    requires |w1| > 0 && NoSpace(w1) && |w2| > 0 && NoSpace(w2) && |w3| > 0 && NoSpace(w3)
    ensures Tokens(w1 + " " + (w2 + " " + (w3 + " " + rest))) == [w1] + ([w2] + ([w3] + Tokens(rest)))
  {
    TokensCons(w3, rest);
    TokensCons(w2, w3 + " " + rest);
    TokensCons(w1, w2 + " " + (w3 + " " + rest));
  }

  /** Two identical colour lines give the colour twice: loading does not deduplicate. */
  lemma ParsedColorsKeepDuplicates(line: string, hasRgba: bool, c: Color)
    requires ParseLine(line, hasRgba) == Some(c)
    ensures ParsedColors([line, line], 0, 2, GplLine(hasRgba)) == [c, c]
  {
    assert GplLine(hasRgba)(line) == Some(c);
  }

  /** Parsing a run of lines is parsing its first part, then the rest. */
  lemma {:induction false} ParsedColorsSplit(lines: seq<string>, start: nat, mid: nat, stop: nat, parse: LineParser)
    requires start <= mid <= stop <= |lines|
    ensures ParsedColors(lines, start, stop, parse)
      == ParsedColors(lines, start, mid, parse) + ParsedColors(lines, mid, stop, parse)
    decreases stop - mid
  {
    if mid < stop {
      ParsedColorsSplit(lines, start, mid, stop - 1, parse);
    }
  }

  /** An empty text is rejected. */
  lemma GplEmptyRejected()
    ensures ParseGpl("") == None
  {
    NoLines();
  }

  lemma NoLines()
    ensures Lines("") == []
  {
  }

  lemma TrimmedOne(x: string)
    ensures NonEmptyTrimmed([x]) == if |Trim(x)| > 0 then [Trim(x)] else []
  {
    assert [x][1..] == [];
  }

  /** A text of a single line has no colour lines, whatever that line is. */
  lemma SingleLineRejected(content: string)
    requires |Lines(content)| == 1
    ensures ParseGpl(content) == None
  {
    var lines := Lines(content);
    assert lines[1..] == [];
  }

  /** A text without white space holds no line break. */
  lemma NoSpaceNoBreak(w: string)
    requires NoSpace(w)
    ensures '\n' !in w
  {
  }

  /** Two lines without breaks or surrounding white space are the lines of the text joining them. */
  lemma TwoLines(first: string, second: string)
    requires '\n' !in first && '\n' !in second
    requires |first| > 0 && !IsSpace(first[0]) && !IsSpace(first[|first| - 1])
    requires |second| > 0 && !IsSpace(second[0]) && !IsSpace(second[|second| - 1])
    ensures Lines(first + "\n" + second) == [first, second]
  {
    SplitTwo(first, second);
    TrimTwo(first, second);
  }

  lemma SplitTwo(first: string, second: string)
    requires '\n' !in first && '\n' !in second
    ensures Split(first + "\n" + second, '\n') == [first, second]
  {
    assert first + "\n" + second == first + ['\n'] + second;
    SplitCons(first, '\n', second);
    SplitNone(second, '\n');
  }

  lemma TrimTwo(first: string, second: string)
    requires |first| > 0 && !IsSpace(first[0]) && !IsSpace(first[|first| - 1])
    requires |second| > 0 && !IsSpace(second[0]) && !IsSpace(second[|second| - 1])
    ensures NonEmptyTrimmed([first, second]) == [first, second]
  {
    TrimUnpadded(first);
    TrimUnpadded(second);
    assert [first, second][1..] == [second] && [second][1..] == [];
  }

  /** A header and one line that is no `Channels:` line: the file loads as that line's colour, opaque. */
  lemma HeaderAndLine(content: string, line: string, c: Color)
    requires Lines(content) == ["GIMP Palette", line]
    requires |line| > 0 && line[0] != 'C'
    requires ParseLine(line, false) == Some(c)
    ensures ParseGpl(content) == Some([c])
  {
    var lines := Lines(content);
    NotChannels(line);
    assert ScanChannels(lines, 2) == Channels(false, 1);
    assert ScanChannels(lines, 1) == Channels(false, 1);
    assert GplLine(false)(lines[1]) == Some(c);
    assert ParsedColors(lines, 1, 2, GplLine(false)) == [c];
  }

  /** A line that does not start with `C` declares no channels. */
  lemma NotChannels(line: string)
    requires |line| > 0 && line[0] != 'C'
    ensures !StartsWith(line, "Channels: RGBA") && !StartsWith(line, "Channels:")
  {
    assert "Channels: RGBA"[0] == 'C' && "Channels:"[0] == 'C';
  }

  /** The header is a line without breaks or surrounding white space. */
  lemma HeaderUnbroken()
    ensures var h := "GIMP Palette"; '\n' !in h && |h| > 0 && !IsSpace(h[0]) && !IsSpace(h[|h| - 1])
  {
    var h := "GIMP Palette";
    forall k | 0 <= k < |h| ensures h[k] != '\n' {
    }
  }

  /** A header line and one colour line `r g b name` make a file that loads as that one opaque colour. */
  lemma OneColorFile(r: Byte, g: Byte, b: Byte, name: string)
    requires |name| > 0 && NoSpace(name)
    ensures ParseGpl("GIMP Palette" + "\n" + (Decimal(r) + " " + Decimal(g) + " " + Decimal(b) + " " + name))
      == Some([Rgba(r, g, b, 1.0)])
  {
    var line := Decimal(r) + " " + Decimal(g) + " " + Decimal(b) + " " + name;
    DecimalField(r);
    DecimalField(g);
    DecimalField(b);
    NoSpaceNoBreak(Decimal(r));
    NoSpaceNoBreak(Decimal(g));
    NoSpaceNoBreak(Decimal(b));
    NoSpaceNoBreak(name);
    assert '\n' !in line;
    assert line[0] == Decimal(r)[0] && line[|line| - 1] == name[|name| - 1];
    GplOpaqueLine(r, g, b, name);
    OneLineFile(line, Rgba(r, g, b, 1.0));
  }

  /** A header and one unpadded line that parses, and is no `Channels:` line, load as that line's colour. */
  lemma OneLineFile(line: string, c: Color)
    requires '\n' !in line && |line| > 0 && !IsSpace(line[0]) && !IsSpace(line[|line| - 1]) && line[0] != 'C'
    requires ParseLine(line, false) == Some(c)
    ensures ParseGpl("GIMP Palette" + "\n" + line) == Some([c])
  {
    HeaderUnbroken();
    TwoLines("GIMP Palette", line);
    HeaderAndLine("GIMP Palette" + "\n" + line, line, c);
  }

  /** A text without a line break, such as a bare `GIMP Palette` header, is rejected for lack of colours. */
  lemma GplHeaderOnlyRejected(content: string)
    requires '\n' !in content
    ensures ParseGpl(content) == None
  {
    SplitNone(content, '\n');
    TrimmedOne(content);
    if |Lines(content)| == 1 {
      SingleLineRejected(content);
    }
  }

  /**
   * The first loop of `loadFromGpl`: lines 1 to 4 are searched for a `Channels:` declaration and
   * the search stops at the first one.
   */
  method ScanChannelLines(lines: seq<string>) returns (hasRgba: bool, startIndex: int)
    ensures Channels(hasRgba, startIndex) == ScanChannels(lines, 1)
  {
    hasRgba := false;
    startIndex := 1;
    var i := 1;
    while i < MinInt(5, |lines|)
      invariant 1 <= i
      invariant ScanChannels(lines, i) == ScanChannels(lines, 1)
      invariant !hasRgba && startIndex == 1
      decreases |lines| - i
    {
      if StartsWith(lines[i], "Channels: RGBA") {
        hasRgba := true;
        startIndex := i + 1;
        break;
      } else if StartsWith(lines[i], "Channels:") {
        startIndex := i + 1;
        break;
      }
      i := i + 1;
    }
  }

  /**
   * The second loop of `loadFromGpl`: every line from `startIndex` on is read with `parse`, the
   * colours of the lines it accepts are collected in order, and `colorCount` counts them.
   */
  method ParseColorLines(lines: seq<string>, startIndex: nat, parse: LineParser) returns (newColors: seq<Color>, colorCount: int)
    requires startIndex <= |lines|
    ensures newColors == ParsedColors(lines, startIndex, |lines|, parse)
    ensures colorCount == |newColors|
  {
    newColors := [];
    colorCount := 0;
    var j := startIndex;
    while j < |lines|
      invariant startIndex <= j <= |lines|
      invariant newColors == ParsedColors(lines, startIndex, j, parse)
      invariant colorCount == |newColors|
    {
      match parse(lines[j]) {
        case Some(c) =>
          newColors := newColors + [c];
          colorCount := colorCount + 1;
        case None =>
      }
      j := j + 1;
    }
  }

  // ---------------------------------------------------------------- the store

  /** The module-level palette array and the `_autoAddColor` flag. */
  class Palette {
    var colors: seq<Color>
    var autoAddColor: bool

    /** The state at module load: the default colours, auto-add switched on. */
    constructor()
      ensures colors == DefaultColors && autoAddColor
    {
      colors := DefaultColors;
      autoAddColor := true;
    }

    /** `getAutoAddColor()`. */
    function GetAutoAddColor(): (on: bool)
      reads this
      ensures on == autoAddColor
    {
      autoAddColor
    }

    /** `toggleAutoAddColor()`: flips the flag and nothing else. */
    method ToggleAutoAddColor()
      modifies this
      ensures autoAddColor == !old(autoAddColor)
      ensures colors == old(colors)
    {
      autoAddColor := !autoAddColor;
    }

    /** `hasColor(c)`: whether the palette holds a colour equal to `c`. */
    function HasColor(c: Color): (present: bool)
      reads this
      ensures present <==> c in colors
    {
      AnyEqualsIsMembership(colors, c);
      AnyEquals(colors, c)
    }

    /** `addColor(c)`: appends `c` unless an equal colour is already present. */
    method AddColor(c: Color)
      modifies this
      ensures colors == WithColor(old(colors), c)
      ensures autoAddColor == old(autoAddColor)
    {
      if !HasColor(c) {
        colors := colors + [c];
      }
    }

    /** `clearPalette()`: empties the palette. */
    method ClearPalette()
      modifies this
      ensures colors == []
      ensures autoAddColor == old(autoAddColor)
    {
      colors := [];
    }

    /**
     * `generatePaletteFromImage` on the RGBA bytes of the canvas: replaces the palette with one
     * colour per distinct visible pixel, in first-occurrence order, and returns how many.
     */
    method GeneratePaletteFromImage(data: seq<Byte>) returns (count: int)
      requires |data| % 4 == 0
      modifies this
      ensures colors == ImageColors(data)
      ensures count == |colors|
      ensures autoAddColor == old(autoAddColor)
    {
      var colorSet := CollectPixelKeys(data);
      var newColors := ColorsFromKeys(colorSet, Distinct(Visible(Pixels(data))));
      colors := newColors;
      count := |newColors|;
    }

    /**
     * `loadFromGpl(content)`: on a valid file replaces the palette with the parsed colours and
     * returns true; otherwise returns false and leaves the palette as it was.
     */
    method LoadFromGpl(content: string) returns (ok: bool)
      modifies this
      ensures ok <==> ParseGpl(content).Some?
      ensures ok ==> colors == ParseGpl(content).value
      ensures !ok ==> colors == old(colors)
      ensures autoAddColor == old(autoAddColor)
    {
      var lines := Lines(content);
      if |lines| == 0 || !StartsWith(lines[0], "GIMP Palette") {
        return false;
      }
      var hasRgba, startIndex := ScanChannelLines(lines);
      var newColors, colorCount := ParseColorLines(lines, startIndex, GplLine(hasRgba));
      if colorCount == 0 {
        return false;
      }
      colors := newColors;
      ok := true;
    }

    /** `sortPalette(order)`: sorts the palette in place with the comparator for `order`. */
    method SortPalette(order: SortOrder)
      modifies this
      ensures colors == StableSort(ComparatorFor(order), old(colors))
      ensures multiset(colors) == multiset(old(colors))
      ensures autoAddColor == old(autoAddColor)
    {
      colors := StableSort(ComparatorFor(order), colors);
    }
  }

  /** Toggling the flag twice restores it. */
  method ToggleTwice(p: Palette)
    modifies p
    ensures p.autoAddColor == old(p.autoAddColor) && p.colors == old(p.colors)
  {
    p.ToggleAutoAddColor();
    p.ToggleAutoAddColor();
  }

  /** Calling `addColor` twice with the same colour leaves the palette as one call does. */
  method AddTwice(p: Palette, c: Color)
    modifies p
    ensures p.colors == WithColor(old(p.colors), c)
  {
    p.AddColor(c);
    p.AddColor(c);
    WithColorIdempotent(old(p.colors), c);
  }
}
