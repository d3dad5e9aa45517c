/**
 * `colorAnalysis.ts`: the RGB to HSL conversion, the selection of opaque
 * pixels from canvas data, the `#rrggbb` encoding of the dominant colours and
 * `mapColorsToSvgPaths`, which gives the k-th `<path …>` tag of a traced SVG
 * the k-th colour of the palette sorted by lightness, cycling through it.
 */
module ColorAnalysis {
  import opened Common
  import opened Text
  import opened Matches
  import opened Sorting

  // ---------------------------------------------------------------------
  // RGB to HSL

  /** Hue in degrees, saturation and lightness in percent. */
  datatype Hsl = Hsl(h: real, s: real, l: real)

  /** A colour channel as the canvas and the hex parser produce it. */
  predicate IsChannel(x: real)
  {
    0.0 <= x <= 255.0
  }

  /**
   * `rgbToHsl`. The `switch (max)` tests red, then green, then blue, so a
   * maximum shared by several channels takes the first formula that applies.
   */
  function RgbToHsl(r0: real, g0: real, b0: real): (c: Hsl)
    requires IsChannel(r0) && IsChannel(g0) && IsChannel(b0)
    ensures c.l == (Max(Max(r0, g0), b0) + Min(Min(r0, g0), b0)) / 510.0 * 100.0
  {
    var r, g, b := r0 / 255.0, g0 / 255.0, b0 / 255.0;
    var mx := Max(Max(r, g), b);
    var mn := Min(Min(r, g), b);
    var l := (mx + mn) / 2.0;
    if mx == mn then Hsl(0.0, 0.0, l * 100.0)
    else Hsl(Hue(r, g, b, mx, mx - mn) / 6.0 * 360.0, Saturation(mx, mn) * 100.0, l * 100.0)
  }

  /** The saturation of a colour whose scaled channels span `mn < mx`. */
  function Saturation(mx: real, mn: real): (s: real)
    requires 0.0 <= mn < mx <= 1.0
  {
    var d := mx - mn;
    if (mx + mn) / 2.0 > 0.5 then d / (2.0 - mx - mn) else d / (mx + mn)
  }

  /** The hue in sixths of a turn; `d` is the spread of the channels. */
  function Hue(r: real, g: real, b: real, mx: real, d: real): real
    requires d > 0.0
  {
    if mx == r then (g - b) / d + (if g < b then 6.0 else 0.0)
    else if mx == g then (b - r) / d + 2.0
    else (r - g) / d + 4.0
  }

  /** A grey has neither hue nor saturation, and its lightness is its level. */
  lemma GreyHsl(v: real)
    requires IsChannel(v)
    ensures RgbToHsl(v, v, v) == Hsl(0.0, 0.0, v / 255.0 * 100.0)
  {
  }

  /** `0 <= x / y <= 1` for `0 <= x <= y`, with 1 only when `x == y`. */
  lemma UnitRatio(x: real, y: real)
    requires 0.0 <= x <= y && 0.0 < y
    ensures 0.0 <= x / y <= 1.0
    ensures x < y ==> x / y < 1.0
  {
    assert x / y * y == x;
  }

  /** `-1 <= x / y < 0` for `-y <= x < 0`. */
  lemma NegativeRatio(x: real, y: real)
    requires -y <= x < 0.0 && 0.0 < y
    ensures -1.0 <= x / y < 0.0
  {
    assert x / y * y == x;
  }

  lemma SaturationRange(mx: real, mn: real)
    requires 0.0 <= mn < mx <= 1.0
    ensures 0.0 <= Saturation(mx, mn) <= 1.0
  {
    if (mx + mn) / 2.0 > 0.5 {
      UnitRatio(mx - mn, 2.0 - mx - mn);
    } else {
      UnitRatio(mx - mn, mx + mn);
    }
  }

  /** Every channel lies between `mx - d` and `mx`, one of them at `mx`. */
  lemma HueRange(r: real, g: real, b: real, mx: real, d: real)
    requires d > 0.0 && (mx == r || mx == g || mx == b)
    requires mx - d <= r <= mx && mx - d <= g <= mx && mx - d <= b <= mx
    requires r == mx - d || g == mx - d || b == mx - d
    ensures 0.0 <= Hue(r, g, b, mx, d) < 6.0
  {
    if mx == r {
      if g < b {
        NegativeRatio(g - b, d);
      } else if g - b < d {
        UnitRatio(g - b, d);
      } else {
        UnitRatio(g - b, d);
      }
    } else if mx == g {
      if b < r {
        NegativeRatio(b - r, d);
      } else {
        UnitRatio(b - r, d);
      }
    } else {
      if r < g {
        NegativeRatio(r - g, d);
      } else {
        UnitRatio(r - g, d);
      }
    }
  }

  /** Hue lies in [0, 360), saturation and lightness in [0, 100]. */
  lemma HslRanges(r0: real, g0: real, b0: real)
    requires IsChannel(r0) && IsChannel(g0) && IsChannel(b0)
    ensures var c := RgbToHsl(r0, g0, b0);
      0.0 <= c.h < 360.0 && 0.0 <= c.s <= 100.0 && 0.0 <= c.l <= 100.0
  {
    var r, g, b := r0 / 255.0, g0 / 255.0, b0 / 255.0;
    var mx := Max(Max(r, g), b);
    var mn := Min(Min(r, g), b);
    if mx != mn {
      SaturationRange(mx, mn);
      HueRange(r, g, b, mx, mx - mn);
    }
  }

  // ---------------------------------------------------------------------
  // Hexadecimal text

  /** A digit `toString(16)` writes. */
  predicate IsLowerHex(c: char)
  {
    '0' <= c <= '9' || 'a' <= c <= 'f'
  }

  /** The lower-case digit for `v < 16`. */
  function HexChar(v: nat): (c: char)
    requires v < 16
    ensures IsLowerHex(c)
  {
    if v < 10 then ('0' as int + v) as char else ('a' as int + v - 10) as char
  }

  predicate IsHexDigit(c: char)
  {
    '0' <= c <= '9' || 'a' <= c <= 'f' || 'A' <= c <= 'F'
  }

  /** The value of a hexadecimal digit, in either case. */
  function DigitValue(c: char): (v: nat)
    requires IsHexDigit(c)
    ensures v < 16
    ensures IsLowerHex(c) ==> HexChar(v) == c
  {
    if '0' <= c <= '9' then (c - '0') as nat
    else if 'a' <= c <= 'f' then (c - 'a') as nat + 10
    else (c - 'A') as nat + 10
  }

  /** `16^n`. */
  function Pow16(n: nat): (p: nat)
    ensures p >= 1
  {
    if n == 0 then 1 else 16 * Pow16(n - 1)
  }

  /** The value of a string of hexadecimal digits, most significant first. */
  function HexValue(t: string): (v: nat)
    requires forall i :: 0 <= i < |t| ==> IsHexDigit(t[i])
    ensures v < Pow16(|t|)
    decreases |t|
  {
    if |t| == 0 then 0
    else HexValue(t[..|t| - 1]) * 16 + DigitValue(t[|t| - 1])
  }

  /** How many hexadecimal digits `s` starts with. */
  function DigitRun(s: string): (n: nat)
    ensures n <= |s|
    ensures forall i :: 0 <= i < n ==> IsHexDigit(s[i])
    ensures n < |s| ==> !IsHexDigit(s[n])
    decreases |s|
  {
    if |s| == 0 || !IsHexDigit(s[0]) then 0 else 1 + DigitRun(s[1..])
  }

  /**
   * `parseInt(s, 16)` for text without leading blanks or sign: an optional
   * `0x` / `0X` prefix, then the longest run of hexadecimal digits; no digit
   * at all is `NaN`, here `None`.
   */
  function ParseHex(s: string): (r: Option<nat>)
    ensures r.Some? ==> r.value < Pow16(|s|)
  {
    var t := if |s| >= 2 && s[0] == '0' && (s[1] == 'x' || s[1] == 'X') then s[2..] else s;
    var n := DigitRun(t);
    if n == 0 then None
    else
      assert Pow16(n) <= Pow16(|s|) by { Pow16Mono(n, |s|); }
      Some(HexValue(t[..n]))
  }

  lemma {:induction false} Pow16Mono(m: nat, n: nat)
    requires m <= n
    ensures Pow16(m) <= Pow16(n)
    decreases n
  {
    if m < n {
      Pow16Mono(m, n - 1);
    }
  }

  /** `Number.prototype.toString(16)`: lower-case digits, no leading zero. */
  function ToHex(n: nat): (r: string)
    ensures |r| >= 1 && forall i :: 0 <= i < |r| ==> IsLowerHex(r[i])
    ensures n < 16 <==> |r| == 1
    ensures n < 256 ==> |r| <= 2
    decreases n
  {
    if n < 16 then [HexChar(n)] else ToHex(n / 16) + [HexChar(n % 16)]
  }

  /** `s.padStart(n, c)` with a one-character filler. */
  function PadStart(s: string, n: nat, c: char): (r: string)
    ensures |r| == if |s| < n then n else |s|
    ensures r[|r| - |s|..] == s
    ensures forall i :: 0 <= i < |r| - |s| ==> r[i] == c
  {
    if |s| >= n then s else seq(n - |s|, _ => c) + s
  }

  /** Digits are read back as the value they were written for. */
  lemma HexCharValue(v: nat)
    requires v < 16
    ensures IsHexDigit(HexChar(v)) && DigitValue(HexChar(v)) == v
  {
  }

  /** Reading back what `toString(16)` wrote gives the number. */
  lemma {:induction false} ToHexValue(n: nat)
    ensures forall i :: 0 <= i < |ToHex(n)| ==> IsHexDigit(ToHex(n)[i])
    ensures HexValue(ToHex(n)) == n
    decreases n
  {
    var t := ToHex(n);
    if n < 16 {
      HexCharValue(n);
    } else {
      ToHexValue(n / 16);
      assert t[..|t| - 1] == ToHex(n / 16);
      HexCharValue(n % 16);
    }
  }

  /** Leading zeros do not change the value. */
  lemma {:induction false} LeadingZero(t: string)
    requires forall i :: 0 <= i < |t| ==> IsHexDigit(t[i])
    ensures forall i :: 0 <= i < |['0'] + t| ==> IsHexDigit((['0'] + t)[i])
    ensures HexValue(['0'] + t) == HexValue(t)
    decreases |t|
  {
    var z := ['0'] + t;
    if |t| > 0 {
      LeadingZero(t[..|t| - 1]);
      assert z[..|z| - 1] == ['0'] + t[..|t| - 1];
    }
  }

  /** One channel of `extractDominantColors`' hex code: two digits. */
  function ChannelHex(c: real): (r: string)
    requires IsChannel(c)
    ensures |r| == 2 && IsLowerHex(r[0]) && IsLowerHex(r[1])
  {
    var n := JsRound(c);
    assert 0 <= n <= 255;
    PadStart(ToHex(n), 2, '0')
  }

  /** The two digits read back as the rounded channel. */
  lemma ChannelHexValue(c: real)
    requires IsChannel(c)
    ensures forall i :: 0 <= i < 2 ==> IsHexDigit(ChannelHex(c)[i])
    ensures HexValue(ChannelHex(c)) == JsRound(c)
  {
    var n := JsRound(c);
    var t := ToHex(n);
    ToHexValue(n);
    if |t| == 1 {
      assert ChannelHex(c) == ['0'] + t;
      LeadingZero(t);
    } else {
      assert ChannelHex(c) == t;
    }
  }

  /** `#rrggbb` for a colour with real channels, as `extractDominantColors` writes it. */
  function ColorHex(r: real, g: real, b: real): (x: string)
    requires IsChannel(r) && IsChannel(g) && IsChannel(b)
    ensures |x| == 7 && x[0] == '#'
    ensures forall i :: 1 <= i < 7 ==> IsLowerHex(x[i])
  {
    var a, e, f := ChannelHex(r), ChannelHex(g), ChannelHex(b);
    HashTripleHex(a, e, f);
    "#" + a + e + f
  }

  /** Where the three pairs of `#` + a + b + c sit. */
  lemma HashTriple(a: string, b: string, c: string)
    requires |a| == 2 && |b| == 2 && |c| == 2
    ensures var x := "#" + a + b + c;
      |x| == 7 && x[0] == '#' && x[1..3] == a && x[3..5] == b && x[5..7] == c
  {
  }

  /** Three pairs of lowercase digits after `#` make seven characters, six of them digits. */
  lemma HashTripleHex(a: string, b: string, c: string)
    requires |a| == 2 && |b| == 2 && |c| == 2
    requires IsLowerHex(a[0]) && IsLowerHex(a[1]) && IsLowerHex(b[0]) && IsLowerHex(b[1])
    requires IsLowerHex(c[0]) && IsLowerHex(c[1])
    ensures var x := "#" + a + b + c;
      |x| == 7 && x[0] == '#' && forall i :: 1 <= i < 7 ==> IsLowerHex(x[i])
  {
    var x := "#" + a + b + c;
    assert x[1] == a[0] && x[2] == a[1] && x[3] == b[0] && x[4] == b[1] && x[5] == c[0] && x[6] == c[1];
  }

  /** `s.slice(i, j)` for `0 <= i <= j`: the bounds are cut down to the length. */
  function Slice(s: string, i: nat, j: nat): (r: string)
    requires i <= j
    ensures j <= |s| ==> r == s[i..j]
    ensures |s| <= i ==> r == ""
  {
    var a := if i <= |s| then i else |s|;
    var b := if j <= |s| then j else |s|;
    s[a..b]
  }

  /** The three channels `mapColorsToSvgPaths` reads from a colour, when none is `NaN`. */
  function Channels(s: string): (r: Option<(nat, nat, nat)>)
    ensures r.Some? ==> r.value.0 < 256 && r.value.1 < 256 && r.value.2 < 256
  {
    match (ParseHex(Slice(s, 1, 3)), ParseHex(Slice(s, 3, 5)), ParseHex(Slice(s, 5, 7)))
    case (Some(r), Some(g), Some(b)) => Some((r, g, b))
    case _ => None
  }

  /** Encoding then reading back gives the rounded channels. */
  lemma HexRoundTrip(r: real, g: real, b: real)
    requires IsChannel(r) && IsChannel(g) && IsChannel(b)
    ensures Channels(ColorHex(r, g, b)) == Some((JsRound(r), JsRound(g), JsRound(b)))
  {
    var x := ColorHex(r, g, b);
    HashTriple(ChannelHex(r), ChannelHex(g), ChannelHex(b));
    ChannelHexValue(r);
    ChannelHexValue(g);
    ChannelHexValue(b);
    HexColorChannels(x);
  }

  /** A `#` and six hexadecimal digits: every channel parses. */
  predicate IsHexColor(s: string)
  {
    |s| == 7 && s[0] == '#' && forall i :: 1 <= i < 7 ==> IsHexDigit(s[i])
  }

  /** The channels of a hex colour are the values of its three digit pairs. */
  lemma HexColorChannels(s: string)
    requires |s| >= 7 && forall i :: 1 <= i < 7 ==> IsHexDigit(s[i])
    ensures Channels(s) == Some((HexValue(s[1..3]), HexValue(s[3..5]), HexValue(s[5..7])))
  {
    TwoDigits(s[1..3]);
    TwoDigits(s[3..5]);
    TwoDigits(s[5..7]);
  }

  /** Two hexadecimal digits parse as their value. */
  lemma TwoDigits(t: string)
    requires |t| == 2 && IsHexDigit(t[0]) && IsHexDigit(t[1])
    ensures ParseHex(t) == Some(HexValue(t))
  {
    assert t[1] != 'x' && t[1] != 'X';
    assert DigitRun(t[1..][1..]) == 0;
    assert t[..2] == t;
  }

  // ---------------------------------------------------------------------
  // Opaque pixels

  /** A colour as three channels. */
  datatype Rgb = Rgb(r: int, g: int, b: int)

  /** A pixel of canvas data with its alpha channel. */
  datatype Rgba = Rgba(r: int, g: int, b: int, a: int)

  /** The pixels the loop collects from index `i` of the data on. */
  function OpaqueFrom(d: seq<int>, i: nat): seq<Rgb>
    decreases |d| - i
  {
    if i + 3 < |d| then
      (if d[i + 3] > 128 then [Rgb(d[i], d[i + 1], d[i + 2])] else []) + OpaqueFrom(d, i + 4)
    else []
  }

  /**
   * The loop of `extractDominantColors` that keeps the pixels whose alpha
   * exceeds 128. Reading past the end gives `undefined`, which is not above
   * 128, so a last incomplete group is never kept.
   */
  method OpaquePixels(data: array<int>) returns (pixels: seq<Rgb>)
    ensures pixels == OpaqueFrom(data[..], 0)
  {
    ghost var d := data[..];
    pixels := [];
    var i := 0;
    while i < data.Length
      invariant pixels + OpaqueFrom(d, i) == OpaqueFrom(d, 0)
      decreases data.Length - i
    {
      OpaqueStep(d, i);
      if i + 3 < data.Length && data[i + 3] > 128 {
        pixels := pixels + [Rgb(data[i], data[i + 1], data[i + 2])];
      }
      i := i + 4;
    }
  }

  lemma OpaqueStep(d: seq<int>, i: nat)
    requires i < |d|
    ensures OpaqueFrom(d, i)
         == (if i + 3 < |d| && d[i + 3] > 128 then [Rgb(d[i], d[i + 1], d[i + 2])] else [])
          + OpaqueFrom(d, i + 4)
  {
  }

  /** The data read as whole groups of four: red, green, blue, alpha. */
  function Quads(d: seq<int>): (qs: seq<Rgba>)
    ensures |qs| == |d| / 4
  {
    seq(|d| / 4, k requires 0 <= k < |d| / 4 => Rgba(d[4 * k], d[4 * k + 1], d[4 * k + 2], d[4 * k + 3]))
  }

  /** The pixels whose alpha exceeds 128, without their alpha. */
  function KeepOpaque(qs: seq<Rgba>): (ps: seq<Rgb>)
    ensures |ps| <= |qs|
    decreases |qs|
  {
    if |qs| == 0 then []
    else (if qs[0].a > 128 then [Rgb(qs[0].r, qs[0].g, qs[0].b)] else []) + KeepOpaque(qs[1..])
  }

  /** The loop keeps exactly the opaque whole pixels, in order. */
  lemma OpaqueIsFilter(d: seq<int>)
    ensures OpaqueFrom(d, 0) == KeepOpaque(Quads(d))
  {
    OpaqueFromQuads(d, 0);
    assert Quads(d)[0..] == Quads(d);
  }

  lemma {:induction false} OpaqueFromQuads(d: seq<int>, m: nat)
    requires m <= |d| / 4
    ensures OpaqueFrom(d, 4 * m) == KeepOpaque(Quads(d)[m..])
    decreases |d| / 4 - m
  {
    var qs := Quads(d)[m..];
    WholeQuad(|d|, m);
    if m < |d| / 4 {
      OpaqueFromQuads(d, m + 1);
      OpaqueStep(d, 4 * m);
      assert qs[1..] == Quads(d)[m + 1..];
      assert qs[0] == Rgba(d[4 * m], d[4 * m + 1], d[4 * m + 2], d[4 * m + 3]);
    } else {
      assert qs == [];
    }
  }

  /** Quad `m` is whole exactly when its alpha index is inside the data. */
  lemma WholeQuad(n: nat, m: nat)
    ensures m < n / 4 <==> 4 * m + 3 < n
  {
  }

  // ---------------------------------------------------------------------
  // mapColorsToSvgPaths

  /** The opening of the tags `/<path([^>]*)>/g` matches. */
  const PathTag := "<path"

  /** The attribute appended to a path tag. */
  function FillAttr(color: string): string
  {
    " fill=\"" + color + "\""
  }

  /**
   * The lightness the sort compares. A colour whose channels do not parse has
   * a `NaN` lightness in the application; it is outside the modelled domain.
   */
  function Lightness(color: string): real
  {
    match Channels(color)
    case Some((r, g, b)) => RgbToHsl(r as real, g as real, b as real).l
    case None => 0.0
  }

  /** `[...colors].sort((a, b) => l1 - l2)`: stable, by ascending lightness. */
  function SortColors(colors: seq<string>): (sorted: seq<string>)
    ensures |sorted| == |colors|
  {
    SortBy(colors, Lightness)
  }

  /** The palette is reordered, not changed; darker first; ties keep their order. */
  lemma SortColorsSpec(colors: seq<string>)
    ensures multiset(SortColors(colors)) == multiset(colors)
    ensures SortedBy(SortColors(colors), Lightness)
    ensures forall l :: WithKey(SortColors(colors), Lightness, l) == WithKey(colors, Lightness, l)
  {
    SortBySorted(colors, Lightness);
    forall l ensures WithKey(SortColors(colors), Lightness, l) == WithKey(colors, Lightness, l) {
      SortByStable(colors, Lightness, l);
    }
  }

  /** The callback: the k-th tag gets the k-th colour, cycling through the palette. */
  function Recolour(sorted: seq<string>): (nat, string) -> string
    requires |sorted| > 0
  {
    (k: nat, attrs: string) => PathTag + attrs + FillAttr(sorted[k % |sorted|]) + ">"
  }

  /** The tag attributes after the callback: the fill comes last. */
  function AddFill(sorted: seq<string>): (nat, string) -> string
    requires |sorted| > 0
  {
    (k: nat, attrs: string) => attrs + FillAttr(sorted[k % |sorted|])
  }

  /** The SVG with every path tag recoloured from the palette `sorted`. */
  function PathsRecoloured(svg: string, sorted: seq<string>): string
    requires |sorted| > 0
  {
    Render(Scan(svg, PathTag, '>'), Recolour(sorted), 0)
  }

  /** `mapColorsToSvgPaths`: the palette is sorted, then every path tag recoloured. */
  method MapColorsToSvgPaths(svg: string, colors: seq<string>) returns (r: string)
    requires forall i :: 0 <= i < |colors| ==> Channels(colors[i]).Some?
    ensures |colors| == 0 ==> r == svg
    ensures |colors| > 0 ==> r == PathsRecoloured(svg, SortColors(colors))
  {
    if |colors| == 0 {
      return svg;
    }
    var sorted := SortColors(colors);
    r := RecolourPaths(svg, sorted);
  }

  /**
   * `svg.replace(/<path([^>]*)>/g, …)` with the callback that reads and
   * increments `pathIndex`, written as the scan the global replace performs.
   */
  method RecolourPaths(svg: string, sorted: seq<string>) returns (r: string)
    requires |sorted| > 0
    ensures r == PathsRecoloured(svg, sorted)
  {
    var pathIndex := 0;
    var i := 0;
    r := "";
    assert svg[0..] == svg;
    while i < |svg|
      invariant i <= |svg|
      invariant r + RecolouredFrom(svg, i, sorted, pathIndex) == PathsRecoloured(svg, sorted)
      decreases |svg| - i
    {
      match MatchFront(svg[i..], PathTag, '>')
      case Some(attrs) =>
        var color := sorted[pathIndex % |sorted|];
        var tag := PathTag + attrs + FillAttr(color) + ">";
        var n := |PathTag| + |attrs| + 1;
        TagStep(svg, i, attrs, sorted, pathIndex);
        AppendAssoc(r, tag, RecolouredFrom(svg, i + n, sorted, pathIndex + 1));
        r := r + tag;
        pathIndex := pathIndex + 1;
        i := i + n;
      case None =>
        CharStep(svg, i, sorted, pathIndex);
        AppendAssoc(r, [svg[i]], RecolouredFrom(svg, i + 1, sorted, pathIndex));
        r := r + [svg[i]];
        i := i + 1;
    }
    assert svg[i..] == [];
  }

  /** The replaced text from index `i` on, tags numbered from `k`. */
  function RecolouredFrom(svg: string, i: nat, sorted: seq<string>, k: nat): string
    requires i <= |svg| && |sorted| > 0
  {
    Render(Scan(svg[i..], PathTag, '>'), Recolour(sorted), k)
  }

  /** A path tag at index `i`: the callback's text, then the rest of the scan. */
  lemma TagStep(svg: string, i: nat, attrs: string, sorted: seq<string>, k: nat)
    requires i < |svg| && |sorted| > 0 && MatchFront(svg[i..], PathTag, '>') == Some(attrs)
    ensures i + |PathTag| + |attrs| + 1 <= |svg|
    ensures RecolouredFrom(svg, i, sorted, k)
         == (PathTag + attrs + FillAttr(sorted[k % |sorted|]) + ">")
          + RecolouredFrom(svg, i + |PathTag| + |attrs| + 1, sorted, k + 1)
  {
    RenderScanMatch(svg[i..], PathTag, '>', Recolour(sorted), k, attrs);
    assert svg[i..][|PathTag| + |attrs| + 1..] == svg[i + |PathTag| + |attrs| + 1..];
  }

  /** No path tag at index `i`: the character, then the rest of the scan. */
  lemma CharStep(svg: string, i: nat, sorted: seq<string>, k: nat)
    requires i < |svg| && |sorted| > 0 && MatchFront(svg[i..], PathTag, '>').None?
    ensures RecolouredFrom(svg, i, sorted, k) == [svg[i]] + RecolouredFrom(svg, i + 1, sorted, k)
  {
    RenderScanPlain(svg[i..], PathTag, '>', Recolour(sorted), k);
    assert svg[i..][1..] == svg[i + 1..];
  }

  /** The callback wraps its new attributes in `<path` … `>` again. */
  lemma RecolourWraps(sorted: seq<string>)
    requires |sorted| > 0 && forall i :: 0 <= i < |sorted| ==> '>' !in sorted[i]
    ensures Wraps(Recolour(sorted), AddFill(sorted), PathTag, '>')
  {
    forall k: nat, b: string | '>' !in b
      ensures Recolour(sorted)(k, b) == PathTag + AddFill(sorted)(k, b) + ['>']
      ensures '>' !in AddFill(sorted)(k, b)
    {
      var c := sorted[k % |sorted|];
      assert AddFill(sorted)(k, b) == b + " fill=\"" + c + "\"";
    }
  }

  /** A reordered palette holds the same colours. */
  lemma SortedMembers(colors: seq<string>)
    ensures forall i :: 0 <= i < |SortColors(colors)| ==> SortColors(colors)[i] in colors
  {
    SortColorsSpec(colors);
    forall i | 0 <= i < |SortColors(colors)| ensures SortColors(colors)[i] in colors {
      assert SortColors(colors)[i] in multiset(SortColors(colors));
    }
  }

  /**
   * The same tags are found again, each with the new attributes the callback
   * gave it; every character outside the tags stays where it was.
   */
  lemma RecolouredRescan(svg: string, sorted: seq<string>)
    requires |sorted| > 0 && forall i :: 0 <= i < |sorted| ==> '>' !in sorted[i]
    ensures Scan(PathsRecoloured(svg, sorted), PathTag, '>')
         == MapBodies(Scan(svg, PathTag, '>'), AddFill(sorted), 0)
  {
    RecolourWraps(sorted);
    Rescan(svg, PathTag, '>', Recolour(sorted), AddFill(sorted), 0);
  }

  /**
   * The k-th path tag keeps its attributes and gets ` fill="…"` with the
   * k-th colour of the palette, cycling, after them.
   */
  lemma RecolouredTags(svg: string, sorted: seq<string>)
    requires |sorted| > 0 && forall i :: 0 <= i < |sorted| ==> '>' !in sorted[i]
    ensures var bs, ms := Bodies(Scan(svg, PathTag, '>')), Bodies(Scan(PathsRecoloured(svg, sorted), PathTag, '>'));
      |ms| == |bs| && forall j :: 0 <= j < |bs| ==> ms[j] == bs[j] + FillAttr(sorted[j % |sorted|])
  {
    var ps := Scan(svg, PathTag, '>');
    RecolouredRescan(svg, sorted);
    MapBodiesBodies(ps, AddFill(sorted), 0);
    var bs, ms := Bodies(ps), Bodies(MapBodies(ps, AddFill(sorted), 0));
    forall j | 0 <= j < |bs| ensures ms[j] == bs[j] + FillAttr(sorted[j % |sorted|]) {
      assert ms[j] == AddFill(sorted)(0 + j, bs[j]);
    }
  }

  /** Recolouring only inserts text: the original is a subsequence of the result. */
  lemma RecolouredInserts(svg: string, sorted: seq<string>)
    requires |sorted| > 0
    ensures IsSubsequence(svg, PathsRecoloured(svg, sorted))
  {
    var f := Recolour(sorted);
    forall j: nat, b: string ensures IsSubsequence(Original(PathTag, '>')(j, b), f(j, b)) {
      SubsequenceRefl(">");
      SubsequenceInsertAfter(PathTag + b, FillAttr(sorted[j % |sorted|]), ">", ">");
    }
    RenderSubsequence(Scan(svg, PathTag, '>'), Original(PathTag, '>'), f, 0);
    ScanRender(svg, PathTag, '>', 0);
  }

  /** Colours without `>`, such as hex colours, keep that through the sort. */
  lemma SortedWithoutClose(colors: seq<string>)
    requires forall i :: 0 <= i < |colors| ==> '>' !in colors[i]
    ensures forall i :: 0 <= i < |SortColors(colors)| ==> '>' !in SortColors(colors)[i]
  {
    SortedMembers(colors);
  }
}
