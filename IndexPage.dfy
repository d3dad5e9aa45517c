/**
 * The logic of the main page: the tracer parameters chosen from the
 * options, the colour-mode rewrite of the traced SVG, and the cleaning of
 * the recognised paragraphs.
 */
module IndexPage {
  import opened Common
  import opened Text
  import opened Matches
  import opened ImageProcessing
  import opened JsTrim

  /** The options the tracer reads. */
  datatype TraceOptions = TraceOptions(
    colorMode: ColorMode,
    turdSize: real,
    alphaMax: real,
    threshold: real,
    optTolerance: real,
    pathomit: real)

  /** The parameters handed to the tracer; `color: None` is `undefined`. */
  datatype TraceParams = TraceParams(
    turdSize: real,
    alphaMax: real,
    optCurve: bool,
    threshold: real,
    blackOnWhite: bool,
    color: Option<string>,
    background: string,
    fillStrategy: string,
    rangeDistribution: string,
    optTolerance: real,
    pathomit: real)

  /** The page's initial options. */
  const DefaultOptions := TraceOptions(Color, 2.0, 1.0, 128.0, 0.2, 8.0)

  /** The parameter object built before tracing. */
  function ParamsFor(o: TraceOptions): (p: TraceParams)
    ensures p.optCurve && p.blackOnWhite && p.background == "transparent"
    ensures p.color.None? <==> o.colorMode.Color?
    ensures !o.colorMode.Color? ==> p.color == Some(FillValue(o.colorMode))
    ensures p.fillStrategy in {"dominant", "fixed"} && (p.fillStrategy == "dominant" <==> o.colorMode.Color?)
    ensures p.rangeDistribution in {"auto", "none"} && (p.rangeDistribution == "auto" <==> o.colorMode.Color?)
    ensures p.turdSize == o.turdSize && p.alphaMax == o.alphaMax && p.threshold == o.threshold
    ensures p.optTolerance == o.optTolerance && p.pathomit == o.pathomit
  {
    TraceParams(
      o.turdSize, o.alphaMax, true, o.threshold, true,
      if o.colorMode.Grayscale? then Some(GrayValue)
      else if o.colorMode.BlackWhite? then Some(BlackValue)
      else None,
      "transparent",
      if o.colorMode.Color? then "dominant" else "fixed",
      if o.colorMode.Color? then "auto" else "none",
      o.optTolerance, o.pathomit)
  }

  const PathOpen := "<path"
  const PathAttrs := MarkerFill + MarkerStyle
  const MarkerFill := " fill=\"auto\""
  const MarkerStyle := " style=\"fill: var(--original-color)\""
  const StyleOpen := "style=\""
  const InheritSuffix := "; color: inherit;"

  /** `svg.replace(/<path/g, '<path fill="auto" style="…"')`. */
  function MarkPaths(s: string): (r: string)
    ensures IsSubsequence(s, r)
    ensures AllFollowed(r, PathOpen, PathAttrs)
    ensures !Contains(s, PathOpen) ==> r == s
  {
    ReplaceAllInserts(s, PathOpen, PathAttrs);
    PathMarkerFresh();
    ReplaceAllFollowed(s, PathOpen, PathAttrs);
    ReplaceAll(s, PathOpen, PathOpen + PathAttrs)
  }

  /** `<` begins no occurrence of `<path` inside `<path` or the marker. */
  lemma PathMarkerFresh()
    ensures FreshStart(PathOpen, PathAttrs)
  {
    assert PathOpen[1..] == "path";
  }

  /** The callback of the `style` rewrite, given the captured styles. */
  function InheritStyle(): (nat, string) -> string
  {
    (k: nat, styles: string) => StyleOpen + styles + InheritSuffix + [Quote]
  }

  /** The new body of every `style` attribute. */
  function AppendInherit(): (nat, string) -> string
  {
    (k: nat, styles: string) => styles + InheritSuffix
  }

  /** `svg.replace(/style="([^"]*)"/g, …)`. */
  function InheritStyles(s: string): (r: string)
    ensures Scan(r, StyleOpen, Quote) == MapBodies(Scan(s, StyleOpen, Quote), AppendInherit(), 0)
    ensures var before, after := Bodies(Scan(s, StyleOpen, Quote)), Bodies(Scan(r, StyleOpen, Quote));
      |after| == |before| && forall j :: 0 <= j < |before| ==> after[j] == before[j] + InheritSuffix
    ensures IsSubsequence(s, r)
    ensures Count(Scan(s, StyleOpen, Quote)) == 0 ==> r == s
  {
    StyleRescan(s);
    StyleOnlyInserts(s);
    ReplaceMatches(s, StyleOpen, Quote, InheritStyle())
  }

  lemma StyleRescan(s: string)
    ensures var r := Render(Scan(s, StyleOpen, Quote), InheritStyle(), 0);
      Scan(r, StyleOpen, Quote) == MapBodies(Scan(s, StyleOpen, Quote), AppendInherit(), 0)
    ensures var r := Render(Scan(s, StyleOpen, Quote), InheritStyle(), 0);
      var before, after := Bodies(Scan(s, StyleOpen, Quote)), Bodies(Scan(r, StyleOpen, Quote));
      |after| == |before| && forall j :: 0 <= j < |before| ==> after[j] == before[j] + InheritSuffix
  {
    assert Wraps(InheritStyle(), AppendInherit(), StyleOpen, Quote) by {
      forall k: nat, b: string | Quote !in b
        ensures InheritStyle()(k, b) == StyleOpen + AppendInherit()(k, b) + [Quote]
      {
      }
    }
    Rescan(s, StyleOpen, Quote, InheritStyle(), AppendInherit(), 0);
    MapBodiesBodies(Scan(s, StyleOpen, Quote), AppendInherit(), 0);
  }

  lemma StyleOnlyInserts(s: string)
    ensures IsSubsequence(s, Render(Scan(s, StyleOpen, Quote), InheritStyle(), 0))
  {
    assert forall k: nat, b: string :: IsSubsequence(Original(StyleOpen, Quote)(k, b), InheritStyle()(k, b)) by {
      forall k: nat, b: string
        ensures IsSubsequence(Original(StyleOpen, Quote)(k, b), InheritStyle()(k, b))
      {
        StyleInsertion(b);
      }
    }
    RenderSubsequence(Scan(s, StyleOpen, Quote), Original(StyleOpen, Quote), InheritStyle(), 0);
    ScanRender(s, StyleOpen, Quote, 0);
  }

  /** The rewritten `style` attribute only adds the suffix before the quote. */
  lemma StyleInsertion(b: string)
    ensures IsSubsequence(StyleOpen + b + [Quote], StyleOpen + b + InheritSuffix + [Quote])
  {
    var x := StyleOpen + b + [Quote];
    var n := |StyleOpen| + |b|;
    InsertionSubsequence(x, n, InheritSuffix);
    assert x[..n] == StyleOpen + b && x[n..] == [Quote];
  }

  /** The colour-mode rewrite of the traced SVG. */
  function RewriteSvg(svg: string, mode: ColorMode): (r: string)
    ensures mode.Color? ==> IsSubsequence(ApplyColorMode(svg, Color), r)
  {
    match mode
    case Color =>
      var s1 := ApplyColorMode(svg, Color);
      var s2 := MarkPaths(s1);
      SubsequenceTransitive(s1, s2, InheritStyles(s2));
      InheritStyles(s2)
    case _ => ApplyColorMode(svg, mode)
  }

  /**
   * In the grey modes the page writes the same fills as `processVector`,
   * and the fill value is the colour passed to the tracer.
   */
  lemma GreyRewriteAgrees(svg: string, o: TraceOptions)
    requires !o.colorMode.Color?
    ensures RewriteSvg(svg, o.colorMode) == ApplyColorMode(svg, o.colorMode)
    ensures var bs := Bodies(Scan(RewriteSvg(svg, o.colorMode), FillOpen, Quote));
      ParamsFor(o).color == Some(FillValue(o.colorMode)) &&
      forall j :: 0 <= j < |bs| ==> bs[j] == FillValue(o.colorMode)
  {
    GreyFillsEverywhere(svg, o.colorMode);
  }

  /**
   * In colour mode: the fills go, every `<path` then carries the marker
   * attributes, and every `style` value afterwards, the inserted ones
   * included, ends with `; color: inherit;`.
   */
  lemma ColorRewriteSteps(svg: string)
    ensures var s1 := ApplyColorMode(svg, Color);
      var s2 := MarkPaths(s1);
      var r := RewriteSvg(svg, Color);
      IsSubsequence(s1, svg) && AllFollowed(s2, PathOpen, PathAttrs) &&
      r == InheritStyles(s2) &&
      Bodies(Scan(r, StyleOpen, Quote)) == AppendAll(Bodies(Scan(s2, StyleOpen, Quote)), InheritSuffix)
  {
    var s2 := MarkPaths(ApplyColorMode(svg, Color));
    ColorOnlyDeletes(svg);
    var before, after := Bodies(Scan(s2, StyleOpen, Quote)), Bodies(Scan(InheritStyles(s2), StyleOpen, Quote));
    assert after == AppendAll(before, InheritSuffix);
  }

  /** Every string with `x` appended. */
  function AppendAll(xs: seq<string>, x: string): (r: seq<string>)
    ensures |r| == |xs| && forall j :: 0 <= j < |xs| ==> r[j] == xs[j] + x
  {
    seq(|xs|, j requires 0 <= j < |xs| => xs[j] + x)
  }

  /** `paragraphs.map(p => p.text.trim())`. */
  function TrimAll(paragraphs: seq<string>): (r: seq<string>)
    ensures |r| == |paragraphs| && forall j :: 0 <= j < |r| ==> r[j] == Trim(paragraphs[j])
  {
    Map(paragraphs, Trim)
  }

  /** `texts.filter(text => text.length > 0)`. */
  function NonEmpty(texts: seq<string>): (r: seq<string>)
    ensures |r| <= |texts|
    ensures forall j :: 0 <= j < |r| ==> r[j] != [] && r[j] in texts
    ensures forall j :: 0 <= j < |texts| && texts[j] != [] ==> texts[j] in r
    decreases |texts|
  {
    if |texts| == 0 then []
    else
      var rest := NonEmpty(texts[1..]);
      assert forall j :: 1 <= j < |texts| ==> texts[j] == texts[1..][j - 1];
      if texts[0] == [] then rest
      else [texts[0]] + rest
  }

  /** The recognised text: the paragraphs trimmed, blank ones dropped. */
  function RecognizedText(paragraphs: seq<string>): (r: seq<string>)
    ensures |r| <= |paragraphs|
    ensures forall j :: 0 <= j < |r| ==> r[j] != [] && Trimmed(r[j])
    ensures forall j :: 0 <= j < |r| ==> exists i :: 0 <= i < |paragraphs| && r[j] == Trim(paragraphs[i])
    ensures forall i :: 0 <= i < |paragraphs| && !Blank(paragraphs[i]) ==> Trim(paragraphs[i]) in r
  {
    var r := NonEmpty(TrimAll(paragraphs));
    forall j | 0 <= j < |r| ensures exists i :: 0 <= i < |paragraphs| && r[j] == Trim(paragraphs[i]) {
      TrimmedParagraph(paragraphs, r[j]);
    }
    r
  }

  /** Each trimmed text is the trim of some paragraph. */
  lemma TrimmedParagraph(paragraphs: seq<string>, x: string)
    requires x in TrimAll(paragraphs)
    ensures exists i :: 0 <= i < |paragraphs| && x == Trim(paragraphs[i])
  {
    var texts := TrimAll(paragraphs);
    var i :| 0 <= i < |texts| && texts[i] == x;
  }

  /** One paragraph: dropped when blank, otherwise kept as its trim. */
  lemma RecognizedSingle(p: string)
    ensures RecognizedText([p]) == if Blank(p) then [] else [Trim(p)]
  {
    var texts := TrimAll([p]);
    assert texts == [Trim(p)];
    assert texts[1..] == [];
  }

  lemma {:induction false} NonEmptyAppend(xs: seq<string>, ys: seq<string>)
    ensures NonEmpty(xs + ys) == NonEmpty(xs) + NonEmpty(ys)
    decreases |xs|
  {
    if xs == [] {
      assert xs + ys == ys;
    } else {
      NonEmptyAppend(xs[1..], ys);
      assert (xs + ys)[0] == xs[0];
      assert (xs + ys)[1..] == xs[1..] + ys;
      if xs[0] != [] {
        assert [xs[0]] + (NonEmpty(xs[1..]) + NonEmpty(ys)) == [xs[0]] + NonEmpty(xs[1..]) + NonEmpty(ys);
      }
    }
  }

  /** The cleaning works paragraph by paragraph, keeping their order. */
  lemma RecognizedAppend(xs: seq<string>, ys: seq<string>)
    ensures RecognizedText(xs + ys) == RecognizedText(xs) + RecognizedText(ys)
  {
    MapAppend(xs, ys, Trim);
    NonEmptyAppend(TrimAll(xs), TrimAll(ys));
  }

  /** `xs.map(f)`. */
  function Map(xs: seq<string>, f: string -> string): (r: seq<string>)
    ensures |r| == |xs| && forall j :: 0 <= j < |xs| ==> r[j] == f(xs[j])
  {
    seq(|xs|, j requires 0 <= j < |xs| => f(xs[j]))
  }

  lemma MapAppend(xs: seq<string>, ys: seq<string>, f: string -> string)
    ensures Map(xs + ys, f) == Map(xs, f) + Map(ys, f)
  {
    var a, b := Map(xs + ys, f), Map(xs, f) + Map(ys, f);
    forall j | 0 <= j < |a| ensures a[j] == b[j] {
      if j < |xs| {
        assert (xs + ys)[j] == xs[j];
      } else {
        assert (xs + ys)[j] == ys[j - |xs|];
      }
    }
  }

  /** Filtering non-empty texts twice is filtering once. */
  lemma {:induction false} NonEmptyIdempotent(texts: seq<string>)
    requires forall j :: 0 <= j < |texts| ==> texts[j] != []
    ensures NonEmpty(texts) == texts
    decreases |texts|
  {
    if texts != [] {
      NonEmptyIdempotent(texts[1..]);
      assert texts == [texts[0]] + texts[1..];
    }
  }

  /** Cleaning the cleaned paragraphs changes nothing. */
  lemma RecognizedIdempotent(paragraphs: seq<string>)
    ensures RecognizedText(RecognizedText(paragraphs)) == RecognizedText(paragraphs)
  {
    var r := RecognizedText(paragraphs);
    forall j | 0 <= j < |r| ensures Trim(r[j]) == r[j] {
      TrimTrimmed(r[j]);
    }
    assert TrimAll(r) == r;
    NonEmptyIdempotent(r);
  }
}
