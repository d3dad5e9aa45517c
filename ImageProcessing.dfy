/**
 * `processVector`: the traced SVG's `fill="…"` attributes removed or set
 * to one grey, according to the colour mode.
 */
module ImageProcessing {
  import opened Text
  import opened Matches

  /** The three colour modes of the vectoriser. */
  datatype ColorMode = Color | Grayscale | BlackWhite

  const FillOpen := "fill=\""
  const Quote := '"'
  const GrayValue := "#666666"
  const BlackValue := "#000000"

  /** What every `fill="…"` attribute becomes. */
  function FillReplacement(mode: ColorMode): (r: string)
    ensures mode.Color? <==> r == ""
  {
    match mode
    case Color => ""
    case Grayscale => FillOpen + GrayValue + [Quote]
    case BlackWhite => FillOpen + BlackValue + [Quote]
  }

  /** The value a grey mode writes into every fill. */
  function FillValue(mode: ColorMode): string
    requires !mode.Color?
  {
    if mode.Grayscale? then GrayValue else BlackValue
  }

  /** `svg.replace(/fill="[^"]*"/g, …)` as `processVector` chooses it. */
  function ApplyColorMode(svg: string, mode: ColorMode): (r: string)
    ensures Count(Scan(svg, FillOpen, Quote)) == 0 ==> r == svg
  {
    ReplaceMatches(svg, FillOpen, Quote, Constant(FillReplacement(mode)))
  }

  /** In colour mode the fills are cut out and nothing is added. */
  lemma ColorOnlyDeletes(svg: string)
    ensures IsSubsequence(ApplyColorMode(svg, Color), svg)
  {
    var ps := Scan(svg, FillOpen, Quote);
    RenderSubsequence(ps, Constant(""), Original(FillOpen, Quote), 0);
    ScanRender(svg, FillOpen, Quote, 0);
  }

  /**
   * In a grey mode the result holds exactly the fills of the input, at the
   * same places among the same surrounding text, each now set to the mode's
   * value.
   */
  lemma GreyFillsEverywhere(svg: string, mode: ColorMode)
    requires !mode.Color?
    ensures Scan(ApplyColorMode(svg, mode), FillOpen, Quote)
         == MapBodies(Scan(svg, FillOpen, Quote), Constant(FillValue(mode)), 0)
    ensures var bs := Bodies(Scan(ApplyColorMode(svg, mode), FillOpen, Quote));
      |bs| == Count(Scan(svg, FillOpen, Quote)) && forall j :: 0 <= j < |bs| ==> bs[j] == FillValue(mode)
  {
    var f, h := Constant(FillReplacement(mode)), Constant(FillValue(mode));
    assert Wraps(f, h, FillOpen, Quote);
    Rescan(svg, FillOpen, Quote, f, h, 0);
    MapBodiesBodies(Scan(svg, FillOpen, Quote), h, 0);
  }

  /** Applying a grey mode twice is applying it once. */
  lemma GreyIdempotent(svg: string, mode: ColorMode)
    requires !mode.Color?
    ensures ApplyColorMode(ApplyColorMode(svg, mode), mode) == ApplyColorMode(svg, mode)
  {
    var f, h := Constant(FillReplacement(mode)), Constant(FillValue(mode));
    GreyFillsEverywhere(svg, mode);
    RenderMapBodies(Scan(svg, FillOpen, Quote), h, f, f, 0);
  }
}
