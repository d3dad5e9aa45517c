# IMG-to-SVG: a verified model of the image comparison view and the SVG post-processing

IMG-to-SVG is a browser application. It traces a raster image into an SVG,
recognises its text and proposes fonts. It then shows the original raster and the
vector result stacked in one comparison view, with a wipe between them and
zoom/pan controls. This project models the deterministic core of that
application in Dafny and proves what its code promises.

The core has these parts:

- **Zoom state of the comparison view.**
  - `useZoomPan` keeps `zoom` and `pan`. Its cursor-anchored wheel zoom keeps the content point under the cursor in place. Module `ZoomPan`, class `ZoomPanState`.
  - `useImageZoom` keeps a clamped `zoom` driven by keyboard and Alt+wheel events. Module `ImageZoom`, class `ImageZoomState`.
  - `useZoomHandlers` applies the same updates with bounds fixed at 0.1–3, gated by Ctrl/Cmd. Module `ZoomHandlers`.
  - The clamped arithmetic these share is in `ZoomMath`.
- **Preview geometry.**
  - `PreviewContainer` scales the image to a 300 px base height with the same aspect ratio, then multiplies by the zoom. Module `PreviewContainer`.
  - `ImagePreview` builds the wipe clip inset and the two layer styles. Module `ImagePreview`.
- **SVG string rewriting.**
  - `prepareSvgForDownload` inserts root attributes only where they are missing and forces a fill on shape tags. Module `SvgUtils`.
  - The colour-mode fill rewrite of `processVector` is in `ImageProcessing`. The page's colour-mode rewrite, tracer parameters and text cleaning are in `IndexPage`.
  - `mapColorsToSvgPaths` recolours `<path …>` tags cyclically with a palette sorted by lightness. The `#rrggbb` encoder, its parse-back and the opaque-pixel filter are also in `ColorAnalysis`.
- **Encoders and rankers.**
  - The AI/CDR text wrappers are in `FileConverters`.
  - `detectFonts`, with its random draws passed in, is in `FontDetection`.

Helper modules hold the JavaScript behaviour the code relies on:

- `Text`: substring search, first-occurrence replace, global replace, subsequences.
- `Matches`: the leftmost, non-overlapping global replace `s.replace(/open([^c]*)c/g, f)`. It splits the text into matches and plain characters.
- `Sorting`: `Array.prototype.sort` with a numeric comparator. This sort is stable, and a stable insertion sort computes the same ordering.
- `JsTrim`: `String.prototype.trim`.
- `Common`: `Math.min`, `Math.max`, clamping and `Math.round`.

All arithmetic uses exact `real`s; where the code divides, a precondition rules
out a zero divisor. Regular expressions are explicit scanners over `seq<char>`.

The rest of the system is passed in as plain values:

- DOM measurement becomes a `Rect`, or `None` for a missing container.
- Keyboard and wheel events become value records.
- `Math.random` becomes a sequence of draws in [0, 1).
- The canvas pixel buffer becomes an `array<int>`.

Code that updates state in place is written as classes and methods:

- the zoom hooks;
- the pixel loop, `ColorAnalysis.OpaquePixels`;
- the path-recolouring replace with its running counter, `ColorAnalysis.RecolourPaths`;
- the `forEach` of `detectFonts`, `FontDetection.DetectAmong`.

Each method is proved against a function that specifies it, and the lemmas are proved about that function.

## Model

| member | source | states |
|---|---|---|
| ZoomMath.ZoomInValue | src/hooks/useZoomPan.ts:41 | one step in never passes maxZoom; it is exactly zoom+step below the bound and maxZoom above it; it never lowers an in-bounds zoom |
| ZoomMath.ZoomOutValue | src/hooks/useZoomPan.ts:42 | one step out never drops below minZoom; it is exactly zoom−step above the bound and minZoom below it; it never raises an in-bounds zoom |
| ZoomMath.WheelZoomValue | src/hooks/useZoomPan.ts:27-28 | the wheel zoom lies in [minZoom, maxZoom] when the bounds are ordered; it equals zoom − deltaY·0.01 when that is in bounds; a wheel-up never lowers and a wheel-down never raises an in-bounds zoom |
| ZoomPan.AnchoredPan | src/hooks/useZoomPan.ts:31-35 | the content coordinate under the cursor, (cursor − pan)/zoom, is the same before and after the zoom; pan is kept when the zoom does not change or the cursor is at the pan offset |
| ZoomPan.AnchorKept | src/hooks/useZoomPan.ts:31-35 | the new pan moves the cursor's distance from the pan offset by the factor newZoom/zoom, which keeps the anchor |
| ZoomPan.ZoomToPoint | src/hooks/useZoomPan.ts:22-35 | the new zoom lies within the bounds; both axes keep the point under the cursor (x = clientX − rect.left, y = clientY − rect.top); a clamped, unchanged zoom leaves pan unchanged |
| ZoomPan.ZoomToPointReversible | src/hooks/useZoomPan.ts:22-35 | zooming by deltaY at a cursor and then by −deltaY at the same cursor restores zoom and pan when neither step is clamped |
| ZoomPan.PanDeterminedByAnchor | src/hooks/useZoomPan.ts:31-35 | only one pan keeps a given content point under the cursor at a given zoom, so the anchored pan is the only one possible |
| ZoomPan.ZoomPanState.constructor | src/hooks/useZoomPan.ts:9-15 | the hook starts at zoom 1 and pan (0, 0) with the given bounds (defaults 0.1, 3, 0.1 in `ZoomMath.DefaultConfig`) |
| ZoomPan.ZoomPanState.ZoomIn | src/hooks/useZoomPan.ts:41 | zoom becomes min(zoom + step, maxZoom), which is ≤ maxZoom; pan is unchanged |
| ZoomPan.ZoomPanState.ZoomOut | src/hooks/useZoomPan.ts:42 | zoom becomes max(zoom − step, minZoom), which is ≥ minZoom; pan is unchanged |
| ZoomPan.ZoomPanState.ZoomChange | src/hooks/useZoomPan.ts:43 | zoom becomes the argument, unclamped; pan is unchanged |
| ZoomPan.ZoomPanState.SetPan | src/hooks/useZoomPan.ts:48 | pan becomes the argument; zoom is unchanged |
| ZoomPan.ZoomPanState.ZoomToPointAt | src/hooks/useZoomPan.ts:18-39 | without a container, neither zoom nor pan changes; otherwise the state becomes `ZoomToPoint` of the old state, and zoom lies within the bounds |
| ImageZoom.KeyDownZoom | src/hooks/useImageZoom.ts:25-35 | Ctrl/Cmd with `=` or `+` zooms in; Ctrl/Cmd with `-` zooms out; any other key or no modifier leaves zoom unchanged; an in-bounds zoom stays in bounds |
| ImageZoom.KeyDownPreventsDefault | src/hooks/useImageZoom.ts:25-35 | the default action is prevented exactly when Ctrl/Cmd is held with a zoom key |
| ImageZoom.WheelZoom | src/hooks/useImageZoom.ts:37-43 | without Alt, zoom is unchanged; with Alt, it is clamp(prev − deltaY·0.01, minZoom, maxZoom), which lies in bounds |
| ImageZoom.ReplayStaysInBounds | src/hooks/useImageZoom.ts:18-43 | from an in-bounds start with ordered bounds and a non-negative step, every sequence of key and wheel events keeps zoom in bounds |
| ImageZoom.ReplayIgnored | src/hooks/useImageZoom.ts:25-43 | a sequence of events that are all ignored (no modifier, or no zoom key) leaves zoom unchanged |
| ImageZoom.ImageZoomState.constructor | src/hooks/useImageZoom.ts:10-16 | the hook starts at zoom 1 with the given bounds |
| ImageZoom.ImageZoomState.ZoomIn | src/hooks/useImageZoom.ts:18 | zoom becomes min(zoom + step, maxZoom), which is ≤ maxZoom |
| ImageZoom.ImageZoomState.ZoomOut | src/hooks/useImageZoom.ts:19 | zoom becomes max(zoom − step, minZoom), which is ≥ minZoom |
| ImageZoom.ImageZoomState.SetZoom | src/hooks/useImageZoom.ts:56 | the exposed `setZoom` stores its argument unclamped |
| ImageZoom.ImageZoomState.HandleKeyDown | src/hooks/useImageZoom.ts:25-35 | the new zoom is `KeyDownZoom` of the old one; it reports whether the default was prevented; it keeps zoom in bounds |
| ImageZoom.ImageZoomState.HandleWheel | src/hooks/useImageZoom.ts:37-43 | the new zoom is `WheelZoom` of the old one; the default is prevented exactly when Alt is held; it keeps zoom in bounds |
| ZoomHandlers.OnKeyDown | src/components/image-comparison/ZoomHandlers.tsx:10-20 | with Ctrl/Cmd, `=` or `+` gives min(prev + 0.1, 3) and `-` gives max(prev − 0.1, 0.1); anything else leaves zoom unchanged; [0.1, 3] is preserved |
| ZoomHandlers.OnWheel | src/components/image-comparison/ZoomHandlers.tsx:22-28 | with Ctrl/Cmd, zoom becomes clamp(prev − deltaY·0.01, 0.1, 3); without it, zoom is unchanged; [0.1, 3] is preserved; deltaY ≤ 0 never lowers and deltaY ≥ 0 never raises an in-range zoom |
| ZoomHandlers.ReplayStaysInRange | src/components/image-comparison/ZoomHandlers.tsx:10-28 | any sequence of key and wheel events keeps an in-range zoom in [0.1, 3] |
| ZoomHandlers.KeyPreventsDefault | src/components/image-comparison/ZoomHandlers.tsx:10-20 | the browser default is suppressed exactly for Ctrl/Cmd with `=`, `+` or `-`; every other key leaves zoom unchanged |
| ZoomHandlers.WheelPreventsDefault | src/components/image-comparison/ZoomHandlers.tsx:22-28 | the browser default is suppressed exactly when Ctrl/Cmd is held; then zoom lands in [0.1, 3], otherwise it is unchanged |
| ZoomHandlers.AgreesWithImageZoom | src/components/image-comparison/ZoomHandlers.tsx:10-28 | the key handler equals `useImageZoom`'s with the default bounds and suppresses the default for the same keys; the wheel handler equals it once Ctrl/Cmd stands in for Alt |
| PreviewContainer.BaseHeight | src/components/image-comparison/PreviewContainer.tsx:11 | the base height is at most 300 and at most the image height; a height up to 300 is kept |
| PreviewContainer.BaseSize | src/components/image-comparison/PreviewContainer.tsx:11-13 | the base size keeps the aspect ratio (width·height = baseWidth·baseHeight crosswise); an image up to 300 px high is not scaled; a positive image never gets wider |
| PreviewContainer.ScaledWidth | src/components/image-comparison/PreviewContainer.tsx:12-13 | width·(h/height) scaled back by height gives width·h; a scale of 1 keeps the width; a shrinking scale keeps it within [0, width] |
| PreviewContainer.RenderedSize | src/components/image-comparison/PreviewContainer.tsx:19-20 | the rendered height is at most 300·zoom and at most height·zoom; the aspect ratio is kept; zoom 1 gives the base size |
| PreviewContainer.RenderedLinear | src/components/image-comparison/PreviewContainer.tsx:19-20 | rendered width and height are linear in the zoom |
| ImagePreview.ClipInsetRight | src/components/image-comparison/ImagePreview.tsx:30 | the right inset is 100 − position; position 0 hides the overlay (inset 100); position 100 shows it fully (inset 0); [0, 100] maps into [0, 100] |
| ImagePreview.OverlayStyle | src/components/image-comparison/ImagePreview.tsx:27-33 | the overlay style has exactly the keys of `transformStyle` plus clipPath and transition; every key of `transformStyle` wins, because the spread comes last; clipPath and transition apply only when `transformStyle` lacks them |
| ImagePreview.Render | src/components/image-comparison/ImagePreview.tsx:20-41 | the vector layer gets exactly `transformStyle` and the SVG markup; the overlay extends it with at most clipPath and transition; the `<img>` is rendered exactly when `originalImage` is truthy, with that source |
| SvgUtils.EnsureAttribute | src/utils/svgUtils.ts:3-5 | a guarded insertion leaves the text unchanged when the key is present or there is no `<svg`; otherwise it inserts the attribute right after the first `<svg` |
| SvgUtils.EnsureKeeps | src/utils/svgUtils.ts:3-23 | an insertion never destroys another key already present |
| SvgUtils.EnsureAdds | src/utils/svgUtils.ts:3-23 | after an insertion, the key and `<svg` are both present |
| SvgUtils.EnsureSubsequence | src/utils/svgUtils.ts:4 | an insertion only adds text |
| SvgUtils.AddRootWithoutSvg | src/utils/svgUtils.ts:3-23 | without `<svg`, the five attribute steps change nothing |
| SvgUtils.AddRootHasKeys | src/utils/svgUtils.ts:3-23 | with `<svg`, the result holds viewBox, width=, height=, preserveAspectRatio and style= |
| SvgUtils.AddRootComplete | src/utils/svgUtils.ts:3-23 | an input that already holds the five keys is left unchanged |
| SvgUtils.AddRootSubsequence | src/utils/svgUtils.ts:3-23 | the attribute steps only insert text |
| SvgUtils.MatchAt | src/utils/svgUtils.ts:26 | the shape regex matches at a position exactly when a `<`, a shape name and no `fill=` before the next `>` follow |
| SvgUtils.FillShapesFillsAll | src/utils/svgUtils.ts:26 | after the fill rewrite, every shape tag has `fill=` before its next `>` |
| SvgUtils.FillShapesFixpoint | src/utils/svgUtils.ts:26 | a text whose shape tags all have a fill is left unchanged |
| SvgUtils.FilledTagUntouched | src/utils/svgUtils.ts:26 | a shape tag that already has a fill is copied as it is |
| SvgUtils.FillShapesSubsequence | src/utils/svgUtils.ts:26 | the fill rewrite only inserts text |
| SvgUtils.KeepsSvgTag | src/utils/svgUtils.ts:26 | the fill rewrite keeps `<svg` |
| SvgUtils.FillNoNewSvg | src/utils/svgUtils.ts:26 | the fill rewrite creates no `<svg` |
| SvgUtils.FillKeepsKey | src/utils/svgUtils.ts:26 | the fill rewrite keeps each root key; for `height=` this holds when the text has no `<patheight=` |
| SvgUtils.PrepareSvgForDownload | src/utils/svgUtils.ts:1-29 | every shape tag of the result has a fill, and the input is a subsequence of the result |
| SvgUtils.PrepareWithoutSvg | src/utils/svgUtils.ts:3-26 | without `<svg`, only the fill rewrite applies |
| SvgUtils.PreparedHasRootKeys | src/utils/svgUtils.ts:3-26 | with `<svg`, the result keeps `<svg` and holds viewBox, width=, preserveAspectRatio and style=; it holds height= too when the input has no `<patheight=` |
| SvgUtils.PrepareIdempotent | src/utils/svgUtils.ts:3-26 | preparing a prepared text changes nothing, for inputs without `<patheight=` |
| SvgUtils.PrepareNotIdempotent | src/utils/svgUtils.ts:11-26 | for `<svg viewBox width= preserveAspectRatio style=><patheight=1>`, which contains `<patheight=`, preparing twice differs from preparing once |
| ColorAnalysis.RgbToHsl | src/utils/colorAnalysis.ts:8-31 | lightness is (max + min)/2 of the channels scaled to [0, 100] |
| ColorAnalysis.GreyHsl | src/utils/colorAnalysis.ts:13-18 | for r = g = b, hue and saturation are 0 and lightness is v/255·100 |
| ColorAnalysis.HslRanges | src/utils/colorAnalysis.ts:8-31 | for channels in 0–255, hue lies in [0, 360) and saturation and lightness in [0, 100] |
| ColorAnalysis.ToHex | src/utils/colorAnalysis.ts:132-134 | `toString(16)` gives lowercase hex digits, one digit exactly below 16 and at most two below 256 |
| ColorAnalysis.ToHexValue | src/utils/colorAnalysis.ts:132-134 | reading the digits of `toString(16)` back gives the number |
| ColorAnalysis.PadStart | src/utils/colorAnalysis.ts:132-134 | `padStart` keeps the text as a suffix and fills the front up to the target length |
| ColorAnalysis.ChannelHexValue | src/utils/colorAnalysis.ts:132-134 | a channel's two digits read back to its rounded value |
| ColorAnalysis.ColorHex | src/utils/colorAnalysis.ts:131-136 | a colour is `#` followed by six lowercase hex digits |
| ColorAnalysis.Channels | src/utils/colorAnalysis.ts:151-159 | each channel parsed from slices 1–3, 3–5 and 5–7 is below 256 |
| ColorAnalysis.HexRoundTrip | src/utils/colorAnalysis.ts:131-159 | parsing the encoded colour gives back the three rounded channels |
| ColorAnalysis.HexColorChannels | src/utils/colorAnalysis.ts:151-159 | a `#` followed by six hex digits parses to the values of its three digit pairs |
| ColorAnalysis.OpaquePixels | src/utils/colorAnalysis.ts:51-59 | the pixel loop collects what `OpaqueFrom` of the buffer's contents specifies |
| ColorAnalysis.OpaqueIsFilter | src/utils/colorAnalysis.ts:51-59 | the result keeps exactly the RGBA quadruples whose alpha is above 128, in order, as (r, g, b) |
| ColorAnalysis.SortColorsSpec | src/utils/colorAnalysis.ts:150-162 | the sorted palette is a permutation of the colours, in non-decreasing lightness, and colours of equal lightness keep their order |
| ColorAnalysis.MapColorsToSvgPaths | src/utils/colorAnalysis.ts:146-171 | an empty palette returns the SVG unchanged; otherwise the result is `PathsRecoloured` by the palette sorted by lightness |
| ColorAnalysis.RecolourPaths | src/utils/colorAnalysis.ts:165-170 | the replace with its running `pathIndex` computes `PathsRecoloured` |
| ColorAnalysis.RecolouredRescan | src/utils/colorAnalysis.ts:165-170 | the result has the same path tags in the same places, each with its new attributes; the text outside them is unchanged |
| ColorAnalysis.RecolouredTags | src/utils/colorAnalysis.ts:165-170 | the number of path tags is unchanged; the k-th tag's attributes gain ` fill="sorted[k mod n]"` right before its `>` |
| ColorAnalysis.RecolouredInserts | src/utils/colorAnalysis.ts:165-170 | recolouring only inserts text |
| ColorAnalysis.SortedWithoutClose | src/utils/colorAnalysis.ts:150-162 | sorting brings in no colour containing `>` |
| ImageProcessing.FillReplacement | src/utils/imageProcessing.ts:28-38 | colour mode deletes a fill; the grey modes write a non-empty replacement |
| ImageProcessing.ApplyColorMode | src/utils/imageProcessing.ts:28-38 | text with no `fill="…"` match is returned unchanged in every mode |
| ImageProcessing.ColorOnlyDeletes | src/utils/imageProcessing.ts:29-30 | colour mode only deletes text |
| ImageProcessing.GreyFillsEverywhere | src/utils/imageProcessing.ts:32-37 | in grayscale and blackwhite modes the fills are the same in number and place, and every fill value becomes `#666666` or `#000000` respectively; the text outside them is unchanged |
| ImageProcessing.GreyIdempotent | src/utils/imageProcessing.ts:32-37 | applying a grey mode twice is applying it once |
| IndexPage.ParamsFor | src/pages/Index.tsx:66-79 | color is `#666666` for grayscale, `#000000` for blackwhite and undefined for colour; fillStrategy is dominant and rangeDistribution auto exactly in colour mode, otherwise fixed and none; optCurve, blackOnWhite and a transparent background are fixed; the numeric options pass through |
| IndexPage.MarkPaths | src/pages/Index.tsx:88 | every `<path` is followed by ` fill="auto" style="fill: var(--original-color)"`; text is only inserted; text without `<path` is unchanged |
| IndexPage.InheritStyles | src/pages/Index.tsx:89-91 | every `style="S"` becomes `style="S; color: inherit;"`; the styles are the same in number and place; text is only inserted |
| IndexPage.StyleInsertion | src/pages/Index.tsx:89-91 | a rewritten style attribute only adds the suffix before its closing quote |
| IndexPage.RewriteSvg | src/pages/Index.tsx:85-96 | in colour mode, the result contains the fill-stripped SVG as a subsequence |
| IndexPage.GreyRewriteAgrees | src/pages/Index.tsx:92-95 | the page's grey rewrites equal the `processVector` rewrite; every fill then holds the colour the tracer was given |
| IndexPage.ColorRewriteSteps | src/pages/Index.tsx:85-91 | colour mode removes fills, marks every `<path`, then appends `; color: inherit;` to every style, including the inserted ones |
| IndexPage.RecognizedText | src/pages/Index.tsx:60-62 | the cleaned paragraphs are no more than the input, each non-empty, without surrounding white space and the trim of some input paragraph; the trim of every paragraph that is not blank is among them |
| IndexPage.RecognizedSingle | src/pages/Index.tsx:60-62 | a single paragraph is dropped when blank and otherwise kept as its trim |
| IndexPage.RecognizedAppend | src/pages/Index.tsx:60-62 | the cleaning works paragraph by paragraph and keeps their order |
| IndexPage.RecognizedIdempotent | src/pages/Index.tsx:60-62 | cleaning cleaned paragraphs changes nothing |
| JsTrim.Trim | src/pages/Index.tsx:61 | the result has no white space at either end, and it is empty exactly when the text is all white space |
| JsTrim.TrimSlice | src/pages/Index.tsx:61 | the trimmed text is a slice of the input with only white space cut from either end |
| FileConverters.ConvertToAi | src/utils/fileConverters.ts:24-30 | the output is the Illustrator header, the SVG, then the EOF footer, and its length is the SVG's plus a constant |
| FileConverters.AiRoundTrip | src/utils/fileConverters.ts:24-30 | stripping the header and footer recovers the SVG |
| FileConverters.AiParseSound | src/utils/fileConverters.ts:24-30 | the parser accepts exactly the outputs of `convertToAi`, and what it returns re-encodes to its input |
| FileConverters.AiInjective | src/utils/fileConverters.ts:24-30 | different SVGs give different AI texts |
| FileConverters.ConvertToCdr | src/utils/fileConverters.ts:32-37 | the output is the CorelDRAW header, the SVG, then the END footer, and its length is the SVG's plus a constant |
| FileConverters.CdrRoundTrip | src/utils/fileConverters.ts:32-37 | stripping the header and footer recovers the SVG |
| FileConverters.CdrParseSound | src/utils/fileConverters.ts:32-37 | the parser accepts exactly the outputs of `convertToCdr`, and what it returns re-encodes to its input |
| FileConverters.CdrInjective | src/utils/fileConverters.ts:32-37 | different SVGs give different CDR texts |
| FileConverters.AiNeverCdr | src/utils/fileConverters.ts:24-37 | no AI text is also a CDR text |
| FontDetection.Confidence | src/utils/fontDetection.ts:27 | a draw in [0, 1) gives a confidence between 70 and 100 hundredths |
| FontDetection.Detected | src/utils/fontDetection.ts:23-30 | there are no more matches than fonts; each names a listed font with a confidence in [0.70, 1.00] |
| FontDetection.DetectFonts | src/utils/fontDetection.ts:17-34 | the result is the report for the eight common fonts and the given draws |
| FontDetection.DetectAmong | src/utils/fontDetection.ts:23-33 | the loop followed by the sort computes the report |
| FontDetection.ReportBounds | src/utils/fontDetection.ts:6-33 | there are at most as many results as fonts, each a listed font with confidence in [0.70, 1.00] |
| FontDetection.ReportDescending | src/utils/fontDetection.ts:33 | the results are in non-increasing confidence |
| FontDetection.ReportStable | src/utils/fontDetection.ts:33 | results with equal confidence keep the font list's order |
| FontDetection.ReportDistinct | src/utils/fontDetection.ts:6-30 | no name is reported twice when the list has no name twice |
| FontDetection.CommonFontsDistinct | src/utils/fontDetection.ts:6-15 | the list holds eight different names, so there are at most eight results and none repeats |
| FontDetection.DetectedIff | src/utils/fontDetection.ts:23-30 | font i is among the matches exactly when its threshold draw exceeds 0.6 |
| FontDetection.ReportIff | src/utils/fontDetection.ts:23-33 | font i is in the sorted report exactly when its threshold draw exceeds 0.6 |
| Matches.ScanRender | src/utils/imageProcessing.ts:30 | the regex scan loses nothing: putting every match back gives the text |
| Matches.Rescan | src/utils/imageProcessing.ts:33 | when each replacement is itself a match, scanning the result finds the same matches in the same places, with the new bodies |
| Sorting.SortBySorted | src/utils/fontDetection.ts:33 | the comparator sort orders by key and is a permutation |
| Sorting.SortByStable | src/utils/fontDetection.ts:33 | the comparator sort keeps elements with equal keys in their order |
| Common.JsRound | src/utils/colorAnalysis.ts:132 | `Math.round` gives the integer within half a unit, rounding halves up |

## Left out

- The tracing back-ends (potrace, the Vectorizer page) and their callbacks are foreign libraries. Only the string post-processing of their output is modelled.
- OCR (Tesseract), image adjustment (Jimp) and PDF generation with pdfkit (src/utils/fileConverters.ts:4-22) are foreign libraries.
- The k-means clustering of `extractDominantColors` (src/utils/colorAnalysis.ts:62-125) is left out. It uses random initial centroids, a floating-point convergence test and canvas image decoding. Only the pixel filter before it and the hex encoding after it are modelled.
- The random pick of three fonts in src/pages/Index.tsx:98-100 is not modelled.
- Download plumbing (Blob, object URLs, anchors, toasts) is left out.
- Event-listener registration and clean-up, and DOM measurement, are left out. Events, the bounding rect and the canvas buffer are parameters.
- IEEE-754 behaviour (rounding error, NaN, Infinity) is not modelled. Arithmetic is exact over `real`, and a zero divisor is excluded by a precondition (zoom ≠ 0, image height ≠ 0).
- ColorAnalysis.Channels: `parseInt(s, 16)` accepts an optional `0x` and reads the longest prefix of hex digits, giving NaN for none. Leading white space and a sign are not modelled.
- ColorAnalysis.MapColorsToSvgPaths: requires every colour to parse as `#rrggbb`. A malformed colour makes the comparator return NaN, and the order the engine then produces is not modelled.
- ColorAnalysis.RecolouredRescan and ColorAnalysis.RecolouredTags: require that no colour contains `>`. A colour with `>` would end the inserted tag early, so the tags of the result would no longer line up with those of the input. RecolouredInserts holds without this requirement.
- ColorAnalysis.RgbToHsl: channels are limited to 0–255, the range the parsed hex pairs have. Only the lightness formula is stated in its contract, because only lightness is read; hue and saturation are bounded by `HslRanges`.
- FontDetection.DetectFonts and FontDetection.DetectAmong: require at least two draws per font, which is the most the loop can consume. The draws are one stream in call order: a threshold draw per font, then a confidence draw when the font is reported.
- FontDetection.CommonFonts: the `characteristics` of each listed font are never read, so they are not modelled.
- SvgUtils.PrepareIdempotent: stated only for inputs without `<patheight=`. In such a tag the `h` of `path` also begins `height=`, so the `includes('height=')` guard passes on the first call. The fill insertion after `<path` then splits `height=`, and a second call inserts `height="100%"`. SvgUtils.PrepareNotIdempotent proves this on a concrete input.
- SvgUtils.PreparedHasRootKeys: guarantees `height=` in the result only for inputs without `<patheight=`, for the same reason.
- SvgUtils.FillKeepsKey: the `height=` case requires no `<patheight=`, for the same reason.
- ImagePreview.Render: the `dimensions` prop is accepted but never read, so it is not modelled. The two fixed labels are static markup.
- ImageZoom.ImageZoomState.SetZoom and ZoomPan.ZoomPanState.ZoomChange store any value, as the code does. The bounds invariant therefore holds only for the other handlers, and `ZoomToPointAt` needs a non-zero zoom because the code divides by it.
