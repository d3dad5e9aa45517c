/**
 * `ImagePreview`: the two stacked layers of the comparison. The traced SVG is
 * the base layer; the original raster is the overlay, clipped from the right
 * so that only the left `position` percent of it shows. Both layers get the
 * same `transformStyle`.
 *
 * A style object is a map from CSS property names to values; an object
 * spread `{ ...a, ...b }` is the map union `a + b`, in which `b` wins.
 */
module ImagePreview {
  import opened Common

  /** A CSS value: plain text, or `inset(0 R% 0 0)` with the right inset R in percent. */
  datatype CssValue = Text(text: string) | InsetRight(percent: real)

  type Style = map<string, CssValue>

  const ClipPathKey: string := "clipPath"
  const TransitionKey: string := "transition"
  const ClipTransition: CssValue := Text("clip-path 0.1s ease-out")

  /**
   * The component's props. `dimensions` is accepted but not read by the
   * component, so it is not part of the model.
   */
  datatype Props = Props(originalImage: Option<string>, vectorImage: string, position: real, transformStyle: Style)

  /** What the component renders, layer by layer. */
  datatype Preview = Preview(
    vectorStyle: Style,        // style of the wrapper around the SVG markup
    vectorMarkup: string,      // markup injected as inner HTML
    overlayStyle: Style,       // style of the wrapper around the original image
    image: Option<string>)     // source of the `<img>`, when one is rendered

  /**
   * The right clip inset of the overlay, `100 - position` percent. The overlay
   * stays visible over the left `position` percent of the container.
   */
  function ClipInsetRight(position: real): (inset: real)
    ensures 100.0 - inset == position
    ensures 0.0 <= position <= 100.0 ==> 0.0 <= inset <= 100.0
    ensures position == 0.0 ==> inset == 100.0
    ensures position == 100.0 ==> inset == 0.0
  {
    100.0 - position
  }

  /**
   * `{ clipPath, transition, ...transformStyle }`: the clip and its transition,
   * overridden by any key the transform style also sets.
   */
  function OverlayStyle(position: real, transformStyle: Style): (s: Style)
    ensures s.Keys == transformStyle.Keys + {ClipPathKey, TransitionKey}
    ensures forall k :: k in transformStyle ==> s[k] == transformStyle[k]
    ensures ClipPathKey !in transformStyle ==> s[ClipPathKey] == InsetRight(ClipInsetRight(position))
    ensures TransitionKey !in transformStyle ==> s[TransitionKey] == ClipTransition
  {
    map[ClipPathKey := InsetRight(ClipInsetRight(position)), TransitionKey := ClipTransition] + transformStyle
  }

  /** JavaScript truthiness of a `string | null`: null and the empty string are false. */
  predicate Truthy(s: Option<string>)
  {
    s.Some? && s.value != ""
  }

  /**
   * The rendered layers: the SVG layer's style is exactly the transform style,
   * the overlay shares every transform property with it, and the `<img>` is
   * rendered exactly when `originalImage` is truthy.
   */
  function Render(p: Props): (r: Preview)
    ensures r.vectorStyle == p.transformStyle
    ensures r.vectorMarkup == p.vectorImage
    ensures forall k :: k in r.vectorStyle ==> k in r.overlayStyle && r.overlayStyle[k] == r.vectorStyle[k]
    ensures r.overlayStyle.Keys - r.vectorStyle.Keys <= {ClipPathKey, TransitionKey}
    ensures r.image.Some? <==> Truthy(p.originalImage)
    ensures r.image.Some? ==> r.image == p.originalImage
  {
    Preview(
      p.transformStyle,
      p.vectorImage,
      OverlayStyle(p.position, p.transformStyle),
      if Truthy(p.originalImage) then p.originalImage else None)
  }
}
