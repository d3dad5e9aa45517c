/**
 * The zoom arithmetic shared by the `useZoomPan` and `useImageZoom` hooks:
 * their bounds configuration with its defaults, the clamped step in/out and
 * the clamped wheel update.
 */
module ZoomMath {
  import opened Common

  /** The optional hook props `minZoom`, `maxZoom` and `zoomStep`. */
  datatype ZoomConfig = ZoomConfig(minZoom: real, maxZoom: real, zoomStep: real)
  {
    /** The bounds describe a non-empty interval. */
    predicate Ordered() { minZoom <= maxZoom }

    /** `z` lies in the closed interval [minZoom, maxZoom]. */
    predicate InBounds(z: real) { minZoom <= z <= maxZoom }
  }

  /** The defaults both hooks destructure: 0.1 to 3, in steps of 0.1. */
  const DefaultConfig: ZoomConfig := ZoomConfig(0.1, 3.0, 0.1)

  /** The zoom level both hooks start from. */
  const InitialZoom: real := 1.0

  /** One unit of wheel `deltaY` changes the zoom by this much, in the opposite direction. */
  const WheelFactor: real := 0.01

  /** `Math.min(prev + zoomStep, maxZoom)`: one step in, never past the upper bound. */
  function ZoomInValue(zoom: real, step: real, maxZoom: real): (r: real)
    ensures r <= maxZoom
    ensures zoom + step <= maxZoom ==> r == zoom + step
    ensures maxZoom < zoom + step ==> r == maxZoom
    ensures 0.0 <= step && zoom <= maxZoom ==> zoom <= r
  {
    Min(zoom + step, maxZoom)
  }

  /** `Math.max(prev - zoomStep, minZoom)`: one step out, never past the lower bound. */
  function ZoomOutValue(zoom: real, step: real, minZoom: real): (r: real)
    ensures r >= minZoom
    ensures minZoom <= zoom - step ==> r == zoom - step
    ensures zoom - step < minZoom ==> r == minZoom
    ensures 0.0 <= step && minZoom <= zoom ==> r <= zoom
  {
    Max(zoom - step, minZoom)
  }

  /**
   * `Math.min(Math.max(prev + delta, minZoom), maxZoom)` with
   * `delta = -deltaY * 0.01`: scrolling up (negative `deltaY`) zooms in.
   */
  function WheelZoomValue(zoom: real, deltaY: real, minZoom: real, maxZoom: real): (r: real)
    ensures minZoom <= maxZoom ==> minZoom <= r <= maxZoom
    ensures minZoom <= zoom - deltaY * WheelFactor <= maxZoom ==> r == zoom - deltaY * WheelFactor
    ensures deltaY <= 0.0 && minZoom <= zoom <= maxZoom ==> zoom <= r
    ensures deltaY >= 0.0 && minZoom <= zoom <= maxZoom ==> r <= zoom
  {
    Clamp(zoom + (-deltaY * WheelFactor), minZoom, maxZoom)
  }
}
