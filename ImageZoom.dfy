/**
 * The `useImageZoom` hook: one zoom level, clamped step zoom, and the
 * window `keydown` / container `wheel` listeners that turn Ctrl/Cmd+'='/'+',
 * Ctrl/Cmd+'-' and Alt+wheel into zoom changes.
 */
module ImageZoom {
  import opened Events
  import opened ZoomMath

  /**
   * The zoom after the `keydown` listener sees `e`: Ctrl/Cmd with '=' or '+'
   * steps in, Ctrl/Cmd with '-' steps out, anything else changes nothing.
   */
  function KeyDownZoom(config: ZoomConfig, zoom: real, e: KeyEvent): (r: real)
    ensures !e.CtrlOrMeta() ==> r == zoom
    ensures !e.IsZoomInKey() && !e.IsZoomOutKey() ==> r == zoom
    ensures e.CtrlOrMeta() && e.IsZoomInKey() ==> r == ZoomInValue(zoom, config.zoomStep, config.maxZoom)
    ensures e.CtrlOrMeta() && e.IsZoomOutKey() ==> r == ZoomOutValue(zoom, config.zoomStep, config.minZoom)
    ensures config.Ordered() && config.InBounds(zoom) && 0.0 <= config.zoomStep ==> config.InBounds(r)
  {
    if e.CtrlOrMeta() then
      if e.IsZoomInKey() then ZoomInValue(zoom, config.zoomStep, config.maxZoom)
      else if e.IsZoomOutKey() then ZoomOutValue(zoom, config.zoomStep, config.minZoom)
      else zoom
    else zoom
  }

  /** The `keydown` listener calls `preventDefault` exactly when it handles the key. */
  function KeyDownPreventsDefault(e: KeyEvent): (prevented: bool)
    ensures prevented <==> e.CtrlOrMeta() && (e.IsZoomInKey() || e.IsZoomOutKey())
  {
    e.CtrlOrMeta() && (e.IsZoomInKey() || e.IsZoomOutKey())
  }

  /** The zoom after the `wheel` listener sees `e`: only Alt+wheel zooms, clamped. */
  function WheelZoom(config: ZoomConfig, zoom: real, e: WheelEvent): (r: real)
    ensures !e.altKey ==> r == zoom
    ensures e.altKey ==> r == WheelZoomValue(zoom, e.deltaY, config.minZoom, config.maxZoom)
    ensures e.altKey && config.Ordered() ==> config.InBounds(r)
  {
    if e.altKey then WheelZoomValue(zoom, e.deltaY, config.minZoom, config.maxZoom) else zoom
  }

  /** One event, dispatched to the listener of its kind. */
  function EventZoom(config: ZoomConfig, zoom: real, e: ZoomEvent): real
  {
    match e
    case Key(k) => KeyDownZoom(config, zoom, k)
    case Wheel(w) => WheelZoom(config, zoom, w)
  }

  /** The zoom after the listeners have seen `events` in order. */
  function Replay(config: ZoomConfig, zoom: real, events: seq<ZoomEvent>): real
    decreases |events|
  {
    if events == [] then zoom else Replay(config, EventZoom(config, zoom, events[0]), events[1..])
  }

  /**
   * With ordered bounds, a non-negative step and a start inside the bounds,
   * no sequence of key and wheel events takes the zoom out of the bounds.
   */
  lemma {:induction false} ReplayStaysInBounds(config: ZoomConfig, zoom: real, events: seq<ZoomEvent>)
    requires config.Ordered() && 0.0 <= config.zoomStep
    requires config.InBounds(zoom)
    ensures config.InBounds(Replay(config, zoom, events))
    decreases |events|
  {
    if events != [] {
      var next := EventZoom(config, zoom, events[0]);
      assert config.InBounds(next);
      ReplayStaysInBounds(config, next, events[1..]);
    }
  }

  /** Events that are neither modified key presses nor Alt+wheel leave the zoom alone. */
  predicate Ignored(e: ZoomEvent)
  {
    match e
    case Key(k) => !k.CtrlOrMeta()
    case Wheel(w) => !w.altKey
  }

  /** Replaying only ignored events changes nothing. */
  lemma {:induction false} ReplayIgnored(config: ZoomConfig, zoom: real, events: seq<ZoomEvent>)
    requires forall i :: 0 <= i < |events| ==> Ignored(events[i])
    ensures Replay(config, zoom, events) == zoom
    decreases |events|
  {
    if events != [] {
      assert Ignored(events[0]);
      ReplayIgnored(config, zoom, events[1..]);
    }
  }

  /** The hook instance: its props and its `zoom` state cell. */
  class ImageZoomState {
    const config: ZoomConfig
    var zoom: real

    /** Mounting the hook: zoom starts at 1. */
    constructor (config: ZoomConfig)
      ensures this.config == config && zoom == InitialZoom
    {
      this.config := config;
      zoom := InitialZoom;
    }

    /** `handleZoomIn`: one step in, capped at `maxZoom`. */
    method ZoomIn()
      modifies this
      ensures zoom == ZoomInValue(old(zoom), config.zoomStep, config.maxZoom)
      ensures zoom <= config.maxZoom
    {
      zoom := ZoomInValue(zoom, config.zoomStep, config.maxZoom);
    }

    /** `handleZoomOut`: one step out, floored at `minZoom`. */
    method ZoomOut()
      modifies this
      ensures zoom == ZoomOutValue(old(zoom), config.zoomStep, config.minZoom)
      ensures zoom >= config.minZoom
    {
      zoom := ZoomOutValue(zoom, config.zoomStep, config.minZoom);
    }

    /** The raw `setZoom` setter the hook returns: unclamped. */
    method SetZoom(value: real)
      modifies this
      ensures zoom == value
    {
      zoom := value;
    }

    /** The `keydown` listener: dispatches to `ZoomIn` / `ZoomOut` and reports `preventDefault`. */
    method HandleKeyDown(e: KeyEvent) returns (prevented: bool)
      modifies this
      ensures zoom == KeyDownZoom(config, old(zoom), e)
      ensures prevented == KeyDownPreventsDefault(e)
      ensures config.Ordered() && config.InBounds(old(zoom)) && 0.0 <= config.zoomStep ==> config.InBounds(zoom)
    {
      prevented := false;
      if e.ctrlKey || e.metaKey {
        if e.key == "=" || e.key == "+" {
          prevented := true;
          ZoomIn();
        } else if e.key == "-" {
          prevented := true;
          ZoomOut();
        }
      }
    }

    /** The `wheel` listener: Alt+wheel sets the clamped wheel zoom and reports `preventDefault`. */
    method HandleWheel(e: WheelEvent) returns (prevented: bool)
      modifies this
      ensures zoom == WheelZoom(config, old(zoom), e)
      ensures prevented == e.altKey
      ensures config.Ordered() ==> (config.InBounds(old(zoom)) ==> config.InBounds(zoom))
    {
      prevented := false;
      if e.altKey {
        prevented := true;
        zoom := WheelZoomValue(zoom, e.deltaY, config.minZoom, config.maxZoom);
      }
    }
  }
}
