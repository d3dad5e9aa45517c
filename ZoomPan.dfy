/**
 * The `useZoomPan` hook: a zoom level and a pan offset for the comparison
 * view, with clamped step zoom, an unclamped setter, and zoom-to-point, which
 * rewrites the pan so that the content point under the cursor stays put.
 *
 * The hook's two state cells become the fields of `ZoomPanState`; the
 * container's bounding rect, read from the DOM in the hook, is passed in
 * (absent when the container is not mounted).
 */
module ZoomPan {
  import opened Common
  import opened ZoomMath

  datatype Point = Point(x: real, y: real)

  /** The two fields of the container's bounding client rect the handler reads. */
  datatype Rect = Rect(left: real, top: real)

  /** The hook's observable state: `zoom` and `pan`. */
  datatype View = View(zoom: real, pan: Point)

  /** `useState(1)` and `useState({ x: 0, y: 0 })`. */
  const InitialView: View := View(InitialZoom, Point(0.0, 0.0))

  /**
   * The content coordinate shown at container offset `screen` on one axis,
   * when content is drawn scaled by `zoom` and shifted by `pan`.
   */
  function ContentCoordinate(screen: real, pan: real, zoom: real): real
    requires zoom != 0.0
  {
    (screen - pan) / zoom
  }

  /**
   * One axis of the new pan after a zoom from `zoom` to `newZoom` about the
   * container offset `cursor`: `pan - (cursor - pan) * (newZoom / zoom - 1)`.
   * The content coordinate under the cursor is the same before and after.
   */
  function AnchoredPan(pan: real, cursor: real, zoom: real, newZoom: real): (r: real)
    requires zoom != 0.0
    ensures newZoom != 0.0 ==>
      ContentCoordinate(cursor, r, newZoom) == ContentCoordinate(cursor, pan, zoom)
    ensures newZoom == zoom ==> r == pan
    ensures cursor == pan ==> r == pan
  {
    var scaleChange := newZoom / zoom;
    var r := pan - (cursor - pan) * (scaleChange - 1.0);
    AnchorKept(pan, cursor, zoom, newZoom, r);
    r
  }

  /** The algebra behind `AnchoredPan`: the cursor's distance to the pan scales by newZoom / zoom. */
  lemma AnchorKept(pan: real, cursor: real, zoom: real, newZoom: real, r: real)
    requires zoom != 0.0
    requires r == pan - (cursor - pan) * (newZoom / zoom - 1.0)
    ensures cursor - r == (cursor - pan) * (newZoom / zoom)
    ensures newZoom != 0.0 ==> (cursor - r) / newZoom == (cursor - pan) / zoom
  {
    var d := cursor - pan;
    var s := newZoom / zoom;
    assert cursor - r == d + d * (s - 1.0) == d * s;
    if newZoom != 0.0 {
      assert s * zoom == newZoom;
      calc {
        (cursor - r) / newZoom;
        (d * s) / newZoom;
        (d * s) / (s * zoom);
        d / zoom;
      }
    }
  }

  /**
   * `handleZoomToPoint` with a mounted container: the zoom moves by
   * `-deltaY * 0.01`, clamped to the bounds, and each pan axis is re-anchored
   * at the cursor's offset inside the container.
   */
  function ZoomToPoint(v: View, config: ZoomConfig, deltaY: real, clientX: real, clientY: real, rect: Rect): (r: View)
    requires v.zoom != 0.0
    ensures config.Ordered() ==> config.InBounds(r.zoom)
    ensures r.zoom == v.zoom ==> r.pan == v.pan
    ensures r.zoom != 0.0 ==>
      && ContentCoordinate(clientX - rect.left, r.pan.x, r.zoom) == ContentCoordinate(clientX - rect.left, v.pan.x, v.zoom)
      && ContentCoordinate(clientY - rect.top, r.pan.y, r.zoom) == ContentCoordinate(clientY - rect.top, v.pan.y, v.zoom)
  {
    var x := clientX - rect.left;
    var y := clientY - rect.top;
    var newZoom := WheelZoomValue(v.zoom, deltaY, config.minZoom, config.maxZoom);
    View(newZoom, Point(AnchoredPan(v.pan.x, x, v.zoom, newZoom), AnchoredPan(v.pan.y, y, v.zoom, newZoom)))
  }

  /**
   * Zooming about a fixed cursor and then zooming back by the opposite wheel
   * delta restores the view, as long as neither step is clamped.
   */
  lemma {:induction false} ZoomToPointReversible(v: View, config: ZoomConfig, deltaY: real, clientX: real, clientY: real, rect: Rect)
    requires v.zoom != 0.0
    requires config.InBounds(v.zoom - deltaY * WheelFactor) && v.zoom - deltaY * WheelFactor != 0.0
    requires config.InBounds(v.zoom)
    ensures ZoomToPoint(ZoomToPoint(v, config, deltaY, clientX, clientY, rect), config, -deltaY, clientX, clientY, rect) == v
  {
    var w := ZoomToPoint(v, config, deltaY, clientX, clientY, rect);
    assert w.zoom == v.zoom - deltaY * WheelFactor;
    var u := ZoomToPoint(w, config, -deltaY, clientX, clientY, rect);
    assert u.zoom == w.zoom - (-deltaY) * WheelFactor == v.zoom;
    PanDeterminedByAnchor(clientX - rect.left, u.pan.x, v.pan.x, v.zoom);
    PanDeterminedByAnchor(clientY - rect.top, u.pan.y, v.pan.y, v.zoom);
  }

  /** At a fixed non-zero zoom, the content coordinate under a cursor determines the pan. */
  lemma PanDeterminedByAnchor(cursor: real, p: real, q: real, zoom: real)
    requires zoom != 0.0
    requires ContentCoordinate(cursor, p, zoom) == ContentCoordinate(cursor, q, zoom)
    ensures p == q
  {
    assert (cursor - p) / zoom * zoom == (cursor - q) / zoom * zoom;
  }

  /** The hook instance: its props and its two state cells. */
  class ZoomPanState {
    const config: ZoomConfig
    var zoom: real
    var pan: Point

    /** The state as one value. */
    function Current(): View
      reads this
    {
      View(zoom, pan)
    }

    /** Mounting the hook: the props are kept, the view starts at zoom 1 and no pan. */
    constructor (config: ZoomConfig)
      ensures this.config == config
      ensures Current() == InitialView
    {
      this.config := config;
      zoom := InitialZoom;
      pan := Point(0.0, 0.0);
    }

    /** `handleZoomIn`: one step in, capped at `maxZoom`; the pan is untouched. */
    method ZoomIn()
      modifies this`zoom
      ensures zoom == ZoomInValue(old(zoom), config.zoomStep, config.maxZoom)
      ensures zoom <= config.maxZoom
      ensures pan == old(pan)
    {
      zoom := ZoomInValue(zoom, config.zoomStep, config.maxZoom);
    }

    /** `handleZoomOut`: one step out, floored at `minZoom`; the pan is untouched. */
    method ZoomOut()
      modifies this`zoom
      ensures zoom == ZoomOutValue(old(zoom), config.zoomStep, config.minZoom)
      ensures zoom >= config.minZoom
      ensures pan == old(pan)
    {
      zoom := ZoomOutValue(zoom, config.zoomStep, config.minZoom);
    }

    /** `handleZoomChange`: stores the value as given, unclamped; the pan is untouched. */
    method ZoomChange(newZoom: real)
      modifies this`zoom
      ensures zoom == newZoom
      ensures pan == old(pan)
    {
      zoom := newZoom;
    }

    /** The raw `setPan` setter the hook returns. */
    method SetPan(newPan: Point)
      modifies this`pan
      ensures pan == newPan
      ensures zoom == old(zoom)
    {
      pan := newPan;
    }

    /**
     * `handleZoomToPoint(deltaY, clientX, clientY)`. Without a container it
     * returns early and changes nothing; otherwise the view becomes
     * `ZoomToPoint` of the old one. It divides by the current zoom, which must
     * therefore be non-zero.
     */
    method ZoomToPointAt(deltaY: real, clientX: real, clientY: real, container: Option<Rect>)
      requires container.Some? ==> zoom != 0.0
      modifies this
      ensures container.None? ==> Current() == old(Current())
      ensures container.Some? ==>
        Current() == ZoomToPoint(old(Current()), config, deltaY, clientX, clientY, container.value)
      ensures container.Some? && config.Ordered() ==> config.InBounds(zoom)
    {
      if container.None? {
        return;
      }
      var v := ZoomToPoint(Current(), config, deltaY, clientX, clientY, container.value);
      zoom := v.zoom;
      pan := v.pan;
    }
  }
}
