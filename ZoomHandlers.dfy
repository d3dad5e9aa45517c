/**
 * `useZoomHandlers`: keyboard and wheel listeners that update a zoom state
 * owned by the caller, through `setZoom(prev => ...)` updaters with the
 * bounds 0.1 and 3 and the step 0.1 written into the code. The updaters are
 * modelled as functions from the previous zoom to the next.
 */
module ZoomHandlers {
  import opened Common
  import opened Events
  import opened ZoomMath
  import ImageZoom

  const MinZoom: real := 0.1
  const MaxZoom: real := 3.0
  const Step: real := 0.1

  /** The interval every handled event keeps the zoom in. */
  predicate InRange(z: real) { MinZoom <= z <= MaxZoom }

  /**
   * The `keydown` updater: Ctrl/Cmd with '=' or '+' gives `min(prev + 0.1, 3)`,
   * Ctrl/Cmd with '-' gives `max(prev - 0.1, 0.1)`, anything else keeps `prev`.
   */
  function OnKeyDown(prev: real, e: KeyEvent): (r: real)
    ensures !e.CtrlOrMeta() ==> r == prev
    ensures e.CtrlOrMeta() && e.IsZoomInKey() ==> r == Min(prev + Step, MaxZoom)
    ensures e.CtrlOrMeta() && e.IsZoomOutKey() ==> r == Max(prev - Step, MinZoom)
    ensures !e.IsZoomInKey() && !e.IsZoomOutKey() ==> r == prev
    ensures InRange(prev) ==> InRange(r)
  {
    if e.ctrlKey || e.metaKey then
      if e.key == "=" || e.key == "+" then Min(prev + Step, MaxZoom)
      else if e.key == "-" then Max(prev - Step, MinZoom)
      else prev
    else prev
  }

  /**
   * The `wheel` updater: with Ctrl/Cmd held the zoom becomes
   * `clamp(prev - deltaY * 0.01, 0.1, 3)`; without it nothing changes.
   */
  function OnWheel(prev: real, e: WheelEvent): (r: real)
    ensures !e.CtrlOrMeta() ==> r == prev
    ensures e.CtrlOrMeta() ==> r == Clamp(prev - e.deltaY * WheelFactor, MinZoom, MaxZoom)
    ensures e.CtrlOrMeta() ==> InRange(r)
    ensures InRange(prev) ==> InRange(r)
    ensures e.deltaY <= 0.0 && InRange(prev) ==> prev <= r
    ensures e.deltaY >= 0.0 && InRange(prev) ==> r <= prev
  {
    if e.ctrlKey || e.metaKey then
      var delta := e.deltaY * -WheelFactor;
      Min(Max(prev + delta, MinZoom), MaxZoom)
    else prev
  }

  /**
   * The `keydown` listener calls `preventDefault` exactly on the shortcuts it
   * handles; on every other key the updater it would pass leaves the zoom alone.
   */
  function KeyPreventsDefault(e: KeyEvent): (prevented: bool)
    ensures prevented <==> e.CtrlOrMeta() && (e.IsZoomInKey() || e.IsZoomOutKey())
    ensures !prevented ==> forall prev :: OnKeyDown(prev, e) == prev
  {
    if e.ctrlKey || e.metaKey then e.key == "=" || e.key == "+" || e.key == "-" else false
  }

  /**
   * The `wheel` listener calls `preventDefault` exactly when Ctrl/Cmd is held;
   * then the zoom lands in [0.1, 3] whatever it was, and otherwise it is kept.
   */
  function WheelPreventsDefault(e: WheelEvent): (prevented: bool)
    ensures prevented <==> e.CtrlOrMeta()
    ensures prevented ==> forall prev :: InRange(OnWheel(prev, e))
    ensures !prevented ==> forall prev :: OnWheel(prev, e) == prev
  {
    e.ctrlKey || e.metaKey
  }

  /** One event, given to the updater of its kind. */
  function OnEvent(prev: real, e: ZoomEvent): real
  {
    match e
    case Key(k) => OnKeyDown(prev, k)
    case Wheel(w) => OnWheel(prev, w)
  }

  /** The caller's zoom after the handlers have seen `events` in order. */
  function Replay(zoom: real, events: seq<ZoomEvent>): real
    decreases |events|
  {
    if events == [] then zoom else Replay(OnEvent(zoom, events[0]), events[1..])
  }

  /** Every sequence of events keeps a zoom that starts in [0.1, 3] inside it. */
  lemma {:induction false} ReplayStaysInRange(zoom: real, events: seq<ZoomEvent>)
    requires InRange(zoom)
    ensures InRange(Replay(zoom, events))
    decreases |events|
  {
    if events != [] {
      ReplayStaysInRange(OnEvent(zoom, events[0]), events[1..]);
    }
  }

  /**
   * The keyboard handling coincides with `useImageZoom` under its default
   * props; the wheel handling coincides with it once Ctrl/Cmd stands in for
   * the Alt key that `useImageZoom` checks.
   */
  lemma AgreesWithImageZoom(prev: real, k: KeyEvent, w: WheelEvent)
    ensures OnKeyDown(prev, k) == ImageZoom.KeyDownZoom(DefaultConfig, prev, k)
    ensures KeyPreventsDefault(k) == ImageZoom.KeyDownPreventsDefault(k)
    ensures OnWheel(prev, w) ==
      ImageZoom.WheelZoom(DefaultConfig, prev, w.(altKey := w.CtrlOrMeta()))
  {
  }
}
