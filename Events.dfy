/**
 * The parts of the browser's keyboard and wheel events that the zoom
 * handlers read, as plain values.
 */
module Events {

  datatype KeyEvent = KeyEvent(key: string, ctrlKey: bool, metaKey: bool, altKey: bool)
  {
    /** Ctrl or Cmd is held: the modifier every keyboard zoom shortcut needs. */
    predicate CtrlOrMeta() { ctrlKey || metaKey }

    /** The key is one of the two zoom-in keys, '=' and '+'. */
    predicate IsZoomInKey() { key == "=" || key == "+" }

    /** The key is the zoom-out key '-'. */
    predicate IsZoomOutKey() { key == "-" }
  }

  datatype WheelEvent = WheelEvent(deltaY: real, ctrlKey: bool, metaKey: bool, altKey: bool)
  {
    predicate CtrlOrMeta() { ctrlKey || metaKey }
  }

  /** One event delivered to a zoom handler. */
  datatype ZoomEvent = Key(keyEvent: KeyEvent) | Wheel(wheelEvent: WheelEvent)
}
