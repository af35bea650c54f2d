/** Mapping a mouse or touch event to canvas-local coordinates. */
module Coordinates {

  datatype Option<T> = None | Some(value: T)

  datatype Point = Point(x: real, y: real)

  /** The part of the canvas's bounding client rectangle the mapping uses. */
  datatype Rect = Rect(left: real, top: real)

  datatype TouchPoint = TouchPoint(clientX: real, clientY: real)

  /** A mouse event carries one client position; a touch event carries the
      list of active touch points. */
  datatype PointerEvent =
    | MouseEvent(clientX: real, clientY: real)
    | TouchEvent(touches: seq<TouchPoint>)

  /** Reading the first touch point of an empty touch list throws; the
      handler stops there. */
  datatype CoordResult = Ok(point: Point) | NoActiveTouch

  /** The client position the event reports: the mouse position, or the first
      touch point; later touch points are ignored. */
  function ClientPoint(e: PointerEvent): Option<Point>
  {
    match e
    case MouseEvent(cx, cy) => Some(Point(cx, cy))
    case TouchEvent(ts) => if |ts| == 0 then None else Some(Point(ts[0].clientX, ts[0].clientY))
  }

  /** Back from canvas-local to client coordinates. */
  function ToClient(p: Point, rect: Rect): Point
  {
    Point(p.x + rect.left, p.y + rect.top)
  }

  /** getCoordinates: with no canvas, the origin; otherwise the client
      position minus the canvas's top-left corner. `canvas` is the bounding
      rectangle when the canvas element exists. */
  function GetCoordinates(e: PointerEvent, canvas: Option<Rect>): (r: CoordResult)
    ensures canvas.None? ==> r == Ok(Point(0.0, 0.0))
    ensures canvas.Some? ==> (r.Ok? <==> ClientPoint(e).Some?)
    ensures canvas.Some? && r.Ok? ==> ToClient(r.point, canvas.value) == ClientPoint(e).value
  {
    match canvas
    case None => Ok(Point(0.0, 0.0))
    case Some(rect) =>
      match ClientPoint(e)
      case None => NoActiveTouch
      case Some(c) => Ok(Point(c.x - rect.left, c.y - rect.top))
  }

  /** Moving the event and the canvas by the same offset gives the same local point. */
  lemma TranslationInvariant(cx: real, cy: real, rect: Rect, dx: real, dy: real)
    ensures GetCoordinates(MouseEvent(cx + dx, cy + dy), Some(Rect(rect.left + dx, rect.top + dy)))
         == GetCoordinates(MouseEvent(cx, cy), Some(rect))
  {
  }

  /** Only the first touch point matters: touch lists that agree on it map alike,
      and a one-touch event maps like a mouse event at the same position. */
  lemma FirstTouchOnly(t: TouchPoint, rest1: seq<TouchPoint>, rest2: seq<TouchPoint>, canvas: Option<Rect>)
    ensures GetCoordinates(TouchEvent([t] + rest1), canvas) == GetCoordinates(TouchEvent([t] + rest2), canvas)
    ensures GetCoordinates(TouchEvent([t] + rest1), canvas) == GetCoordinates(MouseEvent(t.clientX, t.clientY), canvas)
  {
  }
}
