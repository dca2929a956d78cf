/**
  The input handlers placed on the grid: the drawing canvas (canvas.hh) and
  the colour, clear and snapshot buttons (buttons/color.hh, buttons/clear.hh,
  buttons/snapshot.hh).

  Each handler answers `down`, `up` and `move` with a redraw flag and an
  effect on the shared world: the canvas surface (recorded as the sequence of
  operations applied to it), the pen colour, the snapshot set and the images
  saved so far. The clock reading and the outcome of writing an image file are
  inputs (`Env`). Handlers a variant does not override keep the `Touchable`
  default: no effect, no redraw.
*/
module Handlers {
  import opened Wrappers
  import Screen
  import Stroke
  import SnapShots

  datatype Color = Color(r: int, g: int, b: int)

  const White: Color := Color(255, 255, 255)
  const Black: Color := Color(0, 0, 0)

  /** What the canvas surface receives: the pen blitted with its top-left corner at (left, top), or a fill. */
  datatype CanvasOp = PenBlit(left: int, top: int, pen: Color) | Fill(color: Color)

  /** The canvas: the size of its pen image, the pen colour and the operations applied so far. */
  datatype Canvas = Canvas(penWidth: nat, penHeight: nat, pen: Color, ops: seq<CanvasOp>)

  datatype Handler = CanvasHandler | ColorButton(color: Color) | ClearButton | SnapShotButton

  /** An image file written by the snapshot button: its name and the canvas it holds. */
  datatype SavedImage = SavedImage(name: string, ops: seq<CanvasOp>)

  datatype World = World(canvas: Canvas, snaps: SnapShots.SnapShots, saved: seq<SavedImage>)

  /** The inputs a call consumes: the clock reading and whether writing the image succeeds. */
  datatype Env = Env(now: SnapShots.TimeStamp, saveSucceeds: bool)

  // ---------------------------------------------------------------------
  // The canvas
  // ---------------------------------------------------------------------

  /** `paint(x, y)`: one pen stamp centred on (x, y). */
  function Paint(c: Canvas, x: int, y: int): (r: Canvas)
    ensures r.penWidth == c.penWidth && r.penHeight == c.penHeight && r.pen == c.pen
    ensures |r.ops| == |c.ops| + 1 && r.ops[..|c.ops|] == c.ops
    ensures r.ops[|c.ops|].PenBlit? && r.ops[|c.ops|].pen == c.pen
  {
    c.(ops := c.ops + [PenBlit(x - c.penWidth / 2, y - c.penHeight / 2, c.pen)])
  }

  /**
    A stamp covers the point it is centred on, with the pen split as evenly
    as integer halving allows: at most one more column left of (x, y) than
    right of it, and likewise for rows.
  */
  lemma PaintCentred(c: Canvas, x: int, y: int)
    requires c.penWidth > 0 && c.penHeight > 0
    ensures var op := Paint(c, x, y).ops[|c.ops|];
      op.left <= x < op.left + c.penWidth && op.top <= y < op.top + c.penHeight &&
      0 <= (x - op.left) - (op.left + c.penWidth - 1 - x) <= 1 &&
      0 <= (y - op.top) - (op.top + c.penHeight - 1 - y) <= 1
  {
  }

  /** One stamp per point, in order. */
  function PaintAll(c: Canvas, pts: seq<Stroke.Point>): (r: Canvas)
    ensures r.penWidth == c.penWidth && r.penHeight == c.penHeight && r.pen == c.pen
    ensures |r.ops| == |c.ops| + |pts| && r.ops[..|c.ops|] == c.ops
    ensures forall k :: 0 <= k < |pts| ==>
              r.ops[|c.ops| + k] == PenBlit(pts[k].x - c.penWidth / 2, pts[k].y - c.penHeight / 2, c.pen)
    decreases |pts|
  {
    if |pts| == 0 then c
    else
      var c1 := Paint(c, pts[0].x, pts[0].y);
      var r := PaintAll(c1, pts[1..]);
      assert r.ops[..|c.ops|] == c.ops by {
        assert r.ops[..|c.ops|] == r.ops[..|c1.ops|][..|c.ops|];
      }
      assert r.ops[|c.ops|] == r.ops[..|c1.ops|][|c.ops|];
      r
  }

  /** `clear()`: the whole canvas filled white. */
  function Clear(c: Canvas): (r: Canvas)
    ensures r.pen == c.pen && r.ops == c.ops + [Fill(White)]
  {
    c.(ops := c.ops + [Fill(White)])
  }

  /** `setColor(r, g, b)`: only the pen colour changes. */
  function SetColor(c: Canvas, col: Color): (r: Canvas)
    ensures r.pen == col && r.ops == c.ops && r.penWidth == c.penWidth && r.penHeight == c.penHeight
  {
    c.(pen := col)
  }

  /** `Canvas::down` and `Canvas::up`: one stamp at the pointer, redraw. */
  function CanvasPress(c: Canvas, x: int, y: int): (r: (Canvas, bool))
    ensures r.1
    ensures r.0.ops == c.ops + [PenBlit(x - c.penWidth / 2, y - c.penHeight / 2, c.pen)]
  {
    (Paint(c, x, y), true)
  }

  /** `Canvas::move`: the stroke from (x, y) back towards (x - dx, y - dy), redraw. */
  function CanvasMove(c: Canvas, x: int, y: int, dx: int, dy: int): (r: (Canvas, bool))
    ensures r.1
    ensures |r.0.ops| == |c.ops| + Stroke.Steps(dx, dy)
  {
    (PaintAll(c, Stroke.Stroke(x, y, dx, dy)), true)
  }

  /**
    The stamps a move adds are the stroke's points, centred: the first on the
    pointer, none on the previous position, and none at all when the pointer
    did not move.
  */
  lemma CanvasMoveStamps(c: Canvas, x: int, y: int, dx: int, dy: int)
    ensures var r := CanvasMove(c, x, y, dx, dy).0;
      r.ops[..|c.ops|] == c.ops &&
      (forall k :: 0 <= k < Stroke.Steps(dx, dy) ==>
         r.ops[|c.ops| + k] == PenBlit(Stroke.Stroke(x, y, dx, dy)[k].x - c.penWidth / 2,
                                       Stroke.Stroke(x, y, dx, dy)[k].y - c.penHeight / 2, c.pen))
    ensures dx == 0 && dy == 0 ==> CanvasMove(c, x, y, dx, dy).0 == c
    ensures dx != 0 || dy != 0 ==>
      CanvasMove(c, x, y, dx, dy).0.ops[|c.ops|] == PenBlit(x - c.penWidth / 2, y - c.penHeight / 2, c.pen)
    ensures var r := CanvasMove(c, x, y, dx, dy).0;
      forall k :: |c.ops| <= k < |r.ops| ==> r.ops[k] != PenBlit(x - dx - c.penWidth / 2, y - dy - c.penHeight / 2, c.pen)
  {
    var r := CanvasMove(c, x, y, dx, dy).0;
    if dx == 0 && dy == 0 {
      Stroke.StrokeEmptyIffNoMotion(x, y, dx, dy);
      assert r.ops == c.ops by {
        assert r.ops == r.ops[..|c.ops|];
      }
    } else {
      Stroke.StrokeStartsAtPointer(x, y, dx, dy);
    }
    MoveMissesPrevious(c, x, y, dx, dy);
  }

  /** No stamp of a move lands on the previous pointer position. */
  lemma MoveMissesPrevious(c: Canvas, x: int, y: int, dx: int, dy: int)
    ensures var r := CanvasMove(c, x, y, dx, dy).0;
      forall k :: |c.ops| <= k < |r.ops| ==> r.ops[k] != PenBlit(x - dx - c.penWidth / 2, y - dy - c.penHeight / 2, c.pen)
  {
    var pts := Stroke.Stroke(x, y, dx, dy);
    var r := CanvasMove(c, x, y, dx, dy).0;
    forall k | |c.ops| <= k < |r.ops|
      ensures r.ops[k] != PenBlit(x - dx - c.penWidth / 2, y - dy - c.penHeight / 2, c.pen)
    {
      var i := k - |c.ops|;
      Stroke.StrokeNeverPaintsOrigin(x, y, dx, dy, i);
      assert r.ops[|c.ops| + i] == PenBlit(pts[i].x - c.penWidth / 2, pts[i].y - c.penHeight / 2, c.pen);
    }
  }

  // ---------------------------------------------------------------------
  // Handler dispatch
  // ---------------------------------------------------------------------

  /** `down(x, y)` of each variant. */
  function Down(h: Handler, w: World, env: Env, x: int, y: int): (r: (World, bool))
    requires SnapShots.Valid(w.snaps)
    ensures SnapShots.Valid(r.0.snaps)
  {
    match h
    case CanvasHandler =>
      var (c, redraw) := CanvasPress(w.canvas, x, y);
      (w.(canvas := c), redraw)
    case ColorButton(col) => (w.(canvas := SetColor(w.canvas, col)), false)
    case ClearButton => (w.(canvas := Clear(w.canvas)), true)
    case SnapShotButton =>
      match SnapShots.NewSnapShot(w.snaps, env.now)
      case Err(_) => (w, false)
      case Ok((snaps, name)) =>
        var saved := if env.saveSucceeds then w.saved + [SavedImage(name, w.canvas.ops)] else w.saved;
        (w.(snaps := snaps, saved := saved), false)
  }

  /** `up(x, y)`: only the canvas overrides it. */
  function Up(h: Handler, w: World, x: int, y: int): (r: (World, bool))
  {
    match h
    case CanvasHandler =>
      var (c, redraw) := CanvasPress(w.canvas, x, y);
      (w.(canvas := c), redraw)
    case _ => (w, false)
  }

  /** `move(x, y, dx, dy)`: only the canvas overrides it. */
  function Move(h: Handler, w: World, x: int, y: int, dx: int, dy: int): (r: (World, bool))
  {
    match h
    case CanvasHandler =>
      var (c, redraw) := CanvasMove(w.canvas, x, y, dx, dy);
      (w.(canvas := c), redraw)
    case _ => (w, false)
  }

  /** A handler call routed by the screen, applied to the handler its reference names. */
  function Respond(hs: seq<Handler>, w: World, env: Env, call: Screen.Call): (r: (World, bool))
    requires call.handler < |hs| && SnapShots.Valid(w.snaps)
    ensures SnapShots.Valid(r.0.snaps)
  {
    var h := hs[call.handler];
    match call
    case Down(_, x, y) => Down(h, w, env, x, y)
    case Up(_, x, y) => Up(h, w, x, y)
    case Move(_, x, y, dx, dy) => Move(h, w, x, y, dx, dy)
  }

  /**
    The redraw flag of a call, which depends only on the variant and the kind
    of call: the canvas always redraws, the clear button redraws on `down`,
    every other answer is false.
  */
  function Redraws(hs: seq<Handler>, call: Screen.Call): bool
    requires call.handler < |hs|
  {
    match hs[call.handler]
    case CanvasHandler => true
    case ClearButton => call.Down?
    case _ => false
  }

  /**
    Every answer equals `Redraws`, whatever the world and the inputs: the
    screen's fold may take `Redraws` as its `respond` parameter.
  */
  lemma RespondRedraw(hs: seq<Handler>, w: World, env: Env, call: Screen.Call)
    requires call.handler < |hs| && SnapShots.Valid(w.snaps)
    ensures Respond(hs, w, env, call).1 == Redraws(hs, call)
  {
  }

  /** A colour button's `down` sets the pen colour and changes nothing else, wherever it is touched. */
  lemma ColorButtonSetsPen(col: Color, w: World, env: Env, x: int, y: int)
    requires SnapShots.Valid(w.snaps)
    ensures Down(ColorButton(col), w, env, x, y) == (w.(canvas := w.canvas.(pen := col)), false)
  {
  }

  /** The clear button's `down` fills the canvas white and redraws, wherever it is touched. */
  lemma ClearButtonClears(w: World, env: Env, x: int, y: int)
    requires SnapShots.Valid(w.snaps)
    ensures Down(ClearButton, w, env, x, y).1
    ensures Down(ClearButton, w, env, x, y).0 == w.(canvas := w.canvas.(ops := w.canvas.ops + [Fill(White)]))
  {
  }

  /** Buttons keep the `Touchable` defaults for `up` and `move`: no effect, no redraw. */
  lemma ButtonsIgnoreUpAndMove(h: Handler, w: World, x: int, y: int, dx: int, dy: int)
    requires !h.CanvasHandler?
    ensures Up(h, w, x, y) == (w, false)
    ensures Move(h, w, x, y, dx, dy) == (w, false)
  {
  }

  /**
    The snapshot button never asks for a redraw. When the time stamp is taken
    already, nothing changes and nothing is saved; otherwise the stamp is
    stored whether or not the image could be written, and a successful write
    saves the current canvas under the stamp's file name.
  */
  lemma SnapShotButtonOutcome(w: World, env: Env, x: int, y: int)
    requires SnapShots.Valid(w.snaps)
    ensures var (w', redraw) := Down(SnapShotButton, w, env, x, y);
      !redraw && w'.canvas == w.canvas &&
      (env.now in w.snaps.stamps ==> w' == w) &&
      (env.now !in w.snaps.stamps ==>
         (forall t :: t in w'.snaps.stamps <==> t in w.snaps.stamps || t == env.now) &&
         w'.saved == w.saved + (if env.saveSucceeds then [SavedImage(SnapShots.FileName(env.now), w.canvas.ops)] else []))
  {
  }

  // ---------------------------------------------------------------------
  // Replaying calls
  // ---------------------------------------------------------------------

  predicate CallsValid(hs: seq<Handler>, calls: seq<(Screen.Call, Env)>)
  {
    forall k :: 0 <= k < |calls| ==> calls[k].0.handler < |hs|
  }

  /** The handler calls of a trace applied in order, with their answers. */
  function Replay(hs: seq<Handler>, w: World, calls: seq<(Screen.Call, Env)>): (r: (World, seq<bool>))
    requires CallsValid(hs, calls) && SnapShots.Valid(w.snaps)
    ensures SnapShots.Valid(r.0.snaps) && |r.1| == |calls|
    decreases |calls|
  {
    if |calls| == 0 then (w, [])
    else
      var (w1, b) := Respond(hs, w, calls[0].1, calls[0].0);
      var (w2, bs) := Replay(hs, w1, calls[1..]);
      (w2, [b] + bs)
  }

  /** Replayed answers are the state-free `Redraws` of each call. */
  lemma {:induction false} ReplayAnswers(hs: seq<Handler>, w: World, calls: seq<(Screen.Call, Env)>)
    requires CallsValid(hs, calls) && SnapShots.Valid(w.snaps)
    ensures forall k :: 0 <= k < |calls| ==> Replay(hs, w, calls).1[k] == Redraws(hs, calls[k].0)
    decreases |calls|
  {
    if |calls| > 0 {
      var (w1, b) := Respond(hs, w, calls[0].1, calls[0].0);
      RespondRedraw(hs, w, calls[0].1, calls[0].0);
      assert CallsValid(hs, calls[1..]);
      ReplayAnswers(hs, w1, calls[1..]);
      assert forall k :: 1 <= k < |calls| ==> calls[k] == calls[1..][k - 1];
    }
  }

  /** The colour a call leaves on the pen: a colour button's `down` sets it, every other call keeps it. */
  function PenAfter(hs: seq<Handler>, pen: Color, call: Screen.Call): Color
    requires call.handler < |hs|
  {
    if call.Down? && hs[call.handler].ColorButton? then hs[call.handler].color else pen
  }

  /** The pen colour after a replay is that of the last colour-button press, or the initial one. */
  function LastPen(hs: seq<Handler>, pen: Color, calls: seq<(Screen.Call, Env)>): Color
    requires CallsValid(hs, calls)
    decreases |calls|
  {
    if |calls| == 0 then pen
    else LastPen(hs, PenAfter(hs, pen, calls[0].0), calls[1..])
  }

  lemma {:induction false} ReplayPen(hs: seq<Handler>, w: World, calls: seq<(Screen.Call, Env)>)
    requires CallsValid(hs, calls) && SnapShots.Valid(w.snaps)
    ensures Replay(hs, w, calls).0.canvas.pen == LastPen(hs, w.canvas.pen, calls)
    ensures Replay(hs, w, calls).0.canvas.penWidth == w.canvas.penWidth
    decreases |calls|
  {
    if |calls| > 0 {
      var (w1, b) := Respond(hs, w, calls[0].1, calls[0].0);
      assert w1.canvas.pen == PenAfter(hs, w.canvas.pen, calls[0].0);
      assert w1.canvas.penWidth == w.canvas.penWidth;
      ReplayPen(hs, w1, calls[1..]);
    }
  }

  /** Stored time stamps are never dropped, and saved images are only ever appended. */
  lemma {:induction false} ReplayKeeps(hs: seq<Handler>, w: World, calls: seq<(Screen.Call, Env)>)
    requires CallsValid(hs, calls) && SnapShots.Valid(w.snaps)
    ensures forall t :: t in w.snaps.stamps ==> t in Replay(hs, w, calls).0.snaps.stamps
    ensures w.saved <= Replay(hs, w, calls).0.saved
    decreases |calls|
  {
    if |calls| > 0 {
      var w1 := Respond(hs, w, calls[0].1, calls[0].0).0;
      RespondKeeps(hs, w, calls[0].1, calls[0].0);
      ReplayKeeps(hs, w1, calls[1..]);
      assert Replay(hs, w, calls).0 == Replay(hs, w1, calls[1..]).0;
    }
  }

  /** One handler call keeps the stored time stamps and extends the saved images. */
  lemma RespondKeeps(hs: seq<Handler>, w: World, env: Env, call: Screen.Call)
    requires call.handler < |hs| && SnapShots.Valid(w.snaps)
    ensures forall t :: t in w.snaps.stamps ==> t in Respond(hs, w, env, call).0.snaps.stamps
    ensures w.saved <= Respond(hs, w, env, call).0.saved
  {
    var h := hs[call.handler];
    match call
    case Down(_, x, y) =>
      DownKeeps(h, w, env, x, y);
    case Up(_, x, y) =>
      assert Up(h, w, x, y).0.snaps == w.snaps && Up(h, w, x, y).0.saved == w.saved;
    case Move(_, x, y, dx, dy) =>
      assert Move(h, w, x, y, dx, dy).0.snaps == w.snaps && Move(h, w, x, y, dx, dy).0.saved == w.saved;
  }

  lemma DownKeeps(h: Handler, w: World, env: Env, x: int, y: int)
    requires SnapShots.Valid(w.snaps)
    ensures forall t :: t in w.snaps.stamps ==> t in Down(h, w, env, x, y).0.snaps.stamps
    ensures w.saved <= Down(h, w, env, x, y).0.saved
  {
    var r := Down(h, w, env, x, y).0;
    if h.SnapShotButton? {
      match SnapShots.NewSnapShot(w.snaps, env.now)
      case Err(_) =>
        assert r == w;
      case Ok((snaps, name)) =>
        assert r.snaps == snaps;
        assert r.saved == w.saved || r.saved == w.saved + [SavedImage(name, w.canvas.ops)];
    } else {
      assert r.snaps == w.snaps && r.saved == w.saved;
    }
  }

  // ---------------------------------------------------------------------
  // Construction
  // ---------------------------------------------------------------------

  /**
    The `Canvas` constructor: a w x h block at cell (i, j) bound to the
    canvas texture and handler with offsets 0, 120, 240, ..., a white canvas
    and a black pen.
  */
  method NewCanvas(t: Screen.Table, i: int, j: int, w: int, h: int, texture: Screen.TextureRef,
                   handler: Screen.HandlerRef, penWidth: nat, penHeight: nat) returns (r: Screen.Table, c: Canvas)
    requires w > 0 && h > 0 ==> 0 <= i && i + w <= Screen.Columns && 0 <= j && j + h <= Screen.Rows
    ensures Screen.BlockRegistered(t, r, i, j, w, h, Some(texture), Some(handler), 0, 0)
    ensures c.pen == Black && c.ops == [Fill(White)]
    ensures c.penWidth == penWidth && c.penHeight == penHeight
  {
    c := SetColor(Clear(Canvas(penWidth, penHeight, Black, [])), Black);
    r := Screen.RegisterTiles(t, i, j, w, h, Some(texture), Some(handler), 0, 0);
  }

  /**
    The button constructors (colour, clear and snapshot): slot (i, j) bound to
    the button's texture and handler at offset (0, 0), every other slot kept.
  */
  function NewButton(t: Screen.Table, i: int, j: int, texture: Screen.TextureRef, handler: Screen.HandlerRef): (r: Screen.Table)
    requires 0 <= i < Screen.Columns && 0 <= j < Screen.Rows
    ensures r[Screen.Slot(i, j)].texture == Some(texture) && r[Screen.Slot(i, j)].handler == Some(handler)
    ensures r[Screen.Slot(i, j)].rect.x == 0 && r[Screen.Slot(i, j)].rect.y == 0
    ensures forall s :: 0 <= s < Screen.SlotCount && s != Screen.Slot(i, j) ==> r[s] == t[s]
  {
    Screen.SlotBijection(i, j, i, j);
    Screen.RegisterTile(t, i, j, Some(texture), Some(handler), 0, 0)
  }

  /**
    A canvas block of 15 x 9 tiles at cell (1, 0): a press at screen point
    (130, 5) reaches the canvas at (10, 5), and a drag to (133, 5) by (3, 0)
    stamps (13, 5), (12, 5) and (11, 5), leaving (10, 5) to the press.
  */
  lemma CanvasBlockScenario(t: Screen.Table, r: Screen.Table, texture: Screen.TextureRef, handler: Screen.HandlerRef)
    requires Screen.BlockRegistered(t, r, 1, 0, 15, 9, Some(texture), Some(handler), 0, 0)
    ensures Screen.Dispatch(r, Screen.Press(130, 5)) == Some(Screen.Down(handler, 10, 5))
    ensures Screen.Dispatch(r, Screen.Drag(133, 5, 3, 0)) == Some(Screen.Move(handler, 13, 5, 3, 0))
    ensures Stroke.Stroke(13, 5, 3, 0) == [Stroke.Point(13, 5), Stroke.Point(12, 5), Stroke.Point(11, 5)]
  {
    Screen.BlockRouting(t, r, 1, 0, 15, 9, Some(texture), Some(handler), 0, 0, Screen.Press(130, 5));
    Screen.BlockRouting(t, r, 1, 0, 15, 9, Some(texture), Some(handler), 0, 0, Screen.Drag(133, 5, 3, 0));
    Stroke.StrokeNeverPaintsOrigin(13, 5, 3, 0, 0);
    Stroke.StrokeNeverPaintsOrigin(13, 5, 3, 0, 1);
    Stroke.StrokeNeverPaintsOrigin(13, 5, 3, 0, 2);
    Stroke.StrokeInBoundingBox(13, 5, 3, 0, 0);
    Stroke.StrokeInBoundingBox(13, 5, 3, 0, 1);
    Stroke.StrokeInBoundingBox(13, 5, 3, 0, 2);
  }
}
