/**
  The tile grid and its input routing (`Screen` in screen.hh).

  The screen is a fixed 16 x 9 table of 120 x 120 slots. Each slot holds an
  optional texture handle, an optional input handler and a source rectangle
  whose offset selects the part of the texture shown in that slot.

  The event loop is modelled as a fold over a sequence of poll batches: each
  batch is the list of events one inner `SDL_PollEvent` loop drains. The fold
  produces the trace of what the loop does: handler calls, lambda runs,
  composites or delays, and the freeing of lambda objects. Handler and lambda
  results are inputs: `respond` answers each handler call, and a lambda event
  carries the result its closure returns.
*/
module Screen {
  import opened Wrappers

  const TileSize: int := 120
  const Columns: int := 16
  const Rows: int := 9
  const SlotCount: int := 144
  const ScreenWidth: int := 1920
  const ScreenHeight: int := 1080

  /** Opaque handles: the grid never looks inside a texture or a handler. */
  type TextureRef = nat
  type HandlerRef = nat

  datatype Rect = Rect(x: int, y: int, w: int, h: int)

  datatype Tile = Tile(texture: Option<TextureRef>, handler: Option<HandlerRef>, rect: Rect)

  /** A default-constructed slot: no texture, no handler, source rect (0, 0, 120, 120). */
  const EmptyTile: Tile := Tile(None, None, Rect(0, 0, TileSize, TileSize))

  type Table = t: seq<Tile> | |t| == SlotCount witness seq(144, _ => EmptyTile)

  function NewTable(): Table { seq(SlotCount, _ => EmptyTile) }

  /** Index of slot (i, j) in the flat table, `tile(i, j)`. */
  function Slot(i: int, j: int): int { j * Columns + i }

  /** Every slot keeps the 120 x 120 source size. */
  ghost predicate SourceSizeFixed(t: Table)
  {
    forall s :: 0 <= s < SlotCount ==> t[s].rect.w == TileSize && t[s].rect.h == TileSize
  }

  /** `tile(i, j)` maps the 16 x 9 grid one-to-one onto the 144 slots. */
  lemma SlotBijection(i: int, j: int, i': int, j': int)
    requires 0 <= i < Columns && 0 <= j < Rows
    requires 0 <= i' < Columns && 0 <= j' < Rows
    ensures 0 <= Slot(i, j) < SlotCount
    ensures Slot(i, j) % Columns == i && Slot(i, j) / Columns == j
    ensures Slot(i, j) == Slot(i', j') ==> i == i' && j == j'
  {
  }

  /** Every slot is the image of exactly the grid cell (s % 16, s / 16). */
  lemma SlotSurjective(s: int)
    requires 0 <= s < SlotCount
    ensures 0 <= s % Columns < Columns && 0 <= s / Columns < Rows
    ensures Slot(s % Columns, s / Columns) == s
  {
  }

  // ---------------------------------------------------------------------
  // Registration
  // ---------------------------------------------------------------------

  /**
    `registerTile`: binds texture, handler and source offset of slot (i, j).
    The slot index is not bounds-checked by the source; it must fall inside
    the table.
  */
  function RegisterTile(t: Table, i: int, j: int, texture: Option<TextureRef>, handler: Option<HandlerRef>,
                        x: int, y: int): (r: Table)
    requires 0 <= Slot(i, j) < SlotCount
    ensures r[Slot(i, j)].texture == texture && r[Slot(i, j)].handler == handler
    ensures r[Slot(i, j)].rect == Rect(x, y, t[Slot(i, j)].rect.w, t[Slot(i, j)].rect.h)
    ensures forall s :: 0 <= s < SlotCount && s != Slot(i, j) ==> r[s] == t[s]
  {
    var s := Slot(i, j);
    t[s := Tile(texture, handler, Rect(x, y, t[s].rect.w, t[s].rect.h))]
  }

  /** Registration keeps every source rectangle 120 x 120. */
  lemma RegisterTileKeepsSize(t: Table, i: int, j: int, texture: Option<TextureRef>, handler: Option<HandlerRef>,
                              x: int, y: int)
    requires 0 <= Slot(i, j) < SlotCount
    requires SourceSizeFixed(t)
    ensures SourceSizeFixed(RegisterTile(t, i, j, texture, handler, x, y))
  {
  }

  /** A later registration of the same slot overwrites the earlier one completely. */
  lemma RegisterTileOverwrites(t: Table, i: int, j: int, tex1: Option<TextureRef>, h1: Option<HandlerRef>,
                               x1: int, y1: int, tex2: Option<TextureRef>, h2: Option<HandlerRef>, x2: int, y2: int)
    requires 0 <= Slot(i, j) < SlotCount
    ensures RegisterTile(RegisterTile(t, i, j, tex1, h1, x1, y1), i, j, tex2, h2, x2, y2)
         == RegisterTile(t, i, j, tex2, h2, x2, y2)
  {
  }

  /** Slot s lies in the w x h block whose top-left cell is (i, j). */
  predicate InBlock(s: int, i: int, j: int, w: int, h: int)
  {
    0 <= s && i <= s % Columns < i + w && j <= s / Columns < j + h
  }

  /** The tile a block registration gives slot s. */
  function BlockTile(t: Table, s: int, i: int, j: int, texture: Option<TextureRef>, handler: Option<HandlerRef>,
                     x: int, y: int): Tile
    requires 0 <= s < SlotCount
  {
    Tile(texture, handler, Rect(x + TileSize * (s % Columns - i), y + TileSize * (s / Columns - j), t[s].rect.w, t[s].rect.h))
  }

  /** r is t with the w x h block at (i, j) registered: block slots rebound, all others unchanged. */
  ghost predicate BlockRegistered(t: Table, r: Table, i: int, j: int, w: int, h: int, texture: Option<TextureRef>,
                                  handler: Option<HandlerRef>, x: int, y: int)
  {
    forall s :: 0 <= s < SlotCount ==>
      r[s] == (if InBlock(s, i, j, w, h) then BlockTile(t, s, i, j, texture, handler, x, y) else t[s])
  }

  /**
    `registerTiles`: binds a w x h block of slots to one texture and handler,
    advancing the source offset by 120 per column and per row so that the
    texture is read as one image split over the block.
  */
  method RegisterTiles(t: Table, i: int, j: int, w: int, h: int, texture: Option<TextureRef>,
                       handler: Option<HandlerRef>, x: int, y: int) returns (r: Table)
    requires w > 0 && h > 0 ==> 0 <= i && i + w <= Columns && 0 <= j && j + h <= Rows
    ensures BlockRegistered(t, r, i, j, w, h, texture, handler, x, y)
  {
    r := t;
    var jj := 0;
    while jj < h
      invariant 0 <= jj <= (if h > 0 then h else 0)
      invariant forall s :: 0 <= s < SlotCount ==>
                  r[s] == (if InBlock(s, i, j, w, jj) then BlockTile(t, s, i, j, texture, handler, x, y) else t[s])
    {
      var ii := 0;
      while ii < w
        invariant 0 <= ii <= (if w > 0 then w else 0)
        invariant forall s :: 0 <= s < SlotCount ==>
                    r[s] == (if InBlock(s, i, j, w, jj) || (s / Columns == j + jj && i <= s % Columns < i + ii)
                             then BlockTile(t, s, i, j, texture, handler, x, y) else t[s])
      {
        SlotBijection(i + ii, j + jj, i + ii, j + jj);
        ghost var n := Slot(i + ii, j + jj);
        assert r[n] == t[n];
        assert BlockTile(t, n, i, j, texture, handler, x, y)
            == Tile(texture, handler, Rect(x + TileSize * ii, y + TileSize * jj, t[n].rect.w, t[n].rect.h));
        r := RegisterTile(r, i + ii, j + jj, texture, handler, x + TileSize * ii, y + TileSize * jj);
        ii := ii + 1;
      }
      forall s | 0 <= s < SlotCount
        ensures InBlock(s, i, j, w, jj) || (s / Columns == j + jj && i <= s % Columns < i + ii)
                <==> InBlock(s, i, j, w, jj + 1)
      {
        BlockGrows(s, i, j, w, jj, ii);
      }
      jj := jj + 1;
    }
  }

  /** A finished row extends the block by one row. */
  lemma BlockGrows(s: int, i: int, j: int, w: int, jj: int, ii: int)
    requires 0 <= s && 0 <= jj && ii == (if w > 0 then w else 0)
    ensures InBlock(s, i, j, w, jj) || (s / Columns == j + jj && i <= s % Columns < i + ii)
            <==> InBlock(s, i, j, w, jj + 1)
  {
  }

  /** The block registration stated per cell: cell (i+ii, j+jj) gets offset (x + 120 ii, y + 120 jj). */
  lemma BlockCellOffset(t: Table, i: int, j: int, w: int, h: int, texture: Option<TextureRef>,
                        handler: Option<HandlerRef>, x: int, y: int, ii: int, jj: int)
    requires 0 <= i && i + w <= Columns && 0 <= j && j + h <= Rows
    requires 0 <= ii < w && 0 <= jj < h
    ensures 0 <= Slot(i + ii, j + jj) < SlotCount
    ensures InBlock(Slot(i + ii, j + jj), i, j, w, h)
    ensures BlockTile(t, Slot(i + ii, j + jj), i, j, texture, handler, x, y).rect.x == x + TileSize * ii
    ensures BlockTile(t, Slot(i + ii, j + jj), i, j, texture, handler, x, y).rect.y == y + TileSize * jj
  {
    SlotBijection(i + ii, j + jj, i + ii, j + jj);
  }

  // ---------------------------------------------------------------------
  // Events and routing
  // ---------------------------------------------------------------------

  datatype MouseButton = LeftButton | MiddleButton | RightButton

  datatype Key = EscapeKey | OtherKey

  /**
    The events the loop distinguishes. Finger coordinates are taken as already
    scaled to integer screen pixels.
  */
  datatype Event =
    | QuitEvent
    | MouseButtonDown(button: MouseButton, x: int, y: int)
    | MouseButtonUp(button: MouseButton, x: int, y: int)
    | MouseMotion(leftHeld: bool, x: int, y: int, xrel: int, yrel: int)
    | FingerDown(x: int, y: int)
    | FingerUp(x: int, y: int)
    | FingerMotion(x: int, y: int, dx: int, dy: int)
    | KeyDown(key: Key)
    | WindowEvent
    | LambdaEvent(id: nat, result: bool)
    | OtherEvent

  /** The pointer gesture an event asks to route, if any. */
  datatype Gesture = Press(x: int, y: int) | Release(x: int, y: int) | Drag(x: int, y: int, dx: int, dy: int)

  /** A handler invocation with the local coordinates it receives. */
  datatype Call =
    | Down(handler: HandlerRef, x: int, y: int)
    | Up(handler: HandlerRef, x: int, y: int)
    | Move(handler: HandlerRef, x: int, y: int, dx: int, dy: int)

  /** One texture copy of a composite: slot (column, row) drawn at (120 column, 120 row). */
  datatype Blit = Blit(texture: TextureRef, src: Rect, column: int, row: int)

  datatype Action =
    | Invoke(call: Call)
    | RunLambda(id: nat)
    | Composite(blits: seq<Blit>)
    | Delay
    | Free(ids: seq<nat>)

  /** Quit and Escape end the loop. */
  predicate IsStop(e: Event)
  {
    e.QuitEvent? || (e.KeyDown? && e.key == EscapeKey)
  }

  /**
    Mouse buttons other than the left one are ignored, and mouse motion is
    forwarded only while the left button is held.
  */
  function GestureOf(e: Event): Option<Gesture>
  {
    match e
    case MouseButtonDown(b, x, y) => if b == LeftButton then Some(Press(x, y)) else None
    case MouseButtonUp(b, x, y) => if b == LeftButton then Some(Release(x, y)) else None
    case MouseMotion(held, x, y, xrel, yrel) => if held then Some(Drag(x, y, xrel, yrel)) else None
    case FingerDown(x, y) => Some(Press(x, y))
    case FingerUp(x, y) => Some(Release(x, y))
    case FingerMotion(x, y, dx, dy) => Some(Drag(x, y, dx, dy))
    case _ => None
  }

  predicate OnScreen(x: int, y: int)
  {
    0 <= x < ScreenWidth && 0 <= y < ScreenHeight
  }

  /** The source indexes the table without a bounds check: a routed gesture must be on screen. */
  predicate Routable(e: Event)
  {
    GestureOf(e).Some? ==> OnScreen(GestureOf(e).value.x, GestureOf(e).value.y)
  }

  /** The slot a screen point falls in: `(X / 120, Y / 120)`. */
  function SlotAt(x: int, y: int): (s: int)
    requires OnScreen(x, y)
    ensures 0 <= s < SlotCount
    ensures s % Columns == x / TileSize && s / Columns == y / TileSize
  {
    SlotBijection(x / TileSize, y / TileSize, x / TileSize, y / TileSize);
    Slot(x / TileSize, y / TileSize)
  }

  /** Local coordinates handed to the handler: `rect.offset + X - 120 i`. */
  function Local(t: Table, x: int, y: int): (p: (int, int))
    requires OnScreen(x, y)
  {
    var s := SlotAt(x, y);
    (t[s].rect.x + x - TileSize * (x / TileSize), t[s].rect.y + y - TileSize * (y / TileSize))
  }

  /** The handler call a gesture produces; none when the slot has no handler. */
  function Dispatch(t: Table, g: Gesture): (r: Option<Call>)
    requires OnScreen(g.x, g.y)
    ensures r.Some? <==> t[SlotAt(g.x, g.y)].handler.Some?
    ensures r.Some? ==> r.value.handler == t[SlotAt(g.x, g.y)].handler.value
    ensures r.Some? ==> (r.value.x, r.value.y) == Local(t, g.x, g.y)
    ensures r.Some? ==> (g.Press? <==> r.value.Down?) && (g.Release? <==> r.value.Up?)
    ensures r.Some? && g.Drag? ==> r.value.Move? && r.value.dx == g.dx && r.value.dy == g.dy
  {
    var s := SlotAt(g.x, g.y);
    match t[s].handler
    case None => None
    case Some(h) =>
      var (lx, ly) := Local(t, g.x, g.y);
      match g
      case Press(_, _) => Some(Down(h, lx, ly))
      case Release(_, _) => Some(Up(h, lx, ly))
      case Drag(_, _, dx, dy) => Some(Move(h, lx, ly, dx, dy))
  }

  /** What one non-stopping event contributes: its redraw bit, its actions, the lambdas to free. */
  datatype Contribution = Contribution(redraw: bool, actions: seq<Action>, lambdas: seq<nat>)

  function Handle(t: Table, respond: Call -> bool, e: Event): (c: Contribution)
    requires Routable(e)
  {
    if e.LambdaEvent? then Contribution(e.result, [RunLambda(e.id)], [e.id])
    else if e.WindowEvent? then Contribution(true, [], [])
    else if GestureOf(e).None? then Contribution(false, [], [])
    else
      var call := Dispatch(t, GestureOf(e).value);
      if call.None? then Contribution(false, [], [])
      else Contribution(respond(call.value), [Invoke(call.value)], [])
  }

  /** The events of a batch that are processed are routable (processing ends at a stop). */
  predicate BatchRoutable(es: seq<Event>)
  {
    forall k :: 0 <= k < |es| && (forall k' :: 0 <= k' < k ==> !IsStop(es[k'])) ==> IsStop(es[k]) || Routable(es[k])
  }

  /** Only handler calls and lambda runs: no composite, delay or free. */
  predicate HandlerActions(actions: seq<Action>)
  {
    forall i :: 0 <= i < |actions| ==> actions[i].Invoke? || actions[i].RunLambda?
  }

  /** The outcome of draining one batch of events. */
  datatype BatchResult = BatchResult(stopped: bool, redraw: bool, actions: seq<Action>, bin: seq<nat>)

  function RunBatch(t: Table, respond: Call -> bool, es: seq<Event>): (r: BatchResult)
    requires BatchRoutable(es)
    ensures r.stopped <==> exists k :: 0 <= k < |es| && IsStop(es[k])
    ensures HandlerActions(r.actions)
    decreases |es|
  {
    if |es| == 0 then BatchResult(false, false, [], [])
    else if IsStop(es[0]) then BatchResult(true, false, [], [])
    else
      assert BatchRoutable(es[1..]) by {
        forall k | 0 <= k < |es[1..]| && (forall k' :: 0 <= k' < k ==> !IsStop(es[1..][k']))
          ensures IsStop(es[1..][k]) || Routable(es[1..][k])
        {
          assert forall k' :: 0 <= k' < k + 1 ==> !IsStop(es[k']);
        }
      }
      var c := Handle(t, respond, es[0]);
      var rest := RunBatch(t, respond, es[1..]);
      assert (exists k :: 0 <= k < |es| && IsStop(es[k])) ==> exists k :: 0 <= k < |es[1..]| && IsStop(es[1..][k]) by {
        if exists k :: 0 <= k < |es| && IsStop(es[k]) {
          var k :| 0 <= k < |es| && IsStop(es[k]);
          assert es[1..][k - 1] == es[k];
        }
      }
      assert (exists k :: 0 <= k < |es[1..]| && IsStop(es[1..][k])) ==> exists k :: 0 <= k < |es| && IsStop(es[k]) by {
        if exists k :: 0 <= k < |es[1..]| && IsStop(es[1..][k]) {
          var k :| 0 <= k < |es[1..]| && IsStop(es[1..][k]);
          assert es[k + 1] == es[1..][k];
        }
      }
      BatchResult(rest.stopped, c.redraw || rest.redraw, c.actions + rest.actions, c.lambdas + rest.bin)
  }

  /** `draw()`: the blits of one composite, slots in increasing (row-major) order. */
  function DrawFrom(t: Table, s: nat): (r: seq<Blit>)
    requires s <= SlotCount
    decreases SlotCount - s
  {
    if s == SlotCount then []
    else
      var rest := DrawFrom(t, s + 1);
      match t[s].texture
      case None => rest
      case Some(tex) => [Blit(tex, t[s].rect, s % Columns, s / Columns)] + rest
  }

  function Draw(t: Table): seq<Blit> { DrawFrom(t, 0) }

  /** The batches that are processed are routable; processing ends at the batch that stops. */
  predicate LoopRoutable(t: Table, respond: Call -> bool, batches: seq<seq<Event>>)
    decreases |batches|
  {
    |batches| == 0 ||
    (BatchRoutable(batches[0]) &&
     (RunBatch(t, respond, batches[0]).stopped || LoopRoutable(t, respond, batches[1..])))
  }

  /** The outer loop after the first draw: the trace and whether it stopped. */
  function Iterate(t: Table, respond: Call -> bool, batches: seq<seq<Event>>): (r: (seq<Action>, bool))
    requires LoopRoutable(t, respond, batches)
    ensures forall i :: 0 <= i < |r.0| && r.0[i].Composite? ==> r.0[i] == Composite(Draw(t))
    ensures |batches| > 0 ==> |r.0| > 0 && r.0[|r.0| - 1].Free?
    ensures r.1 ==> |batches| > 0
    decreases |batches|
  {
    if |batches| == 0 then ([], false)
    else
      var b := RunBatch(t, respond, batches[0]);
      if b.stopped then
        // `return` destroys the trash bin, which frees the lambdas run so far
        (b.actions + [Free(b.bin)], true)
      else
        var (more, stopped) := Iterate(t, respond, batches[1..]);
        (b.actions + [if b.redraw then Composite(Draw(t)) else Delay, Free(b.bin)] + more, stopped)
  }

  /** `eventLoop`: one composite before the loop, then the iterations. */
  function EventLoop(t: Table, respond: Call -> bool, batches: seq<seq<Event>>): (r: (seq<Action>, bool))
    requires LoopRoutable(t, respond, batches)
    ensures |r.0| > 0 && r.0[0] == Composite(Draw(t))
  {
    var (trace, stopped) := Iterate(t, respond, batches);
    ([Composite(Draw(t))] + trace, stopped)
  }

  // ---------------------------------------------------------------------
  // Properties of routing and of the loop
  // ---------------------------------------------------------------------

  /**
    A gesture at global (X, Y) inside a block registered at cell (i0, j0)
    with offset (x0, y0) reaches the block's handler at local
    (x0 + X - 120 i0, y0 + Y - 120 j0), whichever tile of the block it hits.
  */
  lemma BlockRouting(t: Table, r: Table, i0: int, j0: int, w: int, h: int, texture: Option<TextureRef>,
                     handler: Option<HandlerRef>, x0: int, y0: int, g: Gesture)
    requires 0 <= i0 && i0 + w <= Columns && 0 <= j0 && j0 + h <= Rows
    requires BlockRegistered(t, r, i0, j0, w, h, texture, handler, x0, y0)
    requires OnScreen(g.x, g.y)
    requires TileSize * i0 <= g.x < TileSize * (i0 + w) && TileSize * j0 <= g.y < TileSize * (j0 + h)
    ensures handler.None? ==> Dispatch(r, g).None?
    ensures handler.Some? ==> Dispatch(r, g).Some? && Dispatch(r, g).value.handler == handler.value
    ensures handler.Some? ==> Dispatch(r, g).value.x == x0 + g.x - TileSize * i0
    ensures handler.Some? ==> Dispatch(r, g).value.y == y0 + g.y - TileSize * j0
  {
    var s := SlotAt(g.x, g.y);
    var i, j := g.x / TileSize, g.y / TileSize;
    assert i0 <= i < i0 + w && j0 <= j < j0 + h;
    assert InBlock(s, i0, j0, w, h);
    assert r[s].rect.x == x0 + TileSize * (i - i0);
    assert r[s].rect.y == y0 + TileSize * (j - j0);
  }

  /**
    A handler receives coordinates relative to its own slot: for an offset
    (0, 0) slot, 0 <= local < 120 and global = 120 i + local.
  */
  lemma LocalWithinTile(t: Table, x: int, y: int)
    requires OnScreen(x, y)
    ensures var s := SlotAt(x, y);
            var (lx, ly) := Local(t, x, y);
            0 <= lx - t[s].rect.x < TileSize && 0 <= ly - t[s].rect.y < TileSize &&
            x == TileSize * (s % Columns) + (lx - t[s].rect.x) &&
            y == TileSize * (s / Columns) + (ly - t[s].rect.y)
  {
  }

  /** Ignored input: other mouse buttons, motion without the left button, empty slots. */
  lemma IgnoredInput(t: Table, respond: Call -> bool, e: Event)
    requires Routable(e)
    requires || (e.MouseButtonDown? && e.button != LeftButton)
             || (e.MouseButtonUp? && e.button != LeftButton)
             || (e.MouseMotion? && !e.leftHeld)
             || (GestureOf(e).Some? && t[SlotAt(GestureOf(e).value.x, GestureOf(e).value.y)].handler.None?)
    ensures Handle(t, respond, e) == Contribution(false, [], [])
  {
  }

  /** Whether an event, handled on its own, owes a redraw. */
  predicate Owes(t: Table, respond: Call -> bool, e: Event)
    requires Routable(e)
  {
    || e.WindowEvent?
    || (e.LambdaEvent? && e.result)
    || (GestureOf(e).Some? && Dispatch(t, GestureOf(e).value).Some? && respond(Dispatch(t, GestureOf(e).value).value))
  }

  predicate NoStop(es: seq<Event>)
  {
    forall k :: 0 <= k < |es| ==> !IsStop(es[k])
  }

  lemma NoStopRoutable(es: seq<Event>)
    requires NoStop(es) && forall k :: 0 <= k < |es| ==> Routable(es[k])
    ensures BatchRoutable(es)
  {
  }

  /** The redraw flag of a batch is the OR of what its events owe. */
  lemma {:induction false} BatchRedrawIsOr(t: Table, respond: Call -> bool, es: seq<Event>)
    requires NoStop(es) && forall k :: 0 <= k < |es| ==> Routable(es[k])
    ensures BatchRoutable(es)
    ensures !RunBatch(t, respond, es).stopped
    ensures RunBatch(t, respond, es).redraw <==> exists k :: 0 <= k < |es| && Owes(t, respond, es[k])
  {
    NoStopRoutable(es);
    if |es| > 0 {
      var rest := es[1..];
      BatchRedrawIsOr(t, respond, rest);
      if exists k :: 0 <= k < |rest| && Owes(t, respond, rest[k]) {
        var k :| 0 <= k < |rest| && Owes(t, respond, rest[k]);
        assert es[k + 1] == rest[k];
      }
      if exists k :: 0 <= k < |es| && Owes(t, respond, es[k]) {
        var k :| 0 <= k < |es| && Owes(t, respond, es[k]);
        if k > 0 {
          assert rest[k - 1] == es[k];
        }
      }
    }
  }

  /** The ids of the lambda events of a batch, in order. */
  function LambdaIds(es: seq<Event>): seq<nat>
  {
    if |es| == 0 then []
    else (if es[0].LambdaEvent? then [es[0].id] else []) + LambdaIds(es[1..])
  }

  /** The ids of the lambdas a trace runs, in order. */
  function LambdaRuns(actions: seq<Action>): seq<nat>
  {
    if |actions| == 0 then []
    else (if actions[0].RunLambda? then [actions[0].id] else []) + LambdaRuns(actions[1..])
  }

  lemma {:induction false} LambdaRunsAppend(a: seq<Action>, b: seq<Action>)
    ensures LambdaRuns(a + b) == LambdaRuns(a) + LambdaRuns(b)
    decreases |a|
  {
    if |a| == 0 {
      assert a + b == b;
    } else {
      var head := if a[0].RunLambda? then [a[0].id] else [];
      assert (a + b)[0] == a[0];
      assert (a + b)[1..] == a[1..] + b;
      LambdaRunsAppend(a[1..], b);
      assert LambdaRuns(a + b) == head + (LambdaRuns(a[1..]) + LambdaRuns(b));
      assert head + (LambdaRuns(a[1..]) + LambdaRuns(b)) == (head + LambdaRuns(a[1..])) + LambdaRuns(b);
    }
  }

  /**
    Every lambda event of a batch is run exactly once, in arrival order, and
    the same lambdas, in the same order, are what the iteration frees.
  */
  lemma {:induction false} BatchLambdas(t: Table, respond: Call -> bool, es: seq<Event>)
    requires NoStop(es) && forall k :: 0 <= k < |es| ==> Routable(es[k])
    ensures BatchRoutable(es)
    ensures LambdaRuns(RunBatch(t, respond, es).actions) == LambdaIds(es)
    ensures RunBatch(t, respond, es).bin == LambdaIds(es)
  {
    NoStopRoutable(es);
    if |es| > 0 {
      BatchLambdas(t, respond, es[1..]);
      var c := Handle(t, respond, es[0]);
      LambdaRunsAppend(c.actions, RunBatch(t, respond, es[1..]).actions);
    }
  }

  /**
    Quit or Escape returns at once: the batch stops iff it holds a stop event,
    and what it did is exactly what the events before the first stop did.
  */
  lemma {:induction false} BatchStopsAtFirstStop(t: Table, respond: Call -> bool, es: seq<Event>, k: nat)
    requires k < |es| && IsStop(es[k]) && NoStop(es[..k])
    requires BatchRoutable(es)
    ensures BatchRoutable(es[..k])
    ensures RunBatch(t, respond, es).stopped
    ensures RunBatch(t, respond, es).actions == RunBatch(t, respond, es[..k]).actions
    ensures RunBatch(t, respond, es).bin == RunBatch(t, respond, es[..k]).bin
  {
    if k > 0 {
      assert es[1..][..k - 1] == es[..k][1..];
      assert es[1..][k - 1] == es[k];
      BatchStopsAtFirstStop(t, respond, es[1..], k - 1);
    }
  }

  /**
    No pointer state survives between events: the calls for a batch are the
    calls for its prefix followed by those of the last event, which depend
    only on that event's own coordinates.
  */
  lemma {:induction false} BatchAppend(t: Table, respond: Call -> bool, es: seq<Event>, e: Event)
    requires NoStop(es) && !IsStop(e)
    requires forall k :: 0 <= k < |es| ==> Routable(es[k])
    requires Routable(e)
    ensures BatchRoutable(es) && BatchRoutable(es + [e])
    ensures RunBatch(t, respond, es + [e]).actions == RunBatch(t, respond, es).actions + Handle(t, respond, e).actions
    decreases |es|
  {
    NoStopRoutable(es);
    NoStopRoutable(es + [e]);
    if |es| == 0 {
      assert es + [e] == [e];
      RunBatchCons(t, respond, [e]);
    } else {
      assert (es + [e])[1..] == es[1..] + [e];
      BatchAppend(t, respond, es[1..], e);
      RunBatchCons(t, respond, es);
      RunBatchCons(t, respond, es + [e]);
    }
  }

  /** A batch that does not start with a stop handles its first event, then runs the rest. */
  lemma RunBatchCons(t: Table, respond: Call -> bool, es: seq<Event>)
    requires BatchRoutable(es) && |es| > 0 && !IsStop(es[0])
    ensures BatchRoutable(es[1..])
    ensures RunBatch(t, respond, es).actions == Handle(t, respond, es[0]).actions + RunBatch(t, respond, es[1..]).actions
  {
    assert BatchRoutable(es[1..]) by {
      forall k | 0 <= k < |es[1..]| && (forall k' :: 0 <= k' < k ==> !IsStop(es[1..][k']))
        ensures IsStop(es[1..][k]) || Routable(es[1..][k])
      {
        assert forall k' :: 0 <= k' < k + 1 ==> !IsStop(es[k']);
      }
    }
  }

  /** The composite blits exactly the slots with a texture, in increasing slot (row-major) order. */
  lemma {:induction false} DrawOrder(t: Table, s: nat)
    requires s <= SlotCount
    ensures forall k :: 0 <= k < |DrawFrom(t, s)| ==>
              var b := DrawFrom(t, s)[k];
              var n := Slot(b.column, b.row);
              s <= n < SlotCount && b.column == n % Columns && b.row == n / Columns &&
              t[n].texture == Some(b.texture) && b.src == t[n].rect
    ensures forall k, k' :: 0 <= k < k' < |DrawFrom(t, s)| ==>
              Slot(DrawFrom(t, s)[k].column, DrawFrom(t, s)[k].row) < Slot(DrawFrom(t, s)[k'].column, DrawFrom(t, s)[k'].row)
    ensures forall n :: s <= n < SlotCount && t[n].texture.Some? ==>
              Blit(t[n].texture.value, t[n].rect, n % Columns, n / Columns) in DrawFrom(t, s)
    decreases SlotCount - s
  {
    if s < SlotCount {
      DrawOrder(t, s + 1);
      SlotSurjective(s);
      var rest := DrawFrom(t, s + 1);
      if t[s].texture.Some? {
        var head := Blit(t[s].texture.value, t[s].rect, s % Columns, s / Columns);
        assert DrawFrom(t, s) == [head] + rest;
        assert forall k :: 1 <= k < |rest| + 1 ==> DrawFrom(t, s)[k] == rest[k - 1];
      } else {
        assert DrawFrom(t, s) == rest;
      }
    }
  }

  /**
    An iteration whose batch owes a redraw composites the screen right after
    the batch's own actions, then frees the batch's lambdas, and the loop
    goes on with the next batch.
  */
  lemma BusyIterationComposites(t: Table, respond: Call -> bool, b: seq<Event>, batches: seq<seq<Event>>)
    requires NoStop(b) && forall k :: 0 <= k < |b| ==> Routable(b[k])
    requires exists k :: 0 <= k < |b| && Owes(t, respond, b[k])
    requires LoopRoutable(t, respond, batches)
    ensures BatchRoutable(b) && LoopRoutable(t, respond, [b] + batches)
    ensures var trace := Iterate(t, respond, [b] + batches).0;
            var n := |RunBatch(t, respond, b).actions|;
            |trace| == n + 2 + |Iterate(t, respond, batches).0| &&
            trace[..n] == RunBatch(t, respond, b).actions &&
            trace[n] == Composite(Draw(t)) && trace[n + 1] == Free(LambdaIds(b)) &&
            trace[n + 2..] == Iterate(t, respond, batches).0
    ensures Iterate(t, respond, [b] + batches).1 == Iterate(t, respond, batches).1
  {
    BatchRedrawIsOr(t, respond, b);
    BatchLambdas(t, respond, b);
    assert ([b] + batches)[1..] == batches;
  }

  /**
    Quit or Escape ends the loop in the middle of its batch: the trace ends
    with the actions of the events before the stop and the freeing of the
    lambdas those events ran, with no composite or delay for that batch, and
    later batches are never read.
  */
  lemma StopIterationEnds(t: Table, respond: Call -> bool, b: seq<Event>, k: nat, batches: seq<seq<Event>>)
    requires k < |b| && IsStop(b[k]) && NoStop(b[..k])
    requires BatchRoutable(b)
    ensures BatchRoutable(b[..k]) && LoopRoutable(t, respond, [b] + batches)
    ensures Iterate(t, respond, [b] + batches)
            == (RunBatch(t, respond, b[..k]).actions + [Free(LambdaIds(b[..k]))], true)
    ensures HandlerActions(RunBatch(t, respond, b[..k]).actions)
  {
    BatchStopsAtFirstStop(t, respond, b, k);
    var p := b[..k];
    forall j | 0 <= j < |p| ensures Routable(p[j]) {
      assert forall j' :: 0 <= j' < j ==> !IsStop(b[j']);
      assert p[j] == b[j];
    }
    BatchLambdas(t, respond, p);
  }

  /** With no stop and no event owing a redraw, the iteration delays instead of compositing. */
  lemma QuietIterationDelays(t: Table, respond: Call -> bool, b: seq<Event>, batches: seq<seq<Event>>)
    requires NoStop(b) && forall k :: 0 <= k < |b| ==> Routable(b[k])
    requires forall k :: 0 <= k < |b| ==> !Owes(t, respond, b[k])
    requires LoopRoutable(t, respond, batches)
    ensures BatchRoutable(b) && LoopRoutable(t, respond, [b] + batches)
    ensures var trace := Iterate(t, respond, [b] + batches).0;
            var n := |RunBatch(t, respond, b).actions|;
            |trace| > n + 1 && trace[n] == Delay && trace[n + 1] == Free(LambdaIds(b))
  {
    BatchRedrawIsOr(t, respond, b);
    BatchLambdas(t, respond, b);
    assert ([b] + batches)[1..] == batches;
  }
}
