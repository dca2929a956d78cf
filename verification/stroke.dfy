/**
  The canvas stroke rasteriser (`Canvas::move`).

  Given the new pointer position (x, y) and the motion delta (dx, dy), the
  canvas stamps the pen n = max(|dx|, |dy|) times, starting AT (x, y) and
  walking back towards the previous position (x - dx, y - dy) with two integer
  error accumulators, one per axis. The walk ends on the previous position
  without stamping it (that point was stamped by the previous event).

  `Walk` is the loop exactly as written; `Stroke` is an independent closed
  form of the same stamp sequence; the lemmas state the geometric promises of
  the closed form.
*/
module Stroke {

  datatype Point = Point(x: int, y: int)

  function Abs(v: int): nat { if v < 0 then -v else v }

  function Max(a: nat, b: nat): nat { if a < b then b else a }

  /** The unit the code subtracts from a coordinate when its axis advances. */
  function Dir(d: int): int { if d < 0 then -1 else 1 }

  /** Number of stamps (and of loop iterations) of one move. */
  function Steps(dx: int, dy: int): nat { Max(Abs(dx), Abs(dy)) }

  /**
    Closed form of the error-accumulation walk: after k of n iterations an
    axis whose delta has magnitude a has advanced Progress(a, n, k) units.
  */
  function Progress(a: nat, n: nat, k: nat): nat
    requires 0 < n
  {
    (2 * a * k + n - 1) / (2 * n)
  }

  /** The k-th stamp of the move, from the closed form. */
  function StampAt(x: int, y: int, dx: int, dy: int, k: nat): Point
    requires k < Steps(dx, dy)
  {
    var n := Steps(dx, dy);
    Point(x - Dir(dx) * Progress(Abs(dx), n, k), y - Dir(dy) * Progress(Abs(dy), n, k))
  }

  /** Every stamp of one move, in painting order. */
  function Stroke(x: int, y: int, dx: int, dy: int): (r: seq<Point>)
    ensures |r| == Steps(dx, dy)
  {
    seq(Steps(dx, dy), k requires 0 <= k < Steps(dx, dy) => StampAt(x, y, dx, dy, k))
  }

  // ---------------------------------------------------------------------
  // Arithmetic helpers
  // ---------------------------------------------------------------------

  lemma MulPos(d: int, t: int)
    requires 0 < d
    ensures t >= 1 ==> d * t >= d
    ensures t <= -1 ==> d * t <= -d
  {
    if t >= 1 {
      assert d * t == d + d * (t - 1);
    } else if t <= -1 {
      assert d * t == -d + d * (t + 1);
    }
  }

  /** The quotient is the unique q with d*q <= m < d*q + d. */
  lemma DivUnique(m: int, d: int, q: int)
    requires 0 < d
    requires d * q <= m < d * q + d
    ensures m / d == q
  {
    var t := m / d - q;
    assert m == d * (m / d) + m % d;
    assert d * t == d * (m / d) - d * q;
    assert -d < d * t < d;
    MulPos(d, t);
  }

  /** One iteration advances an axis by zero or one unit. */
  lemma ProgressIncrement(a: nat, n: nat, k: nat)
    requires 0 < n && a <= n
    ensures Progress(a, n, k + 1) == Progress(a, n, k) || Progress(a, n, k + 1) == Progress(a, n, k) + 1
  {
    var m := 2 * a * k + n - 1;
    var q := m / (2 * n);
    var r := m % (2 * n);
    assert m == 2 * n * q + r && 0 <= r < 2 * n;
    assert 2 * a * (k + 1) + n - 1 == m + 2 * a;
    if r + 2 * a < 2 * n {
      DivUnique(m + 2 * a, 2 * n, q);
    } else {
      assert 2 * n * (q + 1) == 2 * n * q + 2 * n;
      DivUnique(m + 2 * a, 2 * n, q + 1);
    }
  }

  lemma ProgressStart(a: nat, n: nat)
    requires 0 < n
    ensures Progress(a, n, 0) == 0
  {
    DivUnique(n - 1, 2 * n, 0);
  }

  /** After all n iterations the axis has advanced exactly a units. */
  lemma ProgressEnd(a: nat, n: nat)
    requires 0 < n
    ensures Progress(a, n, n) == a
  {
    assert 2 * a * n + n - 1 == 2 * n * a + (n - 1);
    DivUnique(2 * a * n + n - 1, 2 * n, a);
  }

  /** The dominating axis advances exactly once per iteration. */
  lemma ProgressDominant(n: nat, k: nat)
    requires 0 < n
    ensures Progress(n, n, k) == k
  {
    assert 2 * n * k + n - 1 == 2 * n * k + (n - 1);
    DivUnique(2 * n * k + n - 1, 2 * n, k);
  }

  lemma ProgressBounded(a: nat, n: nat, k: nat)
    requires 0 < n && k <= n
    ensures Progress(a, n, k) <= a
  {
    var m := 2 * a * k + n - 1;
    var q := m / (2 * n);
    assert m == 2 * n * q + m % (2 * n);
    assert 2 * a * k <= 2 * a * n by {
      assert 2 * a * n - 2 * a * k == 2 * a * (n - k);
    }
    assert 2 * n * (a + 1) == 2 * n * a + 2 * n;
    if q >= a + 1 {
      assert 2 * n * q - 2 * n * (a + 1) == 2 * n * (q - (a + 1));
      MulPos(2 * n, q - (a + 1) + 1);
    }
  }

  lemma ProgressZero(n: nat, k: nat)
    requires 0 < n
    ensures Progress(0, n, k) == 0
  {
    ProgressStart(0, n);
  }

  /**
    Identifies the closed form with the loop state: an accumulator value
    e = n - 2*a*k + 2*n*s that lies in [0, 2n) pins s down as Progress(a, n, k).
  */
  lemma ProgressFromAccumulator(a: nat, n: nat, k: nat, s: int)
    requires 0 < n
    requires 0 <= n - 2 * a * k + 2 * n * s < 2 * n
    ensures Progress(a, n, k) == s
  {
    DivUnique(2 * a * k + n - 1, 2 * n, s);
  }

  // ---------------------------------------------------------------------
  // The loop as written
  // ---------------------------------------------------------------------

  /** One iteration of the walk on one axis, as the loop body performs it. */
  lemma AdvanceAxis(a: nat, n: nat, i: nat, e: int)
    requires 0 < n && a <= n
    requires 0 <= e < 2 * n
    requires e == n - 2 * a * i + 2 * n * Progress(a, n, i)
    ensures var e1 := e - 2 * a;
            var e2 := if e1 < 0 then e1 + 2 * n else e1;
            && 0 <= e2 < 2 * n
            && e2 == n - 2 * a * (i + 1) + 2 * n * Progress(a, n, i + 1)
            && Progress(a, n, i + 1) == Progress(a, n, i) + (if e1 < 0 then 1 else 0)
  {
    var e1 := e - 2 * a;
    var p := Progress(a, n, i);
    var s := p + (if e1 < 0 then 1 else 0);
    assert 2 * a * (i + 1) == 2 * a * i + 2 * a;
    if e1 < 0 {
      assert 2 * n * s == 2 * n * p + 2 * n;
    } else {
      assert 2 * n * s == 2 * n * p;
    }
    ProgressFromAccumulator(a, n, i + 1, s);
  }

  /**
    The loop state of one axis after i iterations: the accumulator e and the
    coordinate c, which started at c0 and moves against the sign of d.
  */
  ghost predicate AxisAt(a: nat, n: nat, i: nat, e: int, c0: int, d: int, c: int)
    requires 0 < n
  {
    && 0 <= e < 2 * n
    && e == n - 2 * a * i + 2 * n * Progress(a, n, i)
    && c == c0 - Dir(d) * Progress(a, n, i)
  }

  /** The loop body keeps the state of an axis in step with the closed form. */
  lemma StepAxis(a: nat, n: nat, i: nat, e: int, c0: int, d: int, c: int)
    requires 0 < n && a <= n && AxisAt(a, n, i, e, c0, d, c)
    ensures var e1 := e - 2 * a;
            AxisAt(a, n, i + 1, if e1 < 0 then e1 + 2 * n else e1, c0, d, if e1 < 0 then c - Dir(d) else c)
  {
    AdvanceAxis(a, n, i, e);
    var p := Progress(a, n, i);
    assert Dir(d) * (p + 1) == Dir(d) * p + Dir(d);
  }

  /** While the walk is in step with the closed form, its position is the closed form's stamp. */
  lemma StampOfAxes(x0: int, y0: int, dx: int, dy: int, i: nat, ex: int, ey: int, x: int, y: int)
    requires i < Steps(dx, dy)
    requires AxisAt(Abs(dx), Steps(dx, dy), i, ex, x0, dx, x)
    requires AxisAt(Abs(dy), Steps(dx, dy), i, ey, y0, dy, y)
    ensures StampAt(x0, y0, dx, dy, i) == Point(x, y)
  {
  }

  /** One axis of the loop body: subtract twice the delta and, on going negative, advance the coordinate. */
  method AxisStep(a: nat, n: nat, e: int, d: int, c: int, ghost i: nat, ghost c0: int) returns (e': int, c': int)
    requires 0 < n && a <= n && AxisAt(a, n, i, e, c0, d, c)
    ensures AxisAt(a, n, i + 1, e', c0, d, c')
  {
    StepAxis(a, n, i, e, c0, d, c);
    e', c' := e - 2 * a, c;
    if e' < 0 {
      e' := e' + 2 * n;
      c' := c - Dir(d);
    }
  }

  /**
    `Canvas::move` without the drawing: the stamp positions in painting order,
    the walker's final position, and the pair of accumulator values left by
    every iteration.
  */
  method Walk(x0: int, y0: int, dx: int, dy: int) returns (stamps: seq<Point>, end: Point, errors: seq<(int, int)>)
    ensures stamps == Stroke(x0, y0, dx, dy)
    ensures end == Point(x0 - dx, y0 - dy)
    ensures |errors| == Steps(dx, dy)
    ensures forall k :: 0 <= k < |errors| ==>
              0 <= errors[k].0 < 2 * Steps(dx, dy) && 0 <= errors[k].1 < 2 * Steps(dx, dy)
  {
    var dz := Max(Abs(dx), Abs(dy));
    var ex: int := dz;
    var ey: int := dz;
    var x, y := x0, y0;
    stamps, errors := [], [];
    if dz == 0 {
      end := Point(x, y);
      return;
    }
    ghost var a, b := Abs(dx), Abs(dy);
    ProgressStart(a, dz);
    ProgressStart(b, dz);
    var i := 0;
    while i < dz
      invariant 0 <= i <= dz
      invariant |stamps| == i && |errors| == i
      invariant forall k :: 0 <= k < i ==> stamps[k] == StampAt(x0, y0, dx, dy, k)
      invariant forall k :: 0 <= k < i ==> 0 <= errors[k].0 < 2 * dz && 0 <= errors[k].1 < 2 * dz
      invariant AxisAt(a, dz, i, ex, x0, dx, x)
      invariant AxisAt(b, dz, i, ey, y0, dy, y)
    {
      StampOfAxes(x0, y0, dx, dy, i, ex, ey, x, y);
      stamps := stamps + [Point(x, y)];
      ex, x := AxisStep(Abs(dx), dz, ex, dx, x, i, x0);
      ey, y := AxisStep(Abs(dy), dz, ey, dy, y, i, y0);
      errors := errors + [(ex, ey)];
      i := i + 1;
    }
    ProgressEnd(a, dz);
    ProgressEnd(b, dz);
    end := Point(x, y);
  }

  // ---------------------------------------------------------------------
  // Properties of the stamp sequence
  // ---------------------------------------------------------------------

  /** A move with a zero delta paints nothing. */
  lemma StrokeEmptyIffNoMotion(x: int, y: int, dx: int, dy: int)
    ensures |Stroke(x, y, dx, dy)| == 0 <==> dx == 0 && dy == 0
  {
  }

  /** The first stamp is at the new pointer position. */
  lemma StrokeStartsAtPointer(x: int, y: int, dx: int, dy: int)
    requires dx != 0 || dy != 0
    ensures Stroke(x, y, dx, dy)[0] == Point(x, y)
  {
    ProgressStart(Abs(dx), Steps(dx, dy));
    ProgressStart(Abs(dy), Steps(dx, dy));
  }

  /**
    Consecutive stamps are 8-connected: each axis moves by zero or by one unit
    against the sign of its delta, and an axis whose delta is 0 never moves.
  */
  lemma StrokeConnected(x: int, y: int, dx: int, dy: int, k: nat)
    requires k + 1 < Steps(dx, dy)
    ensures var s := Stroke(x, y, dx, dy);
            (s[k + 1].x == s[k].x || s[k + 1].x == s[k].x - Dir(dx)) &&
            (s[k + 1].y == s[k].y || s[k + 1].y == s[k].y - Dir(dy))
    ensures var s := Stroke(x, y, dx, dy);
            (dx == 0 ==> s[k + 1].x == s[k].x) && (dy == 0 ==> s[k + 1].y == s[k].y)
  {
    var n := Steps(dx, dy);
    ProgressIncrement(Abs(dx), n, k);
    ProgressIncrement(Abs(dy), n, k);
    if dx == 0 {
      ProgressZero(n, k);
      ProgressZero(n, k + 1);
    }
    if dy == 0 {
      ProgressZero(n, k);
      ProgressZero(n, k + 1);
    }
  }

  /** Every stamp lies in the bounding box of (x, y) and (x - dx, y - dy). */
  lemma StrokeInBoundingBox(x: int, y: int, dx: int, dy: int, k: nat)
    requires k < Steps(dx, dy)
    ensures var p := Stroke(x, y, dx, dy)[k];
            (if dx < 0 then x <= p.x <= x - dx else x - dx <= p.x <= x) &&
            (if dy < 0 then y <= p.y <= y - dy else y - dy <= p.y <= y)
  {
    var n := Steps(dx, dy);
    ProgressBounded(Abs(dx), n, k);
    ProgressBounded(Abs(dy), n, k);
  }

  /**
    Along the dominating axis the k-th stamp is exactly k units from (x, y);
    hence no stamp of a non-empty move is the previous position (x - dx, y - dy).
  */
  lemma StrokeNeverPaintsOrigin(x: int, y: int, dx: int, dy: int, k: nat)
    requires k < Steps(dx, dy)
    ensures Abs(dx) == Steps(dx, dy) ==> Stroke(x, y, dx, dy)[k].x == x - Dir(dx) * k
    ensures Abs(dy) == Steps(dx, dy) ==> Stroke(x, y, dx, dy)[k].y == y - Dir(dy) * k
    ensures Stroke(x, y, dx, dy)[k] != Point(x - dx, y - dy)
  {
    var n := Steps(dx, dy);
    ProgressDominant(n, k);
    if Abs(dx) == n {
      assert Dir(dx) * n == dx;
    } else {
      assert Abs(dy) == n;
      assert Dir(dy) * n == dy;
    }
  }
}
