/** The all-octant Bresenham loop of kernel/drivers/vesa_driver.c as a trace of plotted points. */
module Line {

  import opened Arith
  import opened Bytes

  const INT_MAX: int := 0x7FFF_FFFF

  datatype Point = Point(x: int, y: int)

  function Abs(i: int): nat { if i < 0 then -i else i }

  /** Twice the signed area by which `a` x-steps and `b` y-steps leave the ideal line. */
  function Drift(dx: int, dy: int, a: int, b: int): int {
    2 * (b * dx - a * dy)
  }

  /** The value of `err` after `a` x-steps and `b` y-steps. */
  function ErrAt(dx: int, dy: int, a: int, b: int): int {
    (b + 1) * dx - (a + 1) * dy
  }

  /** After `a` x-steps and `b` y-steps the line is within half a pixel of the ideal one. */
  predicate Close(dx: nat, dy: nat, a: int, b: int) {
    && 0 <= a <= dx && 0 <= b <= dy
    && -Max(dx, dy) <= Drift(dx, dy, a, b) <= Max(dx, dy)
    && (dx == dy ==> a == b)
  }

  /** The coordinate `n` steps from `u` in the direction of `v`. */
  function Toward(u: int, v: int, n: int): int {
    if u < v then u + n else u - n
  }

  /** `p` is the i-th point of the line: i steps along the longer axis, closest on the other. */
  predicate OnLine(x1: int, y1: int, x2: int, y2: int, i: int, p: Point) {
    var dx, dy := Abs(x2 - x1), Abs(y2 - y1);
    var a, b := Abs(p.x - x1), Abs(p.y - y1);
    && (if x1 < x2 then x1 <= p.x else p.x <= x1)
    && (if y1 < y2 then y1 <= p.y else p.y <= y1)
    && Close(dx, dy, a, b)
    && i == (if dy <= dx then a else b)
  }

  lemma Expand(dx: nat, dy: nat, a: int, b: int)
    ensures Drift(dx, dy, a + 1, b) == Drift(dx, dy, a, b) - 2 * dy
    ensures Drift(dx, dy, a, b + 1) == Drift(dx, dy, a, b) + 2 * dx
    ensures Drift(dx, dy, a + 1, b + 1) == Drift(dx, dy, a, b) + 2 * dx - 2 * dy
    ensures (b + 1) * dx == b * dx + dx && (a + 1) * dy == a * dy + dy
  {
  }

  lemma MulLe(x: int, y: int, z: int)
    requires x <= y && 0 <= z
    ensures x * z <= y * z
  {
  }

  /** While the longer axis `len` is in range so is the shorter one, and both run out together. */
  lemma Shorter(len: int, wid: int, a: int, b: int)
    requires 0 <= wid && 0 < len && 0 <= a <= len && -len <= 2 * (b * len - a * wid) <= len
    ensures b <= wid && (a == len ==> b == wid)
  {
    if wid + 1 <= b {
      assert (wid + 1) * len == wid * len + len;
      MulLe(a, len, wid);
      MulLe(wid + 1, b, len);
    }
    if a == len && b <= wid - 1 {
      assert (wid - 1) * len == wid * len - len;
      MulLe(b, wid - 1, len);
    }
  }

  lemma InRange(dx: nat, dy: nat, a: int, b: int)
    requires 0 < Max(dx, dy) && -Max(dx, dy) <= Drift(dx, dy, a, b) <= Max(dx, dy)
    requires 0 <= a && 0 <= b
    ensures dy <= dx && a <= dx ==> b <= dy && (a == dx ==> b == dy)
    ensures dx < dy && b <= dy ==> a <= dx && (b == dy ==> a == dx)
  {
    if dy <= dx {
      if a <= dx { Shorter(dx, dy, a, b); }
    } else if b <= dy {
      assert 2 * (a * dy - b * dx) == -Drift(dx, dy, a, b);
      Shorter(dy, dx, b, a);
    }
  }

  function NextX(dy: int, a: int, err: int): int { if 2 * err > -dy then a + 1 else a }

  function NextY(dx: int, b: int, err: int): int { if 2 * err < dx then b + 1 else b }

  /** One pass of the loop: the longer axis always steps, and the drift stays within bounds. */
  lemma Step(dx: int, dy: int, a: int, b: int, err: int)
    requires 0 <= dx && 0 <= dy && Close(dx, dy, a, b) && err == ErrAt(dx, dy, a, b)
    requires !(a == dx && b == dy)
    ensures var a', b' := NextX(dy, a, err), NextY(dx, b, err);
            && Close(dx, dy, a', b')
            && (if dy <= dx then a' == a + 1 else b' == b + 1)
            && err - (if a' == a then 0 else dy) + (if b' == b then 0 else dx) == ErrAt(dx, dy, a', b')
  {
    var u := Drift(dx, dy, a, b);
    Expand(dx, dy, a, b);
    assert 2 * err == u + 2 * dx - 2 * dy;
    var a', b' := NextX(dy, a, err), NextY(dx, b, err);
    Expand(dx, dy, a', b');
    InRange(dx, dy, a, b);
    InRange(dx, dy, a', b');
  }

  lemma Plot(x1: int, y1: int, x2: int, y2: int, a: int, b: int)
    requires Close(Abs(x2 - x1), Abs(y2 - y1), a, b)
    ensures OnLine(x1, y1, x2, y2, if Abs(y2 - y1) <= Abs(x2 - x1) then a else b,
                   Point(Toward(x1, x2, a), Toward(y1, y2, b)))
    ensures 0 <= a <= Abs(x2 - x1) && 0 <= b <= Abs(y2 - y1)
    ensures Toward(x1, x2, a) == x2 <==> a == Abs(x2 - x1)
    ensures Toward(y1, y2, b) == y2 <==> b == Abs(y2 - y1)
    ensures Toward(x1, x2, a + 1) == Toward(x1, x2, a) + (if x1 < x2 then 1 else -1)
    ensures Toward(y1, y2, b + 1) == Toward(y1, y2, b) + (if y1 < y2 then 1 else -1)
  {
  }

  // ---- int arithmetic ------------------------------------------------------------------------

  predicate Fits(x: int) {
    -INT_MAX - 1 <= x <= INT_MAX
  }

  /** The three int computations of one pass stay in range. */
  predicate PassFits(dx: int, dy: int, err: int) {
    var half := if 2 * err > -dy then err - dy else err;
    Fits(2 * err) && Fits(half) && Fits(if 2 * err < dx then half + dx else half)
  }

  /** The steps taken in each direction after `i` passes. */
  function Path(dx: int, dy: int, i: nat): (p: (int, int)) {
    if i == 0 then (0, 0)
    else
      var p := Path(dx, dy, i - 1);
      var err := ErrAt(dx, dy, p.0, p.1);
      (NextX(dy, p.0, err), NextY(dx, p.1, err))
  }

  /** No int computation on the way overflows. */
  ghost predicate NoOverflow(dx: nat, dy: nat) {
    && dx <= INT_MAX && dy <= INT_MAX
    && forall i: nat | i < Max(dx, dy) :: PassFits(dx, dy, ErrAt(dx, dy, Path(dx, dy, i).0, Path(dx, dy, i).1))
  }

  lemma {:induction false} PathClose(dx: nat, dy: nat, i: nat)
    requires i <= Max(dx, dy)
    ensures Close(dx, dy, Path(dx, dy, i).0, Path(dx, dy, i).1)
    ensures i == if dy <= dx then Path(dx, dy, i).0 else Path(dx, dy, i).1
  {
    hide Close, ErrAt;
    if i == 0 {
      Start(0, 0, dx, dy, dx, dy);
    } else {
      PathClose(dx, dy, i - 1);
      var p := Path(dx, dy, i - 1);
      Step(dx, dy, p.0, p.1, ErrAt(dx, dy, p.0, p.1));
    }
  }

  /** Lines whose extents differ little, or are short, do not overflow. */
  lemma ShortFits(dx: nat, dy: nat)
    requires 2 * Abs(dx - dy) + Max(dx, dy) <= INT_MAX && 3 * Max(dx, dy) <= 2 * INT_MAX
    ensures NoOverflow(dx, dy)
  {
    hide Close, ErrAt, Path;
    forall i: nat | i < Max(dx, dy)
      ensures PassFits(dx, dy, ErrAt(dx, dy, Path(dx, dy, i).0, Path(dx, dy, i).1))
    {
      PathClose(dx, dy, i);
      Bounded(dx, dy, Path(dx, dy, i).0, Path(dx, dy, i).1, ErrAt(dx, dy, Path(dx, dy, i).0, Path(dx, dy, i).1));
    }
  }

  /** A horizontal line overflows exactly from 2^30 steps on. */
  lemma HorizontalFits(dx: nat)
    requires 0 < dx
    ensures NoOverflow(dx, 0) <==> 2 * dx <= INT_MAX
  {
    forall i: nat | i < dx
      ensures ErrAt(dx, 0, Path(dx, 0, i).0, Path(dx, 0, i).1) == dx
    {
      PathClose(dx, 0, i);
    }
    assert NoOverflow(dx, 0) ==> PassFits(dx, 0, ErrAt(dx, 0, Path(dx, 0, 0).0, Path(dx, 0, 0).1));
  }

  /** vesa_draw_line, for 32-bit coordinates on whose line no int computation overflows. */
  method DrawLine(x1: int, y1: int, x2: int, y2: int) returns (trace: seq<Point>)
    requires 0 <= x1 < U32 && 0 <= y1 < U32 && 0 <= x2 < U32 && 0 <= y2 < U32
    requires NoOverflow(Abs(x2 - x1), Abs(y2 - y1))
    ensures |trace| == Max(Abs(x2 - x1), Abs(y2 - y1)) + 1
    ensures trace[0] == Point(x1, y1) && trace[|trace| - 1] == Point(x2, y2)
    ensures forall i | 0 <= i < |trace| :: OnLine(x1, y1, x2, y2, i, trace[i])
  {
    hide Close, Drift, OnLine, ErrAt, Abs, Toward, NoOverflow, Path;
    var dx: int := if x2 > x1 then x2 - x1 else x1 - x2;
    var dy: int := if y2 > y1 then y2 - y1 else y1 - y2;
    var sx := if x1 < x2 then 1 else -1;
    var sy := if y1 < y2 then 1 else -1;
    var err := dx - dy;
    var x, y := x1, y1;
    ghost var a, b := 0, 0;
    trace := [];
    Start(x1, y1, x2, y2, dx, dy);
    PathStart(dx, dy);
    while true
      invariant 0 <= a <= dx && 0 <= b <= dy && x == Toward(x1, x2, a) && y == Toward(y1, y2, b)
      invariant Close(dx, dy, a, b) && err == ErrAt(dx, dy, a, b) && (a, b) == Path(dx, dy, |trace|)
      invariant |trace| == if dy <= dx then a else b
      invariant forall i | 0 <= i < |trace| :: OnLine(x1, y1, x2, y2, i, trace[i])
      invariant if trace == [] then a == b == 0 else trace[0] == Point(x1, y1)
      decreases dx + dy - a - b
    {
      Plot(x1, y1, x2, y2, a, b);
      trace := trace + [Point(x, y)];
      if x == x2 && y == y2 {
        break;
      }
      Step(dx, dy, a, b, err);
      PathStep(dx, dy, a, b, |trace| - 1);
      var e2 := 2 * err;
      assert Fits(e2);
      if e2 > -dy {
        err := err - dy;
        assert Fits(err);
        x := x + sx;
        a := a + 1;
      }
      if e2 < dx {
        err := err + dx;
        assert Fits(err);
        y := y + sy;
        b := b + 1;
      }
    }
  }

  lemma PathStart(dx: nat, dy: nat)
    ensures Path(dx, dy, 0) == (0, 0)
  {
  }

  lemma PathStep(dx: nat, dy: nat, a: int, b: int, i: nat)
    requires NoOverflow(dx, dy) && Close(dx, dy, a, b) && (a, b) == Path(dx, dy, i) && !(a == dx && b == dy)
    requires i == if dy <= dx then a else b
    ensures PassFits(dx, dy, ErrAt(dx, dy, a, b))
    ensures var err := ErrAt(dx, dy, a, b); Path(dx, dy, i + 1) == (NextX(dy, a, err), NextY(dx, b, err))
  {
    hide ErrAt, Close;
    NotDone(dx, dy, a, b);
  }

  lemma NotDone(dx: nat, dy: nat, a: int, b: int)
    requires Close(dx, dy, a, b) && !(a == dx && b == dy)
    ensures if dy <= dx then a < dx else b < dy
  {
    hide Drift;
    if 0 < Max(dx, dy) { InRange(dx, dy, a, b); }
  }

  lemma Start(x1: int, y1: int, x2: int, y2: int, dx: int, dy: int)
    requires dx == (if x2 > x1 then x2 - x1 else x1 - x2) && dy == (if y2 > y1 then y2 - y1 else y1 - y2)
    ensures dx == Abs(x2 - x1) && dy == Abs(y2 - y1) && Close(dx, dy, 0, 0) && dx - dy == ErrAt(dx, dy, 0, 0)
    ensures x1 == Toward(x1, x2, 0) && y1 == Toward(y1, y2, 0)
  {
  }

  lemma Bounded(dx: nat, dy: nat, a: int, b: int, err: int)
    requires Close(dx, dy, a, b) && err == ErrAt(dx, dy, a, b)
    ensures -(2 * Abs(dx - dy) + Max(dx, dy)) <= 2 * err <= 2 * Abs(dx - dy) + Max(dx, dy)
  {
    Expand(dx, dy, a, b);
    assert 2 * err == Drift(dx, dy, a, b) + 2 * dx - 2 * dy;
  }
}
