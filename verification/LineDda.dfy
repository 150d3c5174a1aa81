/**
 LineDDA (graphics/GdiMath.c): Bresenham's line.  The callback's calls are recorded as the
 sequence of points it is given; they are proved to be the points of the ideal line, each
 rounded to the grid.
 */
module LineDda {
  import opened Arithmetic

  datatype Point = Point(x: int, y: int)

  /** k units from one coordinate in the direction of another. */
  function Toward(from: int, to: int, k: int): int { if to < from then from - k else from + k }

  /** Extent along the major axis. */
  function Major(a: Point, b: Point): nat {
    if Abs(b.x - a.x) < Abs(b.y - a.y) then Abs(b.y - a.y) else Abs(b.x - a.x)
  }

  /** Extent along the minor axis. */
  function Minor(a: Point, b: Point): nat {
    if Abs(b.x - a.x) < Abs(b.y - a.y) then Abs(b.x - a.x) else Abs(b.y - a.y)
  }

  /** How far the line has moved along the minor axis when it has moved p along the major one:
      h*p/w rounded to the nearest integer, halves upwards. */
  function Offset(w: nat, h: nat, p: nat): nat {
    if w == 0 then 0 else (2 * h * p + w) / (2 * w)
  }

  /** Point p of the ideal line from a to b, on the grid. */
  function Ideal(a: Point, b: Point, p: nat): Point {
    var m := Offset(Major(a, b), Minor(a, b), p);
    if Abs(b.x - a.x) < Abs(b.y - a.y)
    then Point(Toward(a.x, b.x, m), Toward(a.y, b.y, p))
    else Point(Toward(a.x, b.x, p), Toward(a.y, b.y, m))
  }

  /** m is h*p/w rounded to the nearest integer, halves upwards. */
  predicate Rounded(w: int, h: int, p: int, m: int) {
    -w <= 2 * (h * p - w * m) < w
  }

  lemma RoundedIsOffset(w: nat, h: nat, p: nat, m: int)
    requires w > 0 && Rounded(w, h, p, m)
    ensures m == Offset(w, h, p)
  {
    var t, d := 2 * h * p + w, 2 * w;
    var r := t - d * m;
    assert r == 2 * (h * p - w * m) + w;
    assert 0 <= r < d && m * d == d * m;
    DivIs(t, d, m, r);
  }

  /** The pixel selection variable when p columns are done and m of them went diagonally. */
  function Decision(w: int, h: int, p: int, m: int): int {
    2 * (h * (p + 1)) - 2 * (w * m) - w
  }

  /** One turn of the loop: the decision variable is kept up to date by the two increments,
      and it tells whether the minor coordinate moves. */
  lemma StepRounds(w: nat, h: nat, p: nat, m: int)
    ensures Decision(w, h, p + 1, m) == Decision(w, h, p, m) + 2 * h
    ensures Decision(w, h, p + 1, m + 1) == Decision(w, h, p, m) + 2 * h - 2 * w
    ensures h <= w && Rounded(w, h, p, m) && Decision(w, h, p, m) < 0 ==> Rounded(w, h, p + 1, m)
    ensures h <= w && Rounded(w, h, p, m) && Decision(w, h, p, m) >= 0 ==> Rounded(w, h, p + 1, m + 1)
  {
    assert h * (p + 1) == h * p + h && h * (p + 2) == h * p + 2 * h;
    assert w * (m + 1) == w * m + w;
  }

  lemma TowardStep(from: int, to: int, k: int)
    ensures Toward(from, to, k + 1) == Toward(from, to, k) + if to < from then -1 else 1
  {
  }

  lemma IdealIs(a: Point, b: Point, p: nat, m: int)
    requires p <= Major(a, b)
    requires if Major(a, b) > 0 then Rounded(Major(a, b), Minor(a, b), p, m) else m == 0
    ensures var steep := Abs(b.x - a.x) < Abs(b.y - a.y);
            Ideal(a, b, p) == Point(Toward(a.x, b.x, if steep then m else p), Toward(a.y, b.y, if steep then p else m))
  {
    if Major(a, b) > 0 {
      RoundedIsOffset(Major(a, b), Minor(a, b), p, m);
    }
  }

  method LineDDA(x1: int, y1: int, x2: int, y2: int) returns (calls: seq<Point>)
    ensures var a, b := Point(x1, y1), Point(x2, y2);
            && |calls| == Major(a, b) + 1
            && forall p | 0 <= p < |calls| :: calls[p] == Ideal(a, b, p)
  {
    var w, h := x2 - x1, y2 - y1;
    var dxd, dyd, dxn, dyn;

    // Extents without sign, and the sign of a step along each axis.
    if w < 0 {
      w, dxd := -w, -1;
    } else {
      dxd := 1;
    }
    if h < 0 {
      h, dyd := -h, -1;
    } else {
      dyd := 1;
    }

    // From here on w is the extent along the major axis, the one that moves at every step.
    if w < h {
      h, w := w, h;
      dxn, dyn := 0, dyd;
    } else {
      dxn, dyn := dxd, 0;
    }
    calls := Draw(Point(x1, y1), Point(x2, y2), w, h, dxd, dyd, dxn, dyn);
  }

  /** The drawing loop of LineDDA: w and h are the extents along the major and the minor axis,
      (dxd, dyd) is the diagonal step and (dxn, dyn) the one along the major axis only. */
  method Draw(a: Point, ghost b: Point, w: nat, h: nat, dxd: int, dyd: int, dxn: int, dyn: int)
    returns (calls: seq<Point>)
    requires w == Major(a, b) && h == Minor(a, b)
    requires dxd == (if b.x < a.x then -1 else 1) && dyd == (if b.y < a.y then -1 else 1)
    requires (dxn, dyn) == if Abs(b.x - a.x) < Abs(b.y - a.y) then (0, dyd) else (dxd, 0)
    ensures |calls| == w + 1
    ensures forall p | 0 <= p < |calls| :: calls[p] == Ideal(a, b, p)
  {
    ghost var steep := Abs(b.x - a.x) < Abs(b.y - a.y);
    assert h <= w;
    // Twice the distance from the halfway line, kept up to date by two increments.
    var ndinc := h * 2;
    var d := ndinc - w;
    var dinc := d - w;
    var x, y, p := a.x, a.y, 0;
    ghost var m := 0;
    assert d == Decision(w, h, 0, 0) && (w > 0 ==> Rounded(w, h, 0, 0));
    assert Toward(a.x, b.x, 0) == a.x && Toward(a.y, b.y, 0) == a.y;
    hide Decision, Rounded, Offset, Toward, Ideal, Major, Minor, Abs;
    calls := [];
    while p <= w
      invariant 0 <= p <= w + 1 && |calls| == p
      invariant d == Decision(w, h, p, m)
      invariant w > 0 ==> Rounded(w, h, p, m)
      invariant p == 0 ==> m == 0
      invariant x == Toward(a.x, b.x, if steep then m else p) && y == Toward(a.y, b.y, if steep then p else m)
      invariant forall i | 0 <= i < p :: calls[i] == Ideal(a, b, i)
    {
      IdealIs(a, b, p, m);
      StepRounds(w, h, p, m);
      TowardStep(a.x, b.x, if steep then m else p);
      TowardStep(a.y, b.y, if steep then p else m);
      calls := calls + [Point(x, y)];
      if d < 0 {
        x, y, d := x + dxn, y + dyn, d + ndinc;
      } else {
        x, y, d := x + dxd, y + dyd, d + dinc;
        m := m + 1;
      }
      p := p + 1;
    }
  }

  // ---------------------------------------------------------------- what the points are

  lemma OffsetRounds(w: nat, h: nat, p: nat)
    requires w > 0
    ensures Rounded(w, h, p, Offset(w, h, p))
  {
    var t, d := 2 * h * p + w, 2 * w;
    assert t == d * (t / d) + t % d;
    assert d * Offset(w, h, p) == 2 * (w * Offset(w, h, p));
    assert 2 * h * p == 2 * (h * p);
  }

  /** The first point is the start of the line and the last one its end. */
  lemma EndsMeet(a: Point, b: Point)
    ensures Ideal(a, b, 0) == a
    ensures Ideal(a, b, Major(a, b)) == b
  {
    var w, h := Major(a, b), Minor(a, b);
    if w > 0 {
      RoundedIsOffset(w, h, 0, 0);
      assert h * w == w * h;
      RoundedIsOffset(w, h, w, h);
    }
  }

  /** From one point to the next, the major coordinate moves by one towards the end and the
      minor one by nothing or by one towards the end. */
  lemma StepsByOne(a: Point, b: Point, p: nat)
    requires p < Major(a, b)
    ensures var w, h := Major(a, b), Minor(a, b);
            Offset(w, h, p) <= Offset(w, h, p + 1) <= Offset(w, h, p) + 1
    ensures var s, t := Ideal(a, b, p), Ideal(a, b, p + 1);
            if Abs(b.x - a.x) < Abs(b.y - a.y)
            then t.y == Toward(s.y, b.y, 1) && (t.x == s.x || t.x == Toward(s.x, b.x, 1))
            else t.x == Toward(s.x, b.x, 1) && (t.y == s.y || t.y == Toward(s.y, b.y, 1))
  {
    var w, h := Major(a, b), Minor(a, b);
    var m := Offset(w, h, p);
    OffsetRounds(w, h, p);
    StepRounds(w, h, p, m);
    if Decision(w, h, p, m) < 0 {
      RoundedIsOffset(w, h, p + 1, m);
    } else {
      RoundedIsOffset(w, h, p + 1, m + 1);
    }
    WithinHalfAUnit(a, b, p);
    WithinHalfAUnit(a, b, p + 1);
  }

  /** Every point is within half a unit of the true line, measured along the minor axis, and
      never leaves the rectangle the two ends span. */
  lemma WithinHalfAUnit(a: Point, b: Point, p: nat)
    requires p <= Major(a, b)
    ensures var w, h, m := Major(a, b), Minor(a, b), Offset(Major(a, b), Minor(a, b), p);
            && 2 * Abs(h * p - w * m) <= w
            && m <= h
  {
    var w, h := Major(a, b), Minor(a, b);
    if w > 0 {
      hide Major, Minor, Offset;
      var m := Offset(w, h, p);
      OffsetRounds(w, h, p);
      InsideRectangle(w, h, p, m);
    }
  }

  lemma InsideRectangle(w: nat, h: nat, p: nat, m: int)
    requires w > 0 && p <= w && Rounded(w, h, p, m)
    ensures 2 * Abs(h * p - w * m) <= w && m <= h
  {
    MulMono(h, p, w);
    assert p * h == h * p && m * w == w * m && (h + 1) * w == w * h + w;
    MulMono(w, h + 1, m);
  }
}
