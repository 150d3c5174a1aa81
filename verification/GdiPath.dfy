/**
 The path of a device context (graphics/GdiGraphics.c): a state, a number of entries, and pointers
 to two heap arrays, one of entry types and one of points.  Some calls write into the arrays where
 they are, some move them by WinRealloc, some free them.

 Pointers are modelled as numbers, 0 being the null pointer; an allocation returns a number not
 used before, and a reallocation frees the old array: afterwards its pointer must not be used.
 What a call does through a pointer to a freed array is undefined in C; here it then leaves the
 memory alone.
 */
module GdiPath {

  type Handle = nat

  type PathType = t: int | 0 <= t < 0x100

  const PT_MOVETO: PathType := 0x01
  const PT_LINETO: PathType := 0x02
  const PT_BEZIERTO: PathType := 0x03
  const PT_CLOSEFIGURE: PathType := 0x80

  datatype Point = Point(x: int, y: int)

  /** The arrays that device contexts point to, kind by kind, and what the next allocation returns. */
  datatype Heap = Heap(
    spaces: map<Handle, seq<int>>,
    palettes: map<Handle, seq<int>>,
    types: map<Handle, seq<PathType>>,
    points: map<Handle, seq<Point>>,
    next: Handle)

  const NO_PATH: nat := 0
  const OPENED: nat := 1
  const CLOSED: nat := 2

  datatype Path = Path(state: nat, size: nat, types: Handle, points: Handle)

  const EMPTY_PATH: Path := Path(NO_PATH, 0, 0, 0)

  predicate Flagged(t: PathType) { t >= PT_CLOSEFIGURE }

  function Kind(t: PathType): PathType { if Flagged(t) then t - PT_CLOSEFIGURE else t }

  function Close(t: PathType): PathType { if Flagged(t) then t else t + PT_CLOSEFIGURE }

  function Types(p: Path, h: Heap): seq<PathType> { if p.types in h.types then h.types[p.types] else [] }

  function Points(p: Path, h: Heap): seq<Point> { if p.points in h.points then h.points[p.points] else [] }

  /** The arrays are there and hold all the entries. */
  predicate Usable(p: Path, h: Heap) {
    && p.types in h.types && p.points in h.points
    && p.size <= |h.types[p.types]| && p.size <= |h.points[p.points]|
  }

  // ---------------------------------------------------------------- calls

  datatype PathOp =
    | Begin
    | End
    | Abort
    | CloseIt
    | Insert(i: nat, types: seq<PathType>, points: seq<Point>)
    | Flatten(i: nat, points: seq<Point>)
    | Widen(i: nat, n: nat, types: seq<PathType>, points: seq<Point>)
    | ToRegion(found: bool)

  /** InsertDeletePath and what its caller puts in: entries i to i + n - 1 are replaced by others. */
  function Spliced<T>(s: seq<T>, size: nat, i: nat, n: nat, added: seq<T>): (r: seq<T>)
    requires i + n <= size <= |s|
    ensures |r| == size - n + |added|
  {
    s[..i] + added + s[i + n..size]
  }

  /** The arrays are moved and now hold these entries. */
  function Moved(p: Path, h: Heap, types: seq<PathType>, points: seq<Point>): (Path, Heap) {
    (p.(size := |types|, types := h.next, points := h.next + 1),
     h.(types := (h.types - {p.types})[h.next := types],
        points := (h.points - {p.points})[h.next + 1 := points],
        next := h.next + 2))
  }

  function Discarded(p: Path, h: Heap): (Path, Heap) {
    (EMPTY_PATH, h.(types := h.types - {p.types}, points := h.points - {p.points}))
  }

  /** The entry whose figure CloseFigure closes: the last line or curve, or -1 when there is none,
      or -2 when the figure is closed already. */
  function LastOpen(types: seq<PathType>, size: nat): (k: int)
    requires size <= |types|
    ensures -2 <= k < size
    ensures k >= 0 ==> types[k] == PT_LINETO || types[k] == PT_BEZIERTO
    ensures k >= -1 ==>
              forall j | k < j < size :: !Flagged(types[j]) && types[j] != PT_LINETO && types[j] != PT_BEZIERTO
    ensures k == -2 ==>
              exists c | 0 <= c < size :: Flagged(types[c]) && forall j | c < j < size ::
                !Flagged(types[j]) && types[j] != PT_LINETO && types[j] != PT_BEZIERTO
  {
    if size == 0 then -1
    else if Flagged(types[size - 1]) then -2
    else if types[size - 1] == PT_LINETO || types[size - 1] == PT_BEZIERTO then size - 1
    else LastOpen(types, size - 1)
  }

  /** MoveTo, LineTo and PolyBezierTo add entries at the end, WidenPath inserts some in between. */
  predicate Inserts(p: Path, h: Heap, op: PathOp) {
    op.Insert? && p.state != NO_PATH && 1 <= |op.types| == |op.points| && op.i <= p.size
    && (p.size == 0 || Usable(p, h))
  }

  function InsertIn(p: Path, h: Heap, op: PathOp): (Path, Heap)
    requires Inserts(p, h, op)
  {
    if p.size == 0 then Moved(p, h, op.types, op.points)
    else Moved(p, h, Spliced(Types(p, h), p.size, op.i, 0, op.types), Spliced(Points(p, h), p.size, op.i, 0, op.points))
  }

  lemma InsertMoves(p: Path, h: Heap, i: nat, t: seq<PathType>, q: seq<Point>, ts: seq<PathType>, ps: seq<Point>)
    requires Inserts(p, h, Insert(i, ts, ps)) && |t| == |q| == p.size
    requires p.size > 0 ==> t == Types(p, h)[..p.size] && q == Points(p, h)[..p.size]
    ensures InsertIn(p, h, Insert(i, ts, ps)) == Moved(p, h, t[..i] + ts + t[i..], q[..i] + ps + q[i..])
  {
    if p.size == 0 {
      assert t[..i] + ts + t[i..] == ts && q[..i] + ps + q[i..] == ps;
    } else {
      assert t[..i] == Types(p, h)[..i] && t[i..] == Types(p, h)[i..p.size];
      assert q[..i] == Points(p, h)[..i] && q[i..] == Points(p, h)[i..p.size];
    }
  }

  predicate Closes(p: Path, h: Heap) {
    p.state == OPENED && Usable(p, h) && LastOpen(Types(p, h), p.size) >= 0
  }

  function CloseIn(p: Path, h: Heap): Heap
    requires Closes(p, h)
  {
    var t := Types(p, h);
    var k := LastOpen(t, p.size);
    h.(types := h.types[p.types := t[k := Close(t[k])]])
  }

  /** n lines, the last of which closes its figure if the curve they replace did. */
  function Lines(n: nat, closed: bool): (r: seq<PathType>)
    ensures |r| == n
    ensures forall k | 0 <= k < n :: r[k] == if k == n - 1 && closed then PT_LINETO + PT_CLOSEFIGURE else PT_LINETO
  {
    seq(n, k => if k == n - 1 && closed then PT_LINETO + PT_CLOSEFIGURE else PT_LINETO)
  }

  /** FlattenBezier finds a curve at entry i, which is replaced by lines to the given points. */
  predicate Flattens(p: Path, h: Heap, op: PathOp) {
    op.Flatten? && p.state == CLOSED && Usable(p, h) && op.points != [] && op.i + 3 <= p.size
    && Kind(Types(p, h)[op.i]) == PT_BEZIERTO
  }

  /** With no more points than the curve has, entries are deleted in place and what was behind them
      stays in the array; with more of them the arrays are moved. */
  function FlattenIn(p: Path, h: Heap, op: PathOp): (Path, Heap)
    requires Flattens(p, h, op)
  {
    var t, q, n := Types(p, h), Points(p, h), |op.points|;
    var lines := Lines(n, Flagged(t[op.i + 2]));
    var t', q' := Spliced(t, p.size, op.i, 3, lines), Spliced(q, p.size, op.i, 3, op.points);
    if n > 3 then Moved(p, h, t', q')
    else
      var size := p.size - 3 + n;
      (p.(size := size),
       h.(types := h.types[p.types := t' + t[size..]], points := h.points[p.points := q' + q[size..]]))
  }

  /** WidenPathLine and WidenPathFigure: entries go in behind the n from i on, and then those are deleted. */
  predicate Widens(p: Path, h: Heap, op: PathOp) {
    op.Widen? && p.state == CLOSED && Usable(p, h) && 1 <= |op.types| == |op.points| && op.i + op.n <= p.size
  }

  function WidenIn(p: Path, h: Heap, op: PathOp): (Path, Heap)
    requires Widens(p, h, op)
  {
    var t := Spliced(Types(p, h), p.size, op.i + op.n, 0, op.types);
    var q := Spliced(Points(p, h), p.size, op.i + op.n, 0, op.points);
    var size := |t| - op.n;
    var r := Moved(p, h, Spliced(t, |t|, op.i, op.n, []) + t[size..], Spliced(q, |q|, op.i, op.n, []) + q[size..]);
    (r.0.(size := size), r.1)
  }

  function Call(p: Path, h: Heap, op: PathOp): (Path, Heap) {
    match op
    case Begin => if p.state == NO_PATH then (Path(OPENED, 0, 0, 0), h) else (p, h)
    case End => (if p.state == OPENED then p.(state := CLOSED) else p, h)
    case Abort => if p.state == OPENED || p.state == CLOSED then Discarded(p, h) else (p, h)
    case CloseIt => (p, if Closes(p, h) then CloseIn(p, h) else h)
    case Insert(_, _, _) => if Inserts(p, h, op) then InsertIn(p, h, op) else (p, h)
    case Flatten(_, _) => if Flattens(p, h, op) then FlattenIn(p, h, op) else (p, h)
    case Widen(_, _, _, _) => if Widens(p, h, op) then WidenIn(p, h, op) else (p, h)
    case ToRegion(found) => if found && p.state == CLOSED then Discarded(p, h) else (p, h)
  }

  /** The call frees the arrays, or moves them. */
  predicate Releases(p: Path, h: Heap, op: PathOp) {
    match op
    case Abort => p.state == OPENED || p.state == CLOSED
    case ToRegion(found) => found && p.state == CLOSED
    case Insert(_, _, _) => Inserts(p, h, op)
    case Flatten(_, points) => Flattens(p, h, op) && |points| > 3
    case Widen(_, _, _, _) => Widens(p, h, op)
    case _ => false
  }

  /** The call writes into the arrays where they are. */
  predicate Overwrites(p: Path, h: Heap, op: PathOp) {
    match op
    case CloseIt => Closes(p, h)
    case Flatten(_, points) => Flattens(p, h, op) && |points| <= 3
    case _ => false
  }

  // ---------------------------------------------------------------- what the path reads

  /** The types and points of the path's entries. */
  function Drawn(p: Path, h: Heap): (r: (seq<PathType>, seq<Point>))
    requires p.size == 0 || Usable(p, h)
    ensures |r.0| == |r.1| == p.size
  {
    if p.size == 0 then ([], []) else (Types(p, h)[..p.size], Points(p, h)[..p.size])
  }

  /** A path is opened where there is none, closed once, and given up, its arrays freed, by AbortPath
      or when it has become a region; in any other state these calls change nothing. */
  lemma StateReads(p: Path, h: Heap)
    requires HeapOk(h) && PathOk(p, h)
    ensures p.state == NO_PATH ==> Call(p, h, Begin) == (Path(OPENED, 0, 0, 0), h)
    ensures p.state != NO_PATH ==> Call(p, h, Begin) == (p, h)
    ensures Call(p, h, End) == (if p.state == OPENED then p.(state := CLOSED) else p, h)
    ensures p.state != NO_PATH ==>
              var (r, m) := Call(p, h, Abort);
              r == Path(NO_PATH, 0, 0, 0) && p.types !in m.types && p.points !in m.points
    ensures p.state == CLOSED ==>
              var (r, m) := Call(p, h, ToRegion(true));
              r == Path(NO_PATH, 0, 0, 0) && p.types !in m.types && p.points !in m.points
    ensures Call(p, h, ToRegion(false)) == (p, h)
    ensures p.state == NO_PATH ==> Call(p, h, End) == Call(p, h, Abort) == Call(p, h, ToRegion(true)) == (p, h)
  {
  }

  /** Entries that are inserted are found between the ones before and the ones behind. */
  lemma InsertReads(p: Path, h: Heap, op: PathOp)
    requires HeapOk(h) && Inserts(p, h, op)
    ensures var (r, m), (t, q) := Call(p, h, op), Drawn(p, h);
            && Usable(r, m) && r.state == p.state
            && Drawn(r, m) == (t[..op.i] + op.types + t[op.i..], q[..op.i] + op.points + q[op.i..])
  {
    var (t, q) := Drawn(p, h);
    InsertMoves(p, h, op.i, t, q, op.types, op.points);
    var (r, m) := InsertIn(p, h, op);
    assert m.types[r.types][..r.size] == m.types[r.types] && m.points[r.points][..r.size] == m.points[r.points];
  }

  /** A curve that is flattened gives way to as many open lines as there are points, the last of which
      closes the figure if the curve did; whether the arrays are moved makes no difference. */
  lemma FlattenReads(p: Path, h: Heap, op: PathOp)
    requires HeapOk(h) && Flattens(p, h, op)
    ensures var (r, m), (t, q), n := Call(p, h, op), Drawn(p, h), |op.points|;
            && Usable(r, m) && r.state == p.state
            && r.size == p.size - 3 + n
            && Drawn(r, m).1 == q[..op.i] + op.points + q[op.i + 3..]
            && Drawn(r, m).0[..op.i] == t[..op.i] && Drawn(r, m).0[op.i + n..] == t[op.i + 3..]
            && (forall k | op.i <= k < op.i + n - 1 :: Drawn(r, m).0[k] == PT_LINETO)
            && Drawn(r, m).0[op.i + n - 1] == if Flagged(t[op.i + 2]) then PT_LINETO + PT_CLOSEFIGURE else PT_LINETO
  {
    var (t, q) := Drawn(p, h);
    var n := |op.points|;
    var lines := Lines(n, Flagged(t[op.i + 2]));
    SplicedIs(Types(p, h), p.size, op.i, 3, lines);
    SplicedIs(Points(p, h), p.size, op.i, 3, op.points);
    FlattenedIs(p, h, op);
  }

  lemma SplicedIs<T>(s: seq<T>, size: nat, i: nat, n: nat, added: seq<T>)
    requires i + n <= size <= |s|
    ensures var u, v := Spliced(s, size, i, n, added), s[..size];
            && u == v[..i] + added + v[i + n..]
            && u[..i] == v[..i] && u[i + |added|..] == v[i + n..]
            && forall k | i <= k < i + |added| :: u[k] == added[k - i]
  {
  }

  lemma FlattenedIs(p: Path, h: Heap, op: PathOp)
    requires HeapOk(h) && Flattens(p, h, op)
    ensures var (r, m), t := FlattenIn(p, h, op), Types(p, h);
            && Usable(r, m)
            && Drawn(r, m) == (Spliced(t, p.size, op.i, 3, Lines(|op.points|, Flagged(t[op.i + 2]))),
                               Spliced(Points(p, h), p.size, op.i, 3, op.points))
  {
    hide Spliced, Lines;
    var (r, m) := FlattenIn(p, h, op);
    var t := Types(p, h);
    assert Types(r, m)[..r.size] == Spliced(t, p.size, op.i, 3, Lines(|op.points|, Flagged(t[op.i + 2])));
    assert Points(r, m)[..r.size] == Spliced(Points(p, h), p.size, op.i, 3, op.points);
  }

  /** Widened entries are replaced by the ones that go in. */
  lemma WidenReads(p: Path, h: Heap, op: PathOp)
    requires HeapOk(h) && Widens(p, h, op)
    ensures var (r, m), (t, q) := Call(p, h, op), Drawn(p, h);
            && Usable(r, m) && r.state == p.state
            && Drawn(r, m) == (t[..op.i] + op.types + t[op.i + op.n..], q[..op.i] + op.points + q[op.i + op.n..])
  {
    SplicedTwiceIs(Types(p, h), p.size, op.i, op.n, op.types);
    SplicedTwiceIs(Points(p, h), p.size, op.i, op.n, op.points);
    WidenedIs(p, h, op);
    hide Spliced, WidenIn, Usable;
  }

  lemma WidenedIs(p: Path, h: Heap, op: PathOp)
    requires HeapOk(h) && Widens(p, h, op)
    ensures var (r, m), t, q := WidenIn(p, h, op), Types(p, h), Points(p, h);
            var u, v := Spliced(t, p.size, op.i + op.n, 0, op.types), Spliced(q, p.size, op.i + op.n, 0, op.points);
            && Usable(r, m) && r.state == p.state
            && Drawn(r, m) == (Spliced(u, |u|, op.i, op.n, []), Spliced(v, |v|, op.i, op.n, []))
  {
    hide Spliced;
    var (r, m) := WidenIn(p, h, op);
    var u := Spliced(Types(p, h), p.size, op.i + op.n, 0, op.types);
    var v := Spliced(Points(p, h), p.size, op.i + op.n, 0, op.points);
    assert Types(r, m)[..r.size] == Spliced(u, |u|, op.i, op.n, []);
    assert Points(r, m)[..r.size] == Spliced(v, |v|, op.i, op.n, []);
  }

  lemma SplicedTwiceIs<T>(s: seq<T>, size: nat, i: nat, n: nat, added: seq<T>)
    requires i + n <= size <= |s|
    ensures var u := Spliced(s, size, i + n, 0, added);
            Spliced(u, |u|, i, n, []) == s[..size][..i] + added + s[..size][i + n..]
  {
    var u := Spliced(s, size, i + n, 0, added);
    assert u[..i] == s[..size][..i] && u[i + n..] == added + s[i + n..size] && s[..size][i + n..] == s[i + n..size];
  }

  /** CloseFigure sets one flag, that of the last line or curve, and only if no end of a figure comes
      behind it. */
  lemma CloseReads(p: Path, h: Heap, k: nat)
    requires p.state == OPENED && Usable(p, h) && k < p.size
    requires Types(p, h)[k] == PT_LINETO || Types(p, h)[k] == PT_BEZIERTO
    requires forall j | k < j < p.size :: Types(p, h)[j] == PT_MOVETO
    ensures var (r, m), (t, q) := Call(p, h, CloseIt), Drawn(p, h);
            r == p && Drawn(r, m) == (t[k := t[k] + PT_CLOSEFIGURE], q)
  {
    var (r, m) := Call(p, h, CloseIt);
    var t := Types(p, h);
    assert LastOpen(t, p.size) == k;
    assert Drawn(r, m).0 == t[k := t[k] + PT_CLOSEFIGURE][..p.size];
  }

  // ---------------------------------------------------------------- writing entries

  function Over<T>(s: seq<T>, i: nat, added: seq<T>): (r: seq<T>)
    requires i + |added| <= |s|
    ensures |r| == |s|
    ensures forall k | 0 <= k < |s| :: r[k] == if i <= k < i + |added| then added[k - i] else s[k]
  {
    s[..i] + added + s[i + |added|..]
  }

  /** The memory with entries written into the path's arrays. */
  function Filled(p: Path, h: Heap, i: nat, types: seq<PathType>, points: seq<Point>): Heap
    requires Usable(p, h) && |types| == |points| && i + |types| <= p.size
  {
    h.(types := h.types[p.types := Over(h.types[p.types], i, types)],
       points := h.points[p.points := Over(h.points[p.points], i, points)])
  }

  lemma FilledNone(p: Path, h: Heap, i: nat)
    requires Usable(p, h) && i <= p.size
    ensures Filled(p, h, i, [], []) == h
  {
    OverNone(h.types[p.types], i);
    OverNone(h.points[p.points], i);
    var m := Filled(p, h, i, [], []);
    assert m.types == h.types && m.points == h.points;
  }

  lemma OverNone<T>(s: seq<T>, i: nat)
    requires i <= |s|
    ensures Over(s, i, []) == s
  {
  }

  lemma OverOne<T>(s: seq<T>, i: nat, added: seq<T>, k: nat)
    requires i + |added| <= |s| && k < |added|
    ensures Over(s, i, added[..k])[i + k := added[k]] == Over(s, i, added[..k + 1])
  {
  }

  lemma FilledOne(p: Path, h: Heap, i: nat, types: seq<PathType>, points: seq<Point>, k: nat)
    requires Usable(p, h) && |types| == |points| && i + |types| <= p.size && k < |types|
    ensures var m := Filled(p, h, i, types[..k], points[..k]);
            Filled(p, h, i, types[..k + 1], points[..k + 1])
            == m.(types := m.types[p.types := m.types[p.types][i + k := types[k]]],
                  points := m.points[p.points := m.points[p.points][i + k := points[k]]])
  {
    hide Over;
    OverOne(h.types[p.types], i, types, k);
    OverOne(h.points[p.points], i, points, k);
  }

  lemma SplicedOver<T>(s: seq<T>, size: nat, i: nat, n: nat, room: seq<T>, added: seq<T>)
    requires i + n <= size <= |s| && |room| == |added|
    ensures Over(Spliced(s, size, i, n, room), i, added) == Spliced(s, size, i, n, added)
  {
  }

  /** Making room and filling it is inserting. */
  lemma FilledRoom(p: Path, h: Heap, i: nat, ts: seq<PathType>, ps: seq<Point>,
                   types: seq<PathType>, points: seq<Point>)
    requires HeapOk(h) && Inserts(p, h, Insert(i, ts, ps)) && |types| == |points| == |ts|
    ensures var (r, m) := InsertIn(p, h, Insert(i, ts, ps));
            Usable(r, m) && i + |types| <= r.size
            && (r, Filled(r, m, i, types, points)) == InsertIn(p, h, Insert(i, types, points))
  {
    hide Over, Spliced;
    if p.size == 0 {
      assert Over(ts, 0, types) == types by { AllOver(ts, types); }
      assert Over(ps, 0, points) == points by { AllOver(ps, points); }
    } else {
      SplicedOver(Types(p, h), p.size, i, 0, ts, types);
      SplicedOver(Points(p, h), p.size, i, 0, ps, points);
    }
    var (r, m) := InsertIn(p, h, Insert(i, ts, ps));
    var f := InsertIn(p, h, Insert(i, types, points)).1;
    MovedTwice(p, h, m.types[r.types], m.points[r.points], f.types[r.types], f.points[r.points]);
  }

  lemma AllOver<T>(s: seq<T>, added: seq<T>)
    requires |s| == |added|
    ensures Over(s, 0, added) == added
  {
  }

  lemma MovedTwice(p: Path, h: Heap, t: seq<PathType>, q: seq<Point>, types: seq<PathType>, points: seq<Point>)
    requires |t| == |types|
    ensures var (r, m) := Moved(p, h, t, q);
            (r, m.(types := m.types[r.types := types], points := m.points[r.points := points]))
            == Moved(p, h, types, points)
  {
    var (r, m) := Moved(p, h, t, q);
    assert m.types[r.types := types] == Moved(p, h, types, points).1.types;
    assert m.points[r.points := points] == Moved(p, h, types, points).1.points;
  }

  /** Room for what the curve does not hold, or the rest of it deleted in place; then the lines over it. */
  lemma FlattenedOver<T>(s: seq<T>, size: nat, i: nat, room: seq<T>, added: seq<T>)
    requires i + 3 <= size <= |s| && added != []
    ensures |added| >= 3 && |room| == |added| - 3 ==>
              Over(Spliced(s, size, i, 0, room), i, added) == Spliced(s, size, i, 3, added)
    ensures |added| <= 3 ==>
              Over(Shrunk(s, size, i, 3 - |added|), i, added)
              == Spliced(s, size, i, 3, added) + s[size - 3 + |added|..]
  {
  }

  /** InsertDeletePath with a negative n: what is behind the deleted entries slides down, and the
      array keeps its length. */
  function Shrunk<T>(s: seq<T>, size: nat, i: nat, n: nat): (r: seq<T>)
    requires i + n <= size <= |s|
    ensures |r| == |s|
  {
    s[..i] + s[i + n..size] + s[size - n..]
  }

  function ShrunkIn(p: Path, h: Heap, i: nat, n: nat): (Path, Heap)
    requires Usable(p, h) && i + n <= p.size
  {
    (p.(size := p.size - n),
     h.(types := h.types[p.types := Shrunk(h.types[p.types], p.size, i, n)],
        points := h.points[p.points := Shrunk(h.points[p.points], p.size, i, n)]))
  }

  /** Deleting in place and writing the lines is flattening. */
  lemma FlattenedShrunk(p: Path, h: Heap, i: nat, points: seq<Point>)
    requires Flattens(p, h, Flatten(i, points)) && |points| <= 3
    ensures var (r, m) := ShrunkIn(p, h, i, 3 - |points|);
            var lines := Lines(|points|, Flagged(h.types[p.types][i + 2]));
            Usable(r, m) && i + |points| <= r.size
            && (r, Filled(r, m, i, lines, points)) == FlattenIn(p, h, Flatten(i, points))
  {
    hide Over, Spliced, Shrunk;
    var lines := Lines(|points|, Flagged(h.types[p.types][i + 2]));
    FlattenedOver(h.types[p.types], p.size, i, [], lines);
    FlattenedOver(h.points[p.points], p.size, i, [], points);
    var (r, m) := ShrunkIn(p, h, i, 3 - |points|);
    var f := FlattenIn(p, h, Flatten(i, points)).1;
    assert Filled(r, m, i, lines, points).types == f.types;
    assert Filled(r, m, i, lines, points).points == f.points;
  }

  /** Making room and writing the lines is flattening. */
  lemma FlattenedRoom(p: Path, h: Heap, i: nat, ts: seq<PathType>, ps: seq<Point>, points: seq<Point>)
    requires Flattens(p, h, Flatten(i, points)) && |ts| == |ps| == |points| - 3 > 0
    ensures var (r, m) := InsertIn(p, h, Insert(i, ts, ps));
            var lines := Lines(|points|, Flagged(h.types[p.types][i + 2]));
            Usable(r, m) && i + |points| <= r.size
            && (r, Filled(r, m, i, lines, points)) == FlattenIn(p, h, Flatten(i, points))
  {
    hide Over, Spliced;
    var (r, m) := InsertIn(p, h, Insert(i, ts, ps));
    var lines := Lines(|points|, Flagged(h.types[p.types][i + 2]));
    FlattenedOver(h.types[p.types], p.size, i, ts, lines);
    FlattenedOver(h.points[p.points], p.size, i, ps, points);
    MovedTwice(p, h, m.types[r.types], m.points[r.points],
               Over(m.types[r.types], i, lines), Over(m.points[r.points], i, points));
  }

  // ---------------------------------------------------------------- what a call keeps

  ghost predicate HeapOk(h: Heap) {
    && h.next > 0
    && (forall a | a in h.spaces :: 0 < a < h.next) && (forall a | a in h.palettes :: 0 < a < h.next)
    && (forall a | a in h.types :: 0 < a < h.next) && (forall a | a in h.points :: 0 < a < h.next)
  }

  /** Without a path there are no arrays, there are both or none, and arrays that are still
      allocated hold all the entries. */
  ghost predicate PathOk(p: Path, h: Heap) {
    && p.types < h.next && p.points < h.next && p.state <= CLOSED
    && (p.state == NO_PATH ==> p.types == 0)
    && (p.types == 0 <==> p.points == 0) && (p.types == 0 ==> p.size == 0)
    && (p.types in h.types ==> p.size <= |h.types[p.types]|)
    && (p.points in h.points ==> p.size <= |h.points[p.points]|)
  }

  /** Memory m, which has become of h, is in good order with its own path r and with another one. */
  ghost predicate Fine(h: Heap, r: (Path, Heap), q: Path) {
    HeapOk(r.1) && PathOk(r.0, r.1) && PathOk(q, r.1) && r.1.spaces == h.spaces && r.1.palettes == h.palettes
  }

  /** A call leaves its own path and every other path over the same memory in good order. */
  lemma CallKeepsOk(p: Path, h: Heap, op: PathOp, q: Path)
    requires HeapOk(h) && PathOk(p, h) && PathOk(q, h)
    ensures Fine(h, Call(p, h, op), q)
  {
    match op
    case Insert(_, _, _) =>
      hide InsertIn;
      if Inserts(p, h, op) { InsertIsFine(p, h, op, q); }
    case Flatten(_, _) =>
      hide FlattenIn;
      if Flattens(p, h, op) { FlattenIsFine(p, h, op, q); }
    case Widen(_, _, _, _) =>
      hide WidenIn;
      if Widens(p, h, op) { WidenIsFine(p, h, op, q); }
    case CloseIt =>
    case _ =>
  }

  lemma InsertIsFine(p: Path, h: Heap, op: PathOp, q: Path)
    requires HeapOk(h) && PathOk(p, h) && PathOk(q, h) && Inserts(p, h, op)
    ensures Fine(h, InsertIn(p, h, op), q)
  {
  }

  lemma FlattenIsFine(p: Path, h: Heap, op: PathOp, q: Path)
    requires HeapOk(h) && PathOk(p, h) && PathOk(q, h) && Flattens(p, h, op)
    ensures Fine(h, FlattenIn(p, h, op), q)
  {
    hide Lines;
  }

  lemma WidenIsFine(p: Path, h: Heap, op: PathOp, q: Path)
    requires HeapOk(h) && PathOk(p, h) && PathOk(q, h) && Widens(p, h, op)
    ensures Fine(h, WidenIn(p, h, op), q)
  {
  }

  /** How far CloseFigure and FlattenPath have changed an entry: curves before lines, open ones
      before closed ones. */
  function Rank(t: PathType): int {
    (if Kind(t) == PT_BEZIERTO then 0 else 2) + (if Flagged(t) then 1 else 0)
  }

  /** The first entry that is not of the same type has gone up in rank. */
  ghost predicate Advanced(s: seq<PathType>, r: seq<PathType>) {
    exists k | 0 <= k < |s| && k < |r| :: s[..k] == r[..k] && Rank(s[k]) < Rank(r[k])
  }

  lemma AdvancedIsTransitive(s: seq<PathType>, r: seq<PathType>, q: seq<PathType>)
    requires Advanced(s, r) && Advanced(r, q)
    ensures Advanced(s, q)
  {
    var k :| 0 <= k < |s| && k < |r| && s[..k] == r[..k] && Rank(s[k]) < Rank(r[k]);
    var l :| 0 <= l < |r| && l < |q| && r[..l] == q[..l] && Rank(r[l]) < Rank(q[l]);
    var m := if k <= l then k else l;
    assert s[..m] == s[..k][..m] == r[..m] == r[..l][..m] == q[..m];
    if k < l {
      assert r[k] == r[..l][k] == q[k];
    } else if l < k {
      assert s[l] == s[..k][l] == r[l];
    }
    assert Rank(s[m]) < Rank(q[m]);
  }

  /** Memory m, which has become of h through a call on p: p's arrays are gone or are both still there,
      and arrays at other addresses are as they were. */
  ghost predicate Leaves(p: Path, h: Heap, m: Heap, gone: bool) {
    && (gone ==> p.types !in m.types && p.points !in m.points)
    && (!gone ==> m.types.Keys == h.types.Keys && m.points.Keys == h.points.Keys)
    && (forall a | a < h.next && a in m.types :: a in h.types)
    && (forall a | a < h.next && a in m.points :: a in h.points)
    && (forall a | a in h.types && a != p.types :: a in m.types && m.types[a] == h.types[a])
    && (forall a | a in h.points && a != p.points :: a in m.points && m.points[a] == h.points[a])
  }

  /** A call that frees or moves the arrays takes both away; one that writes into them keeps them;
      arrays at other addresses stay as they are. */
  lemma CallTakes(p: Path, h: Heap, op: PathOp)
    requires HeapOk(h) && PathOk(p, h)
    ensures var m := Call(p, h, op).1;
            && Leaves(p, h, m, Releases(p, h, op))
            && (!Releases(p, h, op) && !Overwrites(p, h, op) ==> m == h)
  {
    match op
    case Insert(_, _, _) =>
      hide InsertIn;
      if Inserts(p, h, op) { InsertTakes(p, h, op); }
    case Flatten(_, _) =>
      hide FlattenIn;
      if Flattens(p, h, op) { FlattenTakes(p, h, op); }
    case Widen(_, _, _, _) =>
      hide WidenIn;
      if Widens(p, h, op) { WidenTakes(p, h, op); }
    case CloseIt =>
    case _ =>
  }

  lemma InsertTakes(p: Path, h: Heap, op: PathOp)
    requires HeapOk(h) && PathOk(p, h) && Inserts(p, h, op)
    ensures Leaves(p, h, InsertIn(p, h, op).1, true)
  {
    hide Spliced;
  }

  lemma FlattenTakes(p: Path, h: Heap, op: PathOp)
    requires HeapOk(h) && PathOk(p, h) && Flattens(p, h, op)
    ensures Leaves(p, h, FlattenIn(p, h, op).1, |op.points| > 3)
  {
    hide Spliced, Lines;
  }

  lemma WidenTakes(p: Path, h: Heap, op: PathOp)
    requires HeapOk(h) && PathOk(p, h) && Widens(p, h, op)
    ensures Leaves(p, h, WidenIn(p, h, op).1, true)
  {
    hide Spliced;
  }

  /** What it writes into the types advances them. */
  lemma OverwriteAdvances(p: Path, h: Heap, op: PathOp)
    requires Overwrites(p, h, op)
    ensures p.types in h.types && p.types in Call(p, h, op).1.types
    ensures Advanced(h.types[p.types], Call(p, h, op).1.types[p.types])
  {
    var s, r := h.types[p.types], Call(p, h, op).1.types[p.types];
    var k := if op.CloseIt? then LastOpen(s, p.size) else op.i;
    assert s[..k] == r[..k];
    assert Rank(s[k]) < Rank(r[k]);
  }

  /** The pointers a call leaves are null or point to arrays that are there, if the old ones did. */
  lemma CallIsBacked(p: Path, h: Heap, op: PathOp)
    requires HeapOk(h) && (p.types == 0 || p.types in h.types) && (p.points == 0 || p.points in h.points)
    ensures var (r, m) := Call(p, h, op);
            (r.types == 0 || r.types in m.types) && (r.points == 0 || r.points in m.points)
  {
  }

  /** Every array that a call leaves is an old one or its own path's. */
  lemma CallTakesOver(p: Path, h: Heap, op: PathOp)
    requires HeapOk(h) && PathOk(p, h)
    ensures var (r, m) := Call(p, h, op);
            && (forall a | a in m.types && a != r.types :: a in h.types && a != p.types)
            && (forall a | a in m.points && a != r.points :: a in h.points && a != p.points)
  {
  }
}
