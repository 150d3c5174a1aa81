/**
 Saving and restoring a device context (graphics/GdiDC.c), as a machine on values: the live
 attributes and a stack of saved copies of them.  DeviceContext.dfy carries the steps out on
 linked records in the heap.

 The plain attributes, the character widths and the text metrics are copied on saving.  Of four
 other arrays (justification, palette index, path types and path points) only the pointers are
 copied, so that live context and copies share them; SharedArrays.dfy says what becomes of those.
 */
module SaveStack {
  import opened GdiPath

  /** All bits of dwInvalid: the driver has to be told everything again. */
  const IM_INVALID: nat := 0x0013_ff8f

  datatype Buffer = Null | Data(values: seq<int>)

  /** lpExtraSpace, lpSystemPaletteIndex and the path. */
  datatype Shared = Shared(space: Handle, palette: Handle, path: Path)

  const NOTHING_SHARED: Shared := Shared(0, 0, EMPTY_PATH)

  /** A context's state: its plain attributes (type A), the invalid mask, the character widths
      and text metrics it owns, and the arrays it points to. */
  datatype Record<A> = Record(attrs: A, invalid: nat, widths: Buffer, metrics: Buffer, shared: Shared)

  /** live is in force, stack[0] was saved last; heap holds the arrays they point to. */
  datatype State<A> = State(live: Record<A>, stack: seq<Record<A>>, heap: Heap)

  // ---------------------------------------------------------------- steps

  /** SaveDC and what it returns. */
  function Save<A>(s: State<A>): (State<A>, int) {
    (s.(stack := [s.live] + s.stack), |s.stack| + 1)
  }

  /** The saved copy that RestoreDC(n) goes back to, counted from the top, or -1: a positive n
      names the return value of a SaveDC, a negative one a number of steps back. */
  function Target(depth: nat, n: int): (k: int)
    ensures -1 <= k < depth
  {
    if n > 0 && n <= depth then depth - n
    else if n < 0 && -n <= depth then -n - 1
    else -1
  }

  /** RestoreDC and what it returns. */
  function Restore<A>(s: State<A>, n: int): (State<A>, bool) {
    var k := Target(|s.stack|, n);
    if k == -1 then (s, false)
    else (s.(live := s.stack[k].(invalid := IM_INVALID), stack := s.stack[k + 1..]), true)
  }

  /** Any call that changes the attributes, mask, widths and metrics of the live context. */
  function Change<A>(s: State<A>, attrs: A, invalid: nat, widths: Buffer, metrics: Buffer): State<A> {
    s.(live := Record(attrs, invalid, widths, metrics, s.live.shared))
  }

  /** The live context with other pointers, over other memory. */
  function Repoint<A>(s: State<A>, shared: Shared, heap: Heap): State<A> {
    s.(live := s.live.(shared := shared), heap := heap)
  }

  /** SetTextJustification: the old array is freed and, if there are breaks, a new one taken. */
  function Justify<A>(s: State<A>, shares: Buffer): State<A> {
    var h := s.heap;
    var freed := h.spaces - {s.live.shared.space};
    if shares.Null? then Repoint(s, s.live.shared.(space := 0), h.(spaces := freed))
    else
      Repoint(s, s.live.shared.(space := h.next), h.(spaces := freed[h.next := shares.values], next := h.next + 1))
  }

  /** RealizePalette: the palette index is moved and filled in. */
  function Realize<A>(s: State<A>, index: seq<int>): State<A> {
    var h := s.heap;
    Repoint(s, s.live.shared.(palette := h.next),
            h.(palettes := (h.palettes - {s.live.shared.palette})[h.next := index], next := h.next + 1))
  }

  /** A call on the path. */
  function CallPath<A>(s: State<A>, op: PathOp): State<A> {
    var (p, h) := Call(s.live.shared.path, s.heap, op);
    Repoint(s, s.live.shared.(path := p), h)
  }

  datatype Op<A> =
    | OpSave
    | OpRestore(n: int)
    | OpChange(attrs: A, invalid: nat, widths: Buffer, metrics: Buffer)
    | OpJustify(shares: Buffer)
    | OpRealize(index: seq<int>)
    | OpPath(op: PathOp)

  function Step<A>(s: State<A>, op: Op<A>): State<A> {
    match op
    case OpSave => Save(s).0
    case OpRestore(n) => Restore(s, n).0
    case OpChange(attrs, invalid, widths, metrics) => Change(s, attrs, invalid, widths, metrics)
    case OpJustify(shares) => Justify(s, shares)
    case OpRealize(index) => Realize(s, index)
    case OpPath(op) => CallPath(s, op)
  }

  function Run<A>(s: State<A>, ops: seq<Op<A>>): State<A>
    decreases |ops|
  {
    if ops == [] then s else Run(Step(s, ops[0]), ops[1..])
  }

  /** The operations never restore a copy at or below the given depth of the stack. */
  predicate StaysAbove<A>(s: State<A>, ops: seq<Op<A>>, depth: nat)
    decreases |ops|
  {
    |s.stack| >= depth && (ops == [] || StaysAbove(Step(s, ops[0]), ops[1..], depth))
  }

  // ---------------------------------------------------------------- the stack

  lemma FailedRestoreChangesNothing<A>(s: State<A>, n: int)
    ensures !Restore(s, n).1 ==> Restore(s, n).0 == s
    ensures Restore(s, n).1 <==> n != 0 && -|s.stack| <= n <= |s.stack|
  {
  }

  /** Going back k steps is restoring the copy with number depth - k + 1. */
  lemma RelativeIsAbsolute<A>(s: State<A>, k: int)
    requires 0 < k <= |s.stack|
    ensures Restore(s, -k) == Restore(s, |s.stack| - k + 1)
  {
  }

  lemma StepKeepsBottom<A>(s: State<A>, op: Op<A>, depth: nat)
    requires |s.stack| >= depth && |Step(s, op).stack| >= depth
    ensures var t := Step(s, op).stack; t[|t| - depth..] == s.stack[|s.stack| - depth..]
  {
  }

  /** Operations that stay above a depth leave the copies below it alone. */
  lemma {:induction false} BottomStays<A>(s: State<A>, ops: seq<Op<A>>, depth: nat)
    requires StaysAbove(s, ops, depth)
    ensures var r := Run(s, ops);
            |r.stack| >= depth && r.stack[|r.stack| - depth..] == s.stack[|s.stack| - depth..]
    decreases |ops|
  {
    if ops != [] {
      hide Step;
      StepKeepsBottom(s, ops[0], depth);
      BottomStays(Step(s, ops[0]), ops[1..], depth);
    }
  }

  /** RestoreDC(id), with the number SaveDC returned, gives back all that is held by value as it was
      then, save for the invalid mask, the pointers to the shared arrays, and the same stack,
      whatever was saved, changed and restored above it in between. */
  lemma RestoreUndoesAll<A>(s: State<A>, ops: seq<Op<A>>)
    requires StaysAbove(Save(s).0, ops, |s.stack| + 1)
    ensures var (saved, id) := Save(s);
            var (r, ok) := Restore(Run(saved, ops), id);
            ok && r.live == s.live.(invalid := IM_INVALID) && r.stack == s.stack
  {
    var (saved, id) := Save(s);
    BottomStays(saved, ops, id);
    var m := Run(saved, ops);
    assert saved.stack[|saved.stack| - id..] == saved.stack;
    assert m.stack[|m.stack| - id..] == saved.stack;
    assert m.stack[|m.stack| - id] == saved.stack[0];
    assert m.stack[|m.stack| - id + 1..] == saved.stack[1..] == s.stack;
  }
}
