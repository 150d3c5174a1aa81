/**
 What becomes of the arrays that SaveDC shares between the live context and its copies
 (graphics/GdiDC.c:582-613): the justification array, the palette index, and the two arrays of the
 path.  Every call that frees, moves or overwrites one of them does so through the live context's
 pointer, and the copies are not told.
 */
module SharedArrays {
  import opened GdiPath
  import opened SaveStack

  datatype Which = Spaces | Palettes | PathTypes | PathPoints

  function Address(p: Shared, w: Which): Handle {
    match w
    case Spaces => p.space
    case Palettes => p.palette
    case PathTypes => p.path.types
    case PathPoints => p.path.points
  }

  function Allocated(h: Heap, w: Which): set<Handle> {
    match w
    case Spaces => h.spaces.Keys
    case Palettes => h.palettes.Keys
    case PathTypes => h.types.Keys
    case PathPoints => h.points.Keys
  }

  /** Array a is allocated in m with the contents it has in h. */
  predicate Intact(h: Heap, m: Heap, w: Which, a: Handle)
    requires a in Allocated(h, w)
  {
    a in Allocated(m, w) &&
    match w
    case Spaces => m.spaces[a] == h.spaces[a]
    case Palettes => m.palettes[a] == h.palettes[a]
    case PathTypes => m.types[a] == h.types[a]
    case PathPoints => m.points[a] == h.points[a]
  }

  ghost predicate SharedOk(p: Shared, h: Heap) {
    p.space < h.next && p.palette < h.next && PathOk(p.path, h)
  }

  /** What every state of a context satisfies. */
  ghost predicate Sound<A>(s: State<A>) {
    HeapOk(s.heap) && SharedOk(s.live.shared, s.heap)
    && forall i | 0 <= i < |s.stack| :: SharedOk(s.stack[i].shared, s.heap)
  }

  lemma StepKeepsSound<A>(s: State<A>, op: Op<A>)
    requires Sound(s)
    ensures Sound(Step(s, op))
  {
    hide PathOk, Call;
    var h := s.heap;
    match op
    case OpPath(op) =>
      var p := s.live.shared.path;
      CallKeepsOk(p, h, op, p);
      CallIsNewer(p, h, op);
      forall i | 0 <= i < |s.stack| ensures SharedOk(s.stack[i].shared, Call(p, h, op).1) {
        CallKeepsOk(p, h, op, s.stack[i].shared.path);
      }
    case OpJustify(shares) =>
      var m := Justify(s, shares).heap;
      OtherArrays(s.live.shared.path, h, m);
      forall i | 0 <= i < |s.stack| ensures SharedOk(s.stack[i].shared, m) {
        OtherArrays(s.stack[i].shared.path, h, m);
      }
    case OpRealize(index) =>
      var m := Realize(s, index).heap;
      OtherArrays(s.live.shared.path, h, m);
      forall i | 0 <= i < |s.stack| ensures SharedOk(s.stack[i].shared, m) {
        OtherArrays(s.stack[i].shared.path, h, m);
      }
    case _ =>
  }

  lemma OtherArrays(p: Path, h: Heap, m: Heap)
    requires PathOk(p, h) && m.types == h.types && m.points == h.points && m.next >= h.next
    ensures PathOk(p, m)
  {
  }

  lemma CallIsNewer(p: Path, h: Heap, op: PathOp)
    ensures Call(p, h, op).1.next >= h.next
  {
  }

  /** What is justified or realized is what the live context then points to. */
  lemma NewArraysHold<A>(s: State<A>, values: seq<int>)
    requires Sound(s)
    ensures var r := Justify(s, Data(values));
            var a := r.live.shared.space;
            && a in r.heap.spaces && r.heap.spaces[a] == values && a !in s.heap.spaces
            && r.live == s.live.(shared := s.live.shared.(space := a)) && r.stack == s.stack
    ensures var r := Justify(s, Null); r.live.shared == s.live.shared.(space := 0) && r.stack == s.stack
    ensures var r := Realize(s, values);
            var a := r.live.shared.palette;
            && a in r.heap.palettes && r.heap.palettes[a] == values && a !in s.heap.palettes
            && r.live == s.live.(shared := s.live.shared.(palette := a)) && r.stack == s.stack
  {
    hide PathOk;
  }

  // ---------------------------------------------------------------- while live and copies share

  /** The operation frees or moves the array that the live context points to. */
  predicate Frees<A>(s: State<A>, op: Op<A>, w: Which) {
    match w
    case Spaces => op.OpJustify?
    case Palettes => op.OpRealize?
    case _ => op.OpPath? && Releases(s.live.shared.path, s.heap, op.op)
  }

  /** The operation frees, moves or overwrites it. */
  predicate Touches<A>(s: State<A>, op: Op<A>, w: Which) {
    Frees(s, op, w) || ((w.PathTypes? || w.PathPoints?) && op.OpPath? && Overwrites(s.live.shared.path, s.heap, op.op))
  }

  /** One of the operations frees or moves it when its turn comes. */
  predicate Freed<A>(s: State<A>, ops: seq<Op<A>>, w: Which)
    decreases |ops|
  {
    ops != [] && (Frees(s, ops[0], w) || Freed(Step(s, ops[0]), ops[1..], w))
  }

  predicate Touched<A>(s: State<A>, ops: seq<Op<A>>, w: Which)
    decreases |ops|
  {
    ops != [] && (Touches(s, ops[0], w) || Touched(Step(s, ops[0]), ops[1..], w))
  }

  /** Live context and copies above depth share array a. */
  ghost predicate Shares<A>(s: State<A>, depth: nat, w: Which, a: Handle) {
    && |s.stack| >= depth
    && Address(s.live.shared, w) == a
    && (forall i | 0 <= i < |s.stack| - depth :: Address(s.stack[i].shared, w) == a)
  }

  /** While the array is neither freed nor moved, it goes on being shared. */
  lemma KeptStep<A>(s: State<A>, op: Op<A>, depth: nat, w: Which, a: Handle)
    requires Sound(s) && Shares(s, depth, w, a) && a in Allocated(s.heap, w)
    requires !Frees(s, op, w) && |Step(s, op).stack| >= depth
    ensures Shares(Step(s, op), depth, w, a) && a in Allocated(Step(s, op).heap, w)
    ensures !Touches(s, op, w) ==> Intact(s.heap, Step(s, op).heap, w, a)
  {
    hide Releases, Overwrites, Call;
    if op.OpPath? {
      var p := s.live.shared.path;
      CallTakes(p, s.heap, op.op);
      CallKeepsOk(p, s.heap, op.op, p);
      if w.PathTypes? || w.PathPoints? {
        KeptCall(p, s.heap, op.op);
      }
    }
  }

  /** A call that does not free or move the arrays leaves the pointers alone; BeginPath clears them,
      but then there are none. */
  lemma KeptCall(p: Path, h: Heap, op: PathOp)
    requires PathOk(p, h) && !Releases(p, h, op)
    ensures Call(p, h, op).0.types == p.types && Call(p, h, op).0.points == p.points
  {
  }

  lemma StaysAboveNow<A>(s: State<A>, ops: seq<Op<A>>, depth: nat)
    requires StaysAbove(s, ops, depth)
    ensures |s.stack| >= depth
  {
  }

  lemma {:induction false} SharedUntilFreed<A>(s: State<A>, ops: seq<Op<A>>, depth: nat, w: Which, a: Handle)
    requires Sound(s) && StaysAbove(s, ops, depth) && Shares(s, depth, w, a) && a in Allocated(s.heap, w)
    requires !Freed(s, ops, w)
    ensures a in Allocated(Run(s, ops).heap, w)
    ensures !Touched(s, ops, w) ==> Intact(s.heap, Run(s, ops).heap, w, a)
    decreases |ops|
  {
    if ops != [] {
      hide Sound, Shares, Step, Frees, Touches;
      StepKeepsSound(s, ops[0]);
      StaysAboveNow(Step(s, ops[0]), ops[1..], depth);
      KeptStep(s, ops[0], depth, w, a);
      SharedUntilFreed(Step(s, ops[0]), ops[1..], depth, w, a);
    }
  }

  // ---------------------------------------------------------------- once it is freed or changed

  /** Array a of h is freed in m, or its entries have been changed past changing back. */
  ghost predicate Spoiled(h: Heap, m: Heap, w: Which, a: Handle)
    requires a in Allocated(h, w)
  {
    a !in Allocated(m, w) || (w.PathTypes? && Advanced(h.types[a], m.types[a]))
  }

  lemma StepIsNewer<A>(s: State<A>, op: Op<A>)
    ensures Step(s, op).heap.next >= s.heap.next
  {
    hide Call;
    if op.OpPath? {
      CallIsNewer(s.live.shared.path, s.heap, op.op);
    }
  }

  /** What is freed stays freed, and what is spoiled stays spoiled. */
  lemma SpoiledStays<A>(h: Heap, s: State<A>, op: Op<A>, w: Which, a: Handle)
    requires Sound(s) && a < s.heap.next
    ensures a !in Allocated(s.heap, w) ==> a !in Allocated(Step(s, op).heap, w)
    ensures a in Allocated(h, w) && Spoiled(h, s.heap, w, a) ==> Spoiled(h, Step(s, op).heap, w, a)
  {
    hide Call, Advanced, Releases, Overwrites, PathOk;
    if op.OpPath? {
      var p := s.live.shared.path;
      CallTakes(p, s.heap, op.op);
      CallKeepsOk(p, s.heap, op.op, p);
      if Overwrites(p, s.heap, op.op) {
        OverwriteAdvances(p, s.heap, op.op);
      }
      var m := Call(p, s.heap, op.op).1;
      if w.PathTypes? && a in h.types && a in m.types && m.types[a] != s.heap.types[a] && Spoiled(h, s.heap, w, a) {
        AdvancedIsTransitive(h.types[a], s.heap.types[a], m.types[a]);
      }
    }
  }

  lemma {:induction false} SpoiledForGood<A>(h: Heap, s: State<A>, ops: seq<Op<A>>, w: Which, a: Handle)
    requires Sound(s) && a < s.heap.next
    ensures a !in Allocated(s.heap, w) ==> a !in Allocated(Run(s, ops).heap, w)
    ensures a in Allocated(h, w) && Spoiled(h, s.heap, w, a) ==> Spoiled(h, Run(s, ops).heap, w, a)
    decreases |ops|
  {
    if ops != [] {
      hide Sound, Step, Spoiled;
      StepKeepsSound(s, ops[0]);
      StepIsNewer(s, ops[0]);
      SpoiledStays(h, s, ops[0], w, a);
      SpoiledForGood(h, Step(s, ops[0]), ops[1..], w, a);
    }
  }

  /** A touch frees the array or spoils it; of the points alone only freeing is certain. */
  lemma TouchSpoils<A>(s: State<A>, op: Op<A>, w: Which)
    requires Sound(s) && Address(s.live.shared, w) in Allocated(s.heap, w) && Touches(s, op, w)
    ensures Frees(s, op, w) ==> Address(s.live.shared, w) !in Allocated(Step(s, op).heap, w)
    ensures !w.PathPoints? ==> Spoiled(s.heap, Step(s, op).heap, w, Address(s.live.shared, w))
  {
    hide Call, Advanced, Releases, Overwrites, PathOk;
    if op.OpPath? {
      CallTakes(s.live.shared.path, s.heap, op.op);
      if Overwrites(s.live.shared.path, s.heap, op.op) {
        OverwriteAdvances(s.live.shared.path, s.heap, op.op);
      }
    }
  }

  lemma {:induction false} FreedOnceFreed<A>(s: State<A>, ops: seq<Op<A>>, depth: nat, w: Which, a: Handle)
    requires Sound(s) && StaysAbove(s, ops, depth) && Shares(s, depth, w, a) && a in Allocated(s.heap, w)
    requires Freed(s, ops, w)
    ensures a !in Allocated(Run(s, ops).heap, w)
    decreases |ops|
  {
    hide Step, Frees, Spoiled;
    var t := Step(s, ops[0]);
    StepKeepsSound(s, ops[0]);
    StaysAboveNow(t, ops[1..], depth);
    if Frees(s, ops[0], w) {
      TouchSpoils(s, ops[0], w);
      StepIsNewer(s, ops[0]);
      SpoiledForGood(s.heap, t, ops[1..], w, a);
    } else {
      KeptStep(s, ops[0], depth, w, a);
      FreedOnceFreed(t, ops[1..], depth, w, a);
    }
  }

  lemma {:induction false} SpoiledOnceTouched<A>(s: State<A>, ops: seq<Op<A>>, depth: nat, w: Which, a: Handle)
    requires Sound(s) && StaysAbove(s, ops, depth) && Shares(s, depth, w, a) && a in Allocated(s.heap, w)
    requires Touched(s, ops, w) && !w.PathPoints?
    ensures Spoiled(s.heap, Run(s, ops).heap, w, a)
    decreases |ops|
  {
    hide Step, Frees, Touches, Spoiled;
    var t := Step(s, ops[0]);
    StepKeepsSound(s, ops[0]);
    StaysAboveNow(t, ops[1..], depth);
    if Touches(s, ops[0], w) {
      TouchSpoils(s, ops[0], w);
      StepIsNewer(s, ops[0]);
      SpoiledForGood(s.heap, t, ops[1..], w, a);
    } else {
      FreesTouches(s, ops[0], w);
      KeptStep(s, ops[0], depth, w, a);
      SpoiledOnceTouched(t, ops[1..], depth, w, a);
      SameArray(s.heap, t.heap, Run(t, ops[1..]).heap, w, a);
    }
  }

  lemma FreesTouches<A>(s: State<A>, op: Op<A>, w: Which)
    ensures Frees(s, op, w) ==> Touches(s, op, w)
  {
  }

  lemma SameArray(h: Heap, k: Heap, m: Heap, w: Which, a: Handle)
    requires a in Allocated(h, w) && Intact(h, k, w, a) && Spoiled(k, m, w, a)
    ensures Spoiled(h, m, w, a)
  {
  }

  // ---------------------------------------------------------------- what is given back

  lemma SharedOnceSaved<A>(s: State<A>, w: Which)
    requires Sound(s)
    ensures var saved := Save(s).0; Sound(saved) && Shares(saved, |s.stack| + 1, w, Address(s.live.shared, w))
  {
  }

  /** RestoreDC gives back a pointer to an array that is still allocated if and only if nothing came
      in between that freed or moved the array then in use. */
  lemma PointerIsGoodIff<A>(s: State<A>, ops: seq<Op<A>>, w: Which)
    requires Sound(s) && Address(s.live.shared, w) in Allocated(s.heap, w)
    requires StaysAbove(Save(s).0, ops, |s.stack| + 1)
    ensures var (saved, id) := Save(s);
            var r := Restore(Run(saved, ops), id).0;
            var a := Address(s.live.shared, w);
            Address(r.live.shared, w) == a && (a in Allocated(r.heap, w) <==> !Freed(saved, ops, w))
  {
    var (saved, id) := Save(s);
    var a := Address(s.live.shared, w);
    RestoreUndoesAll(s, ops);
    SharedOnceSaved(s, w);
    if Freed(saved, ops, w) {
      FreedOnceFreed(saved, ops, id, w, a);
    } else {
      SharedUntilFreed(saved, ops, id, w, a);
    }
  }

  /** And the array has the contents it was saved with if and only if nothing came in between that
      freed, moved or overwrote it. */
  lemma ContentsAreGoodIff<A>(s: State<A>, ops: seq<Op<A>>, w: Which)
    requires Sound(s) && Address(s.live.shared, w) in Allocated(s.heap, w) && !w.PathPoints?
    requires StaysAbove(Save(s).0, ops, |s.stack| + 1)
    ensures var (saved, id) := Save(s);
            var r := Restore(Run(saved, ops), id).0;
            Intact(s.heap, r.heap, w, Address(s.live.shared, w)) <==> !Touched(saved, ops, w)
  {
    var (saved, id) := Save(s);
    var a := Address(s.live.shared, w);
    SharedOnceSaved(s, w);
    if Touched(saved, ops, w) {
      SpoiledOnceTouched(saved, ops, id, w, a);
    } else {
      UntouchedIsUnfreed(saved, ops, w);
      SharedUntilFreed(saved, ops, id, w, a);
    }
  }

  lemma {:induction false} UntouchedIsUnfreed<A>(s: State<A>, ops: seq<Op<A>>, w: Which)
    requires !Touched(s, ops, w)
    ensures !Freed(s, ops, w)
    decreases |ops|
  {
    if ops != [] {
      FreesTouches(s, ops[0], w);
      UntouchedIsUnfreed(Step(s, ops[0]), ops[1..], w);
    }
  }

  /** The path is given back, types and points, if and only if no call in between freed, moved or
      overwrote its arrays. */
  lemma PathIsGoodIff<A>(s: State<A>, ops: seq<Op<A>>)
    requires Sound(s) && s.live.shared.path.types in s.heap.types && s.live.shared.path.points in s.heap.points
    requires StaysAbove(Save(s).0, ops, |s.stack| + 1)
    ensures var (saved, id) := Save(s);
            var r := Restore(Run(saved, ops), id).0;
            var p := s.live.shared.path;
            && r.live.shared.path == p
            && ((p.types in r.heap.types && p.points in r.heap.points
                 && Types(p, r.heap) == Types(p, s.heap) && Points(p, r.heap) == Points(p, s.heap))
                <==> !Touched(saved, ops, PathTypes))
  {
    var (saved, id) := Save(s);
    var p := s.live.shared.path;
    RestoreUndoesAll(s, ops);
    ContentsAreGoodIff(s, ops, PathTypes);
    if !Touched(saved, ops, PathTypes) {
      TouchedAlike(saved, ops);
      UntouchedIsUnfreed(saved, ops, PathPoints);
      SharedOnceSaved(s, PathPoints);
      SharedUntilFreed(saved, ops, id, PathPoints, p.points);
    }
  }

  lemma {:induction false} TouchedAlike<A>(s: State<A>, ops: seq<Op<A>>)
    ensures Touched(s, ops, PathTypes) <==> Touched(s, ops, PathPoints)
    decreases |ops|
  {
    if ops != [] {
      TouchedAlike(Step(s, ops[0]), ops[1..]);
    }
  }

  // ---------------------------------------------------------------- nothing freed twice

  /** A null pointer, or one to an allocated array. */
  predicate BackedAt(p: Shared, h: Heap, w: Which) {
    Address(p, w) == 0 || Address(p, w) in Allocated(h, w)
  }

  /** All pointers are, those of the copies too. */
  ghost predicate Backed<A>(s: State<A>) {
    && (forall w: Which :: BackedAt(s.live.shared, s.heap, w))
    && (forall w: Which, i | 0 <= i < |s.stack| :: BackedAt(s.stack[i].shared, s.heap, w))
  }

  /** Copy i points to the array that the operation frees or moves. */
  predicate FreesOf<A>(s: State<A>, op: Op<A>, w: Which, i: nat)
    requires i < |s.stack|
  {
    Frees(s, op, w) && Address(s.live.shared, w) != 0 && Address(s.stack[i].shared, w) == Address(s.live.shared, w)
  }

  ghost predicate FreesShared<A>(s: State<A>, op: Op<A>) {
    exists w: Which, i | 0 <= i < |s.stack| :: FreesOf(s, op, w, i)
  }

  /** Of the arrays there were, exactly the one that is freed or moved goes. */
  lemma StepTakes<A>(s: State<A>, op: Op<A>, w: Which, a: Handle)
    requires Sound(s) && a < s.heap.next
    ensures a in Allocated(Step(s, op).heap, w) <==>
              a in Allocated(s.heap, w) && !(Frees(s, op, w) && a == Address(s.live.shared, w))
  {
    hide Releases, Overwrites, Call, PathOk;
    if op.OpPath? {
      var p := s.live.shared.path;
      CallTakes(p, s.heap, op.op);
      CallKeepsOk(p, s.heap, op.op, p);
    }
  }

  lemma LiveStaysBacked<A>(s: State<A>, op: Op<A>, w: Which)
    requires Sound(s) && Backed(s) && !op.OpRestore?
    ensures BackedAt(Step(s, op).live.shared, Step(s, op).heap, w)
  {
    hide Call, PathOk;
    assert BackedAt(s.live.shared, s.heap, w);
    if op.OpPath? {
      var p := s.live.shared.path;
      CallKeepsOk(p, s.heap, op.op, p);
      assert BackedAt(s.live.shared, s.heap, PathTypes) && BackedAt(s.live.shared, s.heap, PathPoints);
      CallIsBacked(p, s.heap, op.op);
    }
  }

  lemma AddressIsOld<A>(s: State<A>, w: Which, i: nat)
    requires Sound(s) && i < |s.stack|
    ensures Address(s.stack[i].shared, w) < s.heap.next
  {
  }

  /** All pointers stay good if and only if what is freed or moved belongs to no copy. */
  lemma BackedStepIff<A>(s: State<A>, op: Op<A>)
    requires Sound(s) && Backed(s)
    ensures Backed(Step(s, op)) <==> !FreesShared(s, op)
  {
    hide Sound, Address, Allocated;
    if op.OpRestore? || op.OpSave? {
      assert !FreesShared(s, op);
    } else {
      var t := Step(s, op);
      assert t.stack == s.stack;
      hide Step, Frees;
      forall w: Which ensures BackedAt(t.live.shared, t.heap, w) {
        LiveStaysBacked(s, op, w);
      }
      forall w: Which, i | 0 <= i < |s.stack|
        ensures BackedAt(t.stack[i].shared, t.heap, w) <==> !FreesOf(s, op, w, i)
      {
        assert BackedAt(s.stack[i].shared, s.heap, w);
        AddressIsOld(s, w, i);
        StepTakes(s, op, w, Address(s.stack[i].shared, w));
      }
    }
  }

  /** The operation frees or moves an array that has been freed already. */
  ghost predicate FreesAgain<A>(s: State<A>, op: Op<A>) {
    exists w: Which :: Frees(s, op, w) && !BackedAt(s.live.shared, s.heap, w)
  }

  /** No operation frees or moves an array of a copy. */
  ghost predicate FreesNoShared<A>(s: State<A>, ops: seq<Op<A>>)
    decreases |ops|
  {
    ops == [] || (!FreesShared(s, ops[0]) && FreesNoShared(Step(s, ops[0]), ops[1..]))
  }

  /** Then nothing is freed twice, and no pointer goes bad. */
  lemma {:induction false} RunStaysBacked<A>(s: State<A>, ops: seq<Op<A>>, op: Op<A>)
    requires Sound(s) && Backed(s) && FreesNoShared(s, ops)
    ensures var r := Run(s, ops); Sound(r) && Backed(r) && !FreesAgain(r, op)
    decreases |ops|
  {
    if ops != [] {
      hide Sound, Backed, FreesShared, FreesAgain, Step;
      StepKeepsSound(s, ops[0]);
      BackedStepIff(s, ops[0]);
      RunStaysBacked(Step(s, ops[0]), ops[1..], op);
    }
  }

  /** But once an array of a copy is freed or moved, restoring that copy is enough for the next call
      of its kind to free the array again. */
  lemma SharedIsFreedAgain<A>(s: State<A>, op: Op<A>) returns (n: int, again: Op<A>)
    requires Sound(s) && Backed(s) && FreesShared(s, op)
    ensures var (r, ok) := Restore(Step(s, op), n); ok && FreesAgain(r, again)
  {
    var w: Which, i :| 0 <= i < |s.stack| && FreesOf(s, op, w, i);
    n := -i - 1;
    again := match w case Spaces => OpJustify(Null) case Palettes => OpRealize([]) case _ => OpPath(Abort);
    var t := Step(s, op);
    assert t.stack == s.stack && t.heap == Restore(t, n).0.heap;
    AddressIsOld(s, w, i);
    StepTakes(s, op, w, Address(s.stack[i].shared, w));
    var r := Restore(t, n).0;
    assert r.live.shared == s.stack[i].shared;
    hide Step, Releases;
    if w.PathTypes? || w.PathPoints? {
      AbortReleases(s.stack[i].shared.path, s.heap, r.heap);
    }
    assert Frees(r, again, w) && !BackedAt(r.live.shared, r.heap, w);
  }

  lemma AbortReleases(p: Path, h: Heap, m: Heap)
    requires PathOk(p, h) && (p.types != 0 || p.points != 0)
    ensures Releases(p, m, Abort)
  {
  }

  // ---------------------------------------------------------------- nothing lost

  /** One of the copies from number k on points to array a. */
  ghost predicate KeptFrom<A>(s: State<A>, w: Which, a: Handle, k: nat) {
    exists i | k <= i < |s.stack| :: Address(s.stack[i].shared, w) == a
  }

  /** Every allocated array is pointed to. */
  ghost predicate AllHeld<A>(s: State<A>) {
    forall w: Which, a | a in Allocated(s.heap, w) :: Address(s.live.shared, w) == a || KeptFrom(s, w, a, 0)
  }

  /** What the live context points to, where the array is allocated, is also pointed to by a copy
      from number k on, and what the copies above k point to likewise. */
  ghost predicate KeptBelow<A>(s: State<A>, k: nat) {
    && (forall w: Which | Address(s.live.shared, w) in Allocated(s.heap, w) ::
          KeptFrom(s, w, Address(s.live.shared, w), k))
    && (forall w: Which, i | 0 <= i < k && i < |s.stack| && Address(s.stack[i].shared, w) in Allocated(s.heap, w) ::
          KeptFrom(s, w, Address(s.stack[i].shared, w), k))
  }

  /** No array is lost by any operation, except by a RestoreDC that drops the last pointer to one. */
  lemma AllHeldStepIff<A>(s: State<A>, op: Op<A>)
    requires Sound(s) && AllHeld(s)
    ensures AllHeld(Step(s, op)) <==>
              (op.OpRestore? && Target(|s.stack|, op.n) != -1 ==> KeptBelow(s, Target(|s.stack|, op.n)))
  {
    hide KeptBelow;
    match op
    case OpRestore(n) =>
      if Target(|s.stack|, n) != -1 {
        RestoreHoldsIff(s, n);
      }
    case OpSave =>
      SaveHolds(s);
    case _ =>
      StepHolds(s, op);
  }

  lemma SaveHolds<A>(s: State<A>)
    requires AllHeld(s)
    ensures AllHeld(Save(s).0)
  {
    var t := Save(s).0;
    forall w: Which, a | a in Allocated(t.heap, w) && Address(t.live.shared, w) != a ensures KeptFrom(t, w, a, 0) {
      var i :| 0 <= i < |s.stack| && Address(s.stack[i].shared, w) == a;
      assert t.stack[i + 1] == s.stack[i];
    }
  }

  lemma StepHolds<A>(s: State<A>, op: Op<A>)
    requires Sound(s) && AllHeld(s) && !op.OpSave? && !op.OpRestore?
    ensures AllHeld(Step(s, op))
  {
    hide Call, PathOk;
    var t := Step(s, op);
    if op.OpPath? {
      CallTakesOver(s.live.shared.path, s.heap, op.op);
      CallKeepsOk(s.live.shared.path, s.heap, op.op, s.live.shared.path);
    }
    forall w: Which, a | a in Allocated(t.heap, w) && Address(t.live.shared, w) != a ensures KeptFrom(t, w, a, 0) {
      assert a in Allocated(s.heap, w) && Address(s.live.shared, w) != a;
      var i :| 0 <= i < |s.stack| && Address(s.stack[i].shared, w) == a;
      assert t.stack[i] == s.stack[i];
    }
  }

  lemma RestoreHoldsIff<A>(s: State<A>, n: int)
    requires AllHeld(s) && Target(|s.stack|, n) != -1
    ensures AllHeld(Restore(s, n).0) <==> KeptBelow(s, Target(|s.stack|, n))
  {
    var k, t := Target(|s.stack|, n), Restore(s, n).0;
    assert t.live.shared == s.stack[k].shared;
    forall w: Which, a
      ensures (Address(t.live.shared, w) == a || KeptFrom(t, w, a, 0)) <==> KeptFrom(s, w, a, k)
    {
      if i :| k <= i < |s.stack| && Address(s.stack[i].shared, w) == a {
        assert i > k ==> t.stack[i - k - 1] == s.stack[i];
      }
      if i :| 0 <= i < |t.stack| && Address(t.stack[i].shared, w) == a {
        assert s.stack[i + k + 1] == t.stack[i];
      }
    }
  }

  // ---------------------------------------------------------------- deleting the context

  /** The pointers of the copy saved first, or of the live context if there is none. */
  function Bottom<A>(s: State<A>): Shared {
    if s.stack == [] then s.live.shared else s.stack[|s.stack| - 1].shared
  }

  lemma BottomIsKept<A>(s: State<A>)
    ensures Bottom(Restore(s, -1).0) == Bottom(s)
  {
  }

  /** The memory once DeleteDC has restored that copy and GdiCleanupDC, which a metafile context is
      spared, has freed what it frees: the justification array is not among that. */
  function Deleted<A>(s: State<A>, metafile: bool): Heap {
    var p := Bottom(s);
    if metafile then s.heap
    else
      s.heap.(palettes := s.heap.palettes - {p.palette},
              types := s.heap.types - {p.path.types},
              points := s.heap.points - {p.path.points})
  }

  /** Nothing stays allocated if and only if there is no justification array and no palette index or
      path but that copy's. */
  lemma DeletedLeavesNothingIff<A>(s: State<A>)
    ensures (forall w: Which :: Allocated(Deleted(s, false), w) == {}) <==>
            (forall w: Which :: Allocated(s.heap, w) <= if w.Spaces? then {} else {Address(Bottom(s), w)})
  {
    forall w: Which
      ensures Allocated(Deleted(s, false), w) ==
                Allocated(s.heap, w) - if w.Spaces? then {} else {Address(Bottom(s), w)}
    {
    }
  }

  // ---------------------------------------------------------------- inputs that fail

  /** A new context. */
  function New<A>(attrs: A): State<A> {
    State(Record(attrs, 0, Null, Null, NOTHING_SHARED), [], Heap(map[], map[], map[], map[], 1))
  }

  /** BeginPath, MoveTo, LineTo, SaveDC, CloseFigure, RestoreDC(-1): the line of the path restored
      closes its figure, which that of the path saved did not. */
  lemma ClosedInBetween<A>(attrs: A, a: Point, b: Point)
    ensures var drawn := Run(New(attrs), [OpPath(Begin), OpPath(Insert(0, [PT_MOVETO], [a])),
                                          OpPath(Insert(1, [PT_LINETO], [b]))]);
            var r := Run(drawn, [OpSave, OpPath(CloseIt), OpRestore(-1)]);
            && r.live.shared == drawn.live.shared && r.stack == []
            && Types(drawn.live.shared.path, drawn.heap) == [PT_MOVETO, PT_LINETO]
            && Types(r.live.shared.path, r.heap) == [PT_MOVETO, PT_LINETO + PT_CLOSEFIGURE]
  {
    var ops: seq<Op<A>> := [OpPath(Begin), OpPath(Insert(0, [PT_MOVETO], [a])),
                            OpPath(Insert(1, [PT_LINETO], [b]))];
    RunThree(New(attrs), ops);
    var drawn := Run(New(attrs), ops);
    assert Types(drawn.live.shared.path, drawn.heap) == [PT_MOVETO, PT_LINETO];
    RunThree(drawn, [OpSave, OpPath(CloseIt), OpRestore(-1)]);
  }

  lemma RunThree<A>(s: State<A>, ops: seq<Op<A>>)
    requires |ops| == 3
    ensures Run(s, ops) == Step(Step(Step(s, ops[0]), ops[1]), ops[2])
  {
    hide Step;
    var t := Step(s, ops[0]);
    var u := Step(t, ops[1]);
    var v := Step(u, ops[2]);
    assert ops[1..][1..] == [ops[2]] && ops[1..][1..][1..] == [];
    assert Run(v, []) == v;
    assert Run(u, [ops[2]]) == v;
    assert Run(t, ops[1..]) == v;
  }

  /** One SetTextJustification between saving and restoring: the context restored points to an array
      that has been freed. */
  lemma JustifiedInBetween<A>(attrs: A, shares: Buffer)
    ensures var s := Justify(New(attrs), Data([1, 1]));
            var r := Run(s, [OpSave, OpJustify(shares), OpRestore(-1)]);
            r.live.shared.space == 1 && 1 in s.heap.spaces && 1 !in r.heap.spaces
  {
    RunThree(Justify(New(attrs), Data([1, 1])), [OpSave, OpJustify(shares), OpRestore(-1)]);
  }

  /** A SetTextJustification after saving and nothing before: restoring drops the only pointer to the
      array. */
  lemma LostByRestoring<A>(attrs: A)
    ensures var r := Run(New(attrs), [OpSave, OpJustify(Data([1, 1])), OpRestore(-1)]);
            1 in r.heap.spaces && r.live.shared == NOTHING_SHARED && r.stack == [] && !AllHeld(r)
  {
    RunThree(New(attrs), [OpSave, OpJustify(Data([1, 1])), OpRestore(-1)]);
    var r := Run(New(attrs), [OpSave, OpJustify(Data([1, 1])), OpRestore(-1)]);
    assert 1 in Allocated(r.heap, Spaces) && Address(r.live.shared, Spaces) == 0 && !KeptFrom(r, Spaces, 1, 0);
  }

  /** A justified context leaves its array behind when it is deleted. */
  lemma LeftByDeleting<A>(attrs: A)
    ensures 1 in Deleted(Justify(New(attrs), Data([1, 1])), false).spaces
  {
  }

  /** One RealizePalette likewise. */
  lemma RealizedInBetween<A>(attrs: A, index: seq<int>)
    ensures var s := Realize(New(attrs), [0, 1]);
            var r := Run(s, [OpSave, OpRealize(index), OpRestore(-1)]);
            r.live.shared.palette == 1 && 1 in s.heap.palettes && 1 !in r.heap.palettes
  {
    RunThree(Realize(New(attrs), [0, 1]), [OpSave, OpRealize(index), OpRestore(-1)]);
  }
}
