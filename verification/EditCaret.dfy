/**
 Placing the caret against a fragment table: FindLine and SetEditPosition
 (controls/EditDraw.c) and the arrow keys that repeat them (controls/EditKey.c).
 */
module EditCaret {
  import opened EditLines

  /** The loop of FindLine resumed at entry i. */
  function FindFrom(fs: seq<Fragment>, idx: int, i: nat): (r: int)
    requires i <= |fs|
    decreases |fs| - i
  {
    if i < |fs| && fs[i].nOffset <= idx then FindFrom(fs, idx, i + 1) else i - 1
  }

  function FindLine(fs: seq<Fragment>, idx: int): int { FindFrom(fs, idx, 0) }

  /** On a table of a text of length n, FindLine gives the last fragment that starts at or
      before idx. */
  lemma {:induction false} FindFromIsLast(fs: seq<Fragment>, n: nat, idx: int, i: nat)
    requires TableFrom(fs, n, 0) && 0 <= idx
    requires i <= |fs| && (forall j | 0 <= j < i :: fs[j].nOffset <= idx)
    ensures 0 <= FindFrom(fs, idx, i) < |fs|
    ensures fs[FindFrom(fs, idx, i)].nOffset <= idx
    ensures forall j | FindFrom(fs, idx, i) < j < |fs| :: idx < fs[j].nOffset
    decreases |fs| - i
  {
    if i < |fs| && fs[i].nOffset <= idx {
      FindFromIsLast(fs, n, idx, i + 1);
    } else {
      forall j | i <= j < |fs| ensures idx < fs[j].nOffset {
        if i < j {
          OffsetsRise(fs, n, 0, i, j);
        }
      }
    }
  }

  /** ... and only that fragment. */
  lemma FindLineIs(fs: seq<Fragment>, n: nat, idx: int, k: nat)
    requires TableFrom(fs, n, 0) && 0 <= idx
    requires k < |fs| && fs[k].nOffset <= idx && (k + 1 < |fs| ==> idx < fs[k + 1].nOffset)
    ensures FindLine(fs, idx) == k
  {
    var r := FindLine(fs, idx);
    FindFromIsLast(fs, n, idx, 0);
    if k + 1 < r {
      OffsetsRise(fs, n, 0, k + 1, r);
    }
  }

  datatype Caret = Caret(idx: int, line: int)

  function Clamp(n: nat, position: int): nat {
    if position < 0 then 0 else if position > n then n else position
  }

  /** The preference that SetEditPosition acts on, given the line the caret came from. */
  function Resolve(pref: Prefer, line: int, oldLine: int): Prefer {
    match pref
    case Here => if line < oldLine then Next else Prev
    case Other => if line < oldLine then Prev else Next
    case _ => pref
  }

  /** Position p of line k lies behind the characters of a non-empty fragment: between the
      CR and the LF of its terminator. */
  predicate Astray(f: Fragment, p: int) {
    f.nLength != 0 && p - f.nOffset > f.nLength
  }

  /** SetEditPosition. */
  function Place(fs: seq<Fragment>, n: nat, position: int, pref: Prefer, oldLine: int): (c: Caret)
    requires TableFrom(fs, n, 0)
  {
    var p := Clamp(n, position);
    var k := FindLine(fs, p);
    FindFromIsLast(fs, n, p, 0);
    if Astray(fs[k], p) then
      if Resolve(pref, k, oldLine) == Next then
        assert k + 1 < |fs|;
        Caret(fs[k + 1].nOffset, k + 1)
      else Caret(fs[k].End(), k)
    else Caret(p, k)
  }

  /** The parts of SetEditPosition put together. */
  lemma PlaceParts(fs: seq<Fragment>, n: nat, position: int, pref: Prefer, oldLine: int, k: nat, how: Prefer)
    requires TableFrom(fs, n, 0)
    requires k == FindLine(fs, Clamp(n, position)) && how == Resolve(pref, k, oldLine)
    ensures k < |fs|
    ensures Astray(fs[k], Clamp(n, position)) ==> k + 1 < |fs|
    ensures Place(fs, n, position, pref, oldLine) ==
              if !Astray(fs[k], Clamp(n, position)) then Caret(Clamp(n, position), k)
              else if how == Next then Caret(fs[k + 1].nOffset, k + 1)
              else Caret(fs[k].End(), k)
  {
    FindFromIsLast(fs, n, Clamp(n, position), 0);
  }

  /** What SetEditPosition leaves behind: the caret is inside the text, its line is the one
      FindLine gives, it is not past the end of a non-empty line, and it is at most one place
      from the clamped request; it is exactly there unless that lies between a CR and its LF. */
  lemma PlaceIsSound(fs: seq<Fragment>, n: nat, position: int, pref: Prefer, oldLine: int)
    requires TableFrom(fs, n, 0)
    ensures var c := Place(fs, n, position, pref, oldLine);
            && 0 <= c.idx <= n
            && 0 <= c.line < |fs|
            && c.line == FindLine(fs, c.idx)
            && !Astray(fs[c.line], c.idx)
            && -1 <= c.idx - Clamp(n, position) <= 1
    ensures var p := Clamp(n, position);
            var c := Place(fs, n, position, pref, oldLine);
            && 0 <= FindLine(fs, p) < |fs|
            && (c.idx == p <==> !Astray(fs[FindLine(fs, p)], p))
            && (c.idx < p ==> Resolve(pref, FindLine(fs, p), oldLine) != Next)
            && (c.idx > p ==> Resolve(pref, FindLine(fs, p), oldLine) == Next)
  {
    var p := Clamp(n, position);
    var k := FindLine(fs, p);
    var c := Place(fs, n, position, pref, oldLine);
    FindFromIsLast(fs, n, p, 0);
    if Astray(fs[k], p) {
      assert fs[k].End() < p < fs[k + 1].nOffset <= fs[k].End() + 2;
      if c.line == k + 1 && k + 2 < |fs| {
        assert fs[k + 1].End() < fs[k + 2].nOffset;
      }
      FindLineIs(fs, n, c.idx, c.line);
    }
  }

  /** Which side a caret between CR and LF is moved to: with preference next to the start of the next
      line; with here if it came from further down, so that it goes on upwards; with other if it did
      not; and otherwise to the end of the line. */
  lemma PreferenceMeans(fs: seq<Fragment>, n: nat, position: int, pref: Prefer, oldLine: int)
    requires TableFrom(fs, n, 0)
    ensures var p := Clamp(n, position);
            var c := Place(fs, n, position, pref, oldLine);
            c.idx != p ==>
              c.idx == if pref == Next || (pref == Here && FindLine(fs, p) < oldLine)
                          || (pref == Other && FindLine(fs, p) >= oldLine) then p + 1 else p - 1
  {
    var p := Clamp(n, position);
    var k := FindLine(fs, p);
    FindFromIsLast(fs, n, p, 0);
    if Astray(fs[k], p) {
      assert k + 1 < |fs|;
      assert fs[k].End() < p < fs[k + 1].nOffset <= fs[k].End() + 2;
    }
  }

  /** Each entry of the table is BuildAFragment of its offset, and the next one starts where
      that left off; only the last may be where the cutting got stuck. */
  lemma {:induction false} SplitStep(style: Style, t: seq<char>, off: nat, i: nat)
    requires off <= |t| && i < |Split(style, t, off)|
    ensures var fs := Split(style, t, off);
            && 0 <= fs[i].nOffset <= |t|
            && (Advances(style, t, fs[i].nOffset) ==> fs[i].nLength == Build(style, t, fs[i].nOffset).1)
            && (i + 1 < |fs| ==>
                  Advances(style, t, fs[i].nOffset) && fs[i + 1].nOffset == Build(style, t, fs[i].nOffset).0)
    decreases i
  {
    hide Scan;
    if Advances(style, t, off) {
      var r := Build(style, t, off);
      var fs, rest := Split(style, t, off), Split(style, t, r.0);
      assert fs == [Fragment(r.1, off)] + rest;
      if i > 0 {
        SplitStep(style, t, r.0, i - 1);
      } else if |fs| > 1 {
        assert fs[1] == rest[0];
      }
    }
  }

  /** A place that SetEditPosition declines lies between a CR and its LF, on a line with other
      characters before them; with wrapping off it declines every such place. */
  lemma AstrayIsInsideCrLf(style: Style, t: seq<char>, fs: seq<Fragment>, p: nat)
    requires p <= |t| && fs == Split(style, t, 0)
    ensures TableFrom(fs, |t|, 0) && 0 <= FindLine(fs, p) < |fs|
    ensures var f := fs[FindLine(fs, p)];
            && (Astray(f, p) ==> CrLfAt(t, p - 1) && f.nOffset < p - 1)
            && (!style.Wraps() && CrLfAt(t, p - 1) && f.nOffset < p - 1 ==> Astray(f, p))
  {
    hide Split, Build, FindFrom, Advances;
    SplitIsTable(style, t, 0);
    FindFromIsLast(fs, |t|, p, 0);
    var k := FindLine(fs, p);
    SplitStep(style, t, 0, k);
    if !style.Wraps() {
      EndsUnwrapped(style, t, fs[k].nOffset);
    }
    if Advances(style, t, fs[k].nOffset) {
      EntryFacts(style, t, fs[k]);
    }
    if k + 1 < |fs| {
      assert fs[k].End() < fs[k + 1].nOffset <= fs[k].End() + 2;
    }
  }

  lemma EntryFacts(style: Style, t: seq<char>, f: Fragment)
    requires 0 <= f.nOffset <= |t|
    requires f.nLength == Build(style, t, f.nOffset).1
    ensures Build(style, t, f.nOffset).0 == f.End() + 2 ==> CrLfAt(t, f.End())
    ensures !style.Wraps() ==> Plain(t, f.nOffset, f.End())
  {
    if !style.Wraps() {
      ScanStops(style, t, f.nOffset, f.nOffset);
    }
  }

  // ---------------------------------------------------------------- arrow keys

  /** A place the caret can be left at. */
  predicate Settled(fs: seq<Fragment>, n: nat, idx: int)
    requires TableFrom(fs, n, 0)
  {
    0 <= idx <= n && (FindFromIsLast(fs, n, idx, 0); !Astray(fs[FindLine(fs, idx)], idx))
  }

  /** HandleRight without Ctrl: the index of the caret after the key. */
  function Right(fs: seq<Fragment>, n: nat, idx: int): int
    requires TableFrom(fs, n, 0)
  {
    if idx == n then idx else Place(fs, n, idx + 1, Next, 0).idx
  }

  /** HandleLeft without Ctrl. */
  function Left(fs: seq<Fragment>, n: nat, idx: int): int
    requires TableFrom(fs, n, 0)
  {
    if idx == 0 then idx else Place(fs, n, idx - 1, Prev, 0).idx
  }

  lemma ArrowsProgress(fs: seq<Fragment>, n: nat, idx: int)
    requires TableFrom(fs, n, 0) && 0 <= idx <= n
    ensures Settled(fs, n, idx) ==> Settled(fs, n, Right(fs, n, idx)) && Settled(fs, n, Left(fs, n, idx))
    ensures idx < n ==> idx < Right(fs, n, idx) <= n
    ensures 0 < idx ==> 0 <= Left(fs, n, idx) < idx
  {
    PlaceIsSound(fs, n, idx + 1, Next, 0);
    PlaceIsSound(fs, n, idx - 1, Prev, 0);
  }

  lemma PlaceAtTwoSides(fs: seq<Fragment>, n: nat, p: int)
    requires TableFrom(fs, n, 0) && 0 <= p <= n
    ensures var nx, pv := Place(fs, n, p, Next, 0).idx, Place(fs, n, p, Prev, 0).idx;
            if Settled(fs, n, p) then nx == p && pv == p else nx == p + 1 && pv == p - 1
  {
    PlaceIsSound(fs, n, p, Next, 0);
    PlaceIsSound(fs, n, p, Prev, 0);
  }

  /** From a settled place, Left undoes Right and Right undoes Left. */
  lemma ArrowsInvert(fs: seq<Fragment>, n: nat, idx: int)
    requires TableFrom(fs, n, 0) && Settled(fs, n, idx)
    ensures idx < n ==> Left(fs, n, Right(fs, n, idx)) == idx
    ensures 0 < idx ==> Right(fs, n, Left(fs, n, idx)) == idx
  {
    PlaceAtTwoSides(fs, n, idx);
    if idx < n {
      PlaceAtTwoSides(fs, n, idx + 1);
    }
    if 0 < idx {
      PlaceAtTwoSides(fs, n, idx - 1);
    }
  }

  function RightTimes(fs: seq<Fragment>, n: nat, idx: int, times: nat): int
    requires TableFrom(fs, n, 0)
    decreases times
  {
    if times == 0 then idx else RightTimes(fs, n, Right(fs, n, idx), times - 1)
  }

  function LeftTimes(fs: seq<Fragment>, n: nat, idx: int, times: nat): int
    requires TableFrom(fs, n, 0)
    decreases times
  {
    if times == 0 then idx else LeftTimes(fs, n, Left(fs, n, idx), times - 1)
  }

  /** Pressing Right often enough reaches the end of the text and stays there. */
  lemma {:induction false} RightReachesEnd(fs: seq<Fragment>, n: nat, idx: int, times: nat)
    requires TableFrom(fs, n, 0) && 0 <= idx <= n
    ensures idx <= RightTimes(fs, n, idx, times) <= n
    ensures times >= n - idx ==> RightTimes(fs, n, idx, times) == n
    decreases times
  {
    if times > 0 {
      ArrowsProgress(fs, n, idx);
      RightReachesEnd(fs, n, Right(fs, n, idx), times - 1);
    }
  }

  /** Pressing Left often enough reaches the start of the text and stays there. */
  lemma {:induction false} LeftReachesStart(fs: seq<Fragment>, n: nat, idx: int, times: nat)
    requires TableFrom(fs, n, 0) && 0 <= idx <= n
    ensures 0 <= LeftTimes(fs, n, idx, times) <= idx
    ensures times >= idx ==> LeftTimes(fs, n, idx, times) == 0
    decreases times
  {
    if times > 0 {
      ArrowsProgress(fs, n, idx);
      LeftReachesStart(fs, n, Left(fs, n, idx), times - 1);
    }
  }
}
