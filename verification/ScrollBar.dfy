/**
 MulDiv (graphics/GdiMath.c) and the thumb tracking of the scroll bar (controls/Scroll.c).

 MulDiv divides with C's truncation towards zero and halves its divisor with an arithmetic
 shift; the scroll bar keeps its positions in 16-bit words.
 */
module ScrollBar {
  import opened Arithmetic

  const WORDS: int := 0x10000
  const INT_MAX: int := 0x7fff_ffff

  /** d >> 1: rounded down, also for a negative d. */
  function Half(d: int): int { d / 2 }

  /** MulDiv once the product is known. */
  function Quotient(lMulti: int, d: int): int {
    var biased := if lMulti < 0 then lMulti - Half(d) else lMulti + Half(d);
    TruncDiv(biased, if d == 0 then 1 else d)
  }

  function MulDiv(a: int, b: int, d: int): int { Quotient(a * b, d) }

  /** r is x/d rounded to a nearest integer. */
  predicate Rounds(r: int, x: int, d: int) { 2 * Abs(r * d - x) <= Abs(d) }

  // ---------------------------------------------------------------- MulDiv rounds

  /** With a positive divisor the result is the product divided and rounded to nearest. */
  lemma MulDivRounds(a: int, b: int, d: int)
    requires d > 0
    ensures Rounds(MulDiv(a, b, d), a * b, d)
  {
    QuotientRounds(a * b, d);
  }

  lemma QuotientRounds(x: int, d: int)
    requires d > 0
    ensures Rounds(Quotient(x, d), x, d)
  {
    var n := Abs(x) + d / 2;
    var q := n / d;
    DivFacts(n, d);
    assert (-q) * d == -(q * d);
  }

  /** The rounded quotient is unique unless two are equally near. */
  lemma RoundsUnique(r: int, s: int, x: int, d: int)
    requires d > 0 && Rounds(r, x, d) && 2 * Abs(s * d - x) < d
    ensures r == s
  {
    assert (s + 1) * d == s * d + d && (r + 1) * d == r * d + d;
    MulMono(d, s + 1, r);
    MulMono(d, r + 1, s);
  }

  lemma NegativeQuotient(x: int, d: int)
    requires d < 0 && Abs(x) >= -Half(d)
    ensures var k := (Abs(x) + Half(d)) / -d; Quotient(x, d) == if x < 0 then k else -k
  {
  }

  /** With a negative divisor, the distance of MulDiv's result from the exact quotient, times
      the divisor: the bias moves the quotient towards zero instead of to nearest. */
  lemma NegativeError(x: int, d: int)
    requires d < 0
    ensures var m, c := -d, -Half(d);
            Abs(Quotient(x, d) * d - x) ==
              if Abs(x) < c then (if m == 1 then 1 else Abs(x)) else Abs(x) - ((Abs(x) - c) / m) * m
  {
    hide Quotient;
    if Abs(x) < -Half(d) {
      SmallNegative(x, d);
    } else {
      LargeNegative(x, d);
    }
  }

  lemma SmallNegative(x: int, d: int)
    requires d < 0 && Abs(x) < -Half(d)
    ensures Abs(Quotient(x, d) * d - x) == if d == -1 then 1 else Abs(x)
  {
    var m, c, n := -d, -Half(d), Abs(x);
    if m > 1 {
      assert 0 < c - n < m;
      DivIs(c - n, m, 0, c - n);
      assert Quotient(x, d) == 0;
    } else {
      assert n == 0 && Quotient(x, d) == 1;
    }
  }

  lemma LargeNegative(x: int, d: int)
    requires d < 0 && Abs(x) >= -Half(d)
    ensures var m, c := -d, -Half(d); Abs(Quotient(x, d) * d - x) == Abs(x) - ((Abs(x) - c) / m) * m
  {
    var m, c := -d, -Half(d);
    var k, q := (Abs(x) - c) / m, Quotient(x, d);
    NegativeQuotient(x, d);
    hide Quotient;
    DivFacts(Abs(x) - c, m);
    ProductSigns(k, m);
    assert q * d == if x < 0 then -(k * m) else k * m;
  }

  lemma ProductSigns(k: int, m: int)
    ensures k * -m == -(k * m) && -k * -m == k * m
  {
  }

  /** With a negative divisor MulDiv rounds to nearest if and only if the divisor is not -1 and
      the exact quotient is at most one half in size or halfway between two integers. */
  lemma MulDivNegativeIff(a: int, b: int, d: int)
    requires d < 0
    ensures Rounds(MulDiv(a, b, d), a * b, d) <==>
            d != -1 && (2 * Abs(a * b) <= -d || 2 * (Abs(a * b) % -d) == -d)
  {
    QuotientNegativeIff(a * b, d);
  }

  /** 3 times 1 over -1 comes out as -2. */
  lemma MinusOneMisses()
    ensures MulDiv(3, 1, -1) == -2 && !Rounds(MulDiv(3, 1, -1), 3, -1)
  {
  }

  lemma QuotientNegativeIff(x: int, d: int)
    requires d < 0
    ensures Rounds(Quotient(x, d), x, d) <==> d != -1 && (2 * Abs(x) <= -d || 2 * (Abs(x) % -d) == -d)
  {
    hide Quotient;
    var n, m, c := Abs(x), -d, -Half(d);
    NegativeError(x, d);
    if n < c {
      if m > 1 {
        DivIs(n, m, 0, n);
      }
    } else {
      BiasedDown(n, m, c);
      DivFacts(n, m);
      if 2 * n <= m {
        DivIs(n, m, 0, n);
      }
    }
  }

  lemma BiasedDown(n: nat, m: int, c: int)
    requires m > 0 && m <= 2 * c <= m + 1 && c <= n
    ensures n - ((n - c) / m) * m == if n % m >= c then n % m else n % m + m
  {
    var q, rem := n / m, n % m;
    DivFacts(n, m);
    if rem >= c {
      DivIs(n - c, m, q, rem - c);
    } else {
      assert (q - 1) * m == q * m - m;
      DivIs(n - c, m, q - 1, rem - c + m);
    }
  }

  // ---------------------------------------------------------------- tracking the thumb

  type Word = i: int | 0 <= i < WORDS

  /** An int stored in a 16-bit word. */
  function ToWord(i: int): Word { i % WORDS }

  datatype Rect = Rect(left: int, top: int, right: int, bottom: int)

  /** The tracking offset brought onto a track of length diff; a word from 0x8000 up reads as a
      negative short. */
  function OnTrack(off: Word, diff: int): Word {
    if off >= 0x8000 then 0 else if off > diff then ToWord(diff) else off
  }

  /** The scroll position that belongs to a tracking offset. */
  function PosAt(off: Word, range: int, diff: int): Word {
    if range <= 0 || diff <= 0 then 0 else ToWord(MulDiv(off, range, diff))
  }

  /** The thumb offset that belongs to a scroll position. */
  function ThumbAt(pos: Word, range: int, diff: int): Word { ToWord(MulDiv(pos, diff, range)) }

  /** A word read as a short. */
  function Short(w: Word): int { if w >= 0x8000 then w - WORDS else w }

  /** The position pos that belongs to an offset x on a track: nothing before it, the whole range
      from its end on, and in between a nearest integer to x * range / track. */
  predicate Tracks(x: int, range: int, track: int, pos: int) {
    if range <= 0 || track <= 0 || x < 0 then pos == 0
    else if x >= track then pos == range
    else 2 * Abs(pos * track - x * range) <= track
  }

  /** And the offset thumb of the thumb drawn there: a nearest integer to pos * track / range. */
  predicate ThumbTracks(pos: int, range: int, track: int, thumb: int) {
    0 < range && 0 < track < WORDS ==> 2 * Abs(thumb * range - pos * track) <= range
  }

  /** The offset is kept between the ends of the track. */
  lemma OnTrackIs(off: Word, track: int)
    requires 0 <= track
    ensures var x, y := Short(off), OnTrack(off, track);
            && (x < 0 ==> y == 0) && (0 <= x <= track ==> y == x) && (0 <= x && track < x ==> y == track)
  {
  }

  /** The result of tracking is such a position, and the thumb is drawn where it belongs. */
  lemma TrackingFollows(off: Word, range: int, track: int)
    requires range < WORDS
    ensures var pos := PosAt(OnTrack(off, track), range, track);
            && Tracks(Short(off), range, track, pos)
            && (range > 0 ==> ThumbTracks(pos, range, track, ThumbAt(pos, range, track)))
  {
    hide MulDiv;
    var x := OnTrack(off, track);
    if 0 < range && 0 < track {
      ScaledInRange(x, range, track);
      MulDivRounds(x, range, track);
      var pos := PosAt(x, range, track);
      assert pos == MulDiv(x, range, track);
      ThumbFollows(pos, range, track);
    }
  }

  lemma ThumbFollows(pos: Word, range: int, track: int)
    requires 0 < range < WORDS && 0 < track && pos <= range
    ensures ThumbTracks(pos, range, track, ThumbAt(pos, range, track))
  {
    hide MulDiv;
    ScaledInRange(pos, track, range);
    MulDivRounds(pos, track, range);
  }

  /** From this alone, a larger offset never gives a smaller position. */
  lemma TracksMonotone(x: int, y: int, range: int, track: int, p: int, q: int)
    requires x < y && Tracks(x, range, track, p) && Tracks(y, range, track, q)
    ensures p <= q
  {
    if 0 < range && 0 < track {
      var last := if y < track then y else track;
      MulMono(range, x + 1, last);
      assert (x + 1) * range == x * range + range && track * range == range * track;
      if x < 0 <= y {
        MulMono(range, 0, y);
        NotBelow(q, track, y * range);
      } else if 0 <= x < track {
        NearestInOrder(p, q, track, x * range, last * range);
      }
    }
  }

  /** Nearest to a number that is not negative is none that is. */
  lemma NotBelow(q: int, d: int, y: int)
    requires d > 0 && y >= 0
    ensures 2 * (y - q * d) <= d ==> q >= 0
  {
    MulMono(d, q, -1);
  }

  lemma NearestInOrder(p: int, q: int, d: int, x: int, y: int)
    requires d > 0 && x < y && 2 * (p * d - x) <= d && 2 * (y - q * d) <= d
    ensures p <= q
  {
    MulMono(d, q + 1, p);
    assert (q + 1) * d == q * d + d;
  }

  /** Half-way along a track of 200, a range of 100 is at 50. */
  lemma HalfWay(p: int)
    ensures Tracks(100, 100, 200, p) <==> p == 50
  {
  }

  class ScrollInfo {
    var vertical: bool
    var nMin: Word
    var nMax: Word
    var nTrackingPos: Word
    var wArrowWidth: Word
    var wArrowHeight: Word
    var wThumbOffset: Word
    var wTrackingOffset: Word

    function Range(): int
      reads this
    {
      nMax - nMin
    }

    /** Length of the track that the thumb can travel. */
    function Travel(rc: Rect): int
      reads this
    {
      if vertical then rc.bottom - rc.top - wArrowHeight else rc.right - rc.left - wArrowWidth
    }

    method SetTrackingPos(rc: Rect, fSetOffset: bool) returns (pos: int)
      modifies this`wTrackingOffset, this`nTrackingPos, this`wThumbOffset
      ensures wTrackingOffset == OnTrack(old(wTrackingOffset), Travel(rc))
      ensures pos == nTrackingPos == PosAt(wTrackingOffset, Range(), Travel(rc))
      ensures wThumbOffset ==
                if fSetOffset then ThumbAt(nTrackingPos, Range(), Travel(rc)) else old(wThumbOffset)
      ensures vertical ==> Tracks(Short(old(wTrackingOffset)), nMax - nMin, rc.bottom - rc.top - wArrowHeight, pos)
      ensures !vertical ==> Tracks(Short(old(wTrackingOffset)), nMax - nMin, rc.right - rc.left - wArrowWidth, pos)
      ensures fSetOffset && vertical ==>
                ThumbTracks(pos, nMax - nMin, rc.bottom - rc.top - wArrowHeight, wThumbOffset)
      ensures fSetOffset && !vertical ==>
                ThumbTracks(pos, nMax - nMin, rc.right - rc.left - wArrowWidth, wThumbOffset)
    {
      TrackingFollows(wTrackingOffset, Range(), Travel(rc));
      hide Tracks, ThumbTracks, MulDiv;
      var nRange := nMax - nMin;
      var nDiff := if vertical then rc.bottom - rc.top - wArrowHeight else rc.right - rc.left - wArrowWidth;
      if wTrackingOffset >= 0x8000 {
        wTrackingOffset := 0;
      } else if wTrackingOffset > nDiff {
        wTrackingOffset := ToWord(nDiff);
      }
      if nRange <= 0 || nDiff <= 0 {
        nTrackingPos := 0;
      } else {
        nTrackingPos := ToWord(MulDiv(wTrackingOffset, nRange, nDiff));
      }
      if fSetOffset {
        wThumbOffset := ToWord(MulDiv(nTrackingPos, nDiff, nRange));
      }
      return nTrackingPos;
    }

    /** Letting go of the thumb and taking hold of it again where it came to rest changes
        nothing: neither the position nor the offset of the thumb. */
    method ReleaseAndGrab(rc: Rect) returns (first: int, second: int)
      requires 0 < Range() && 0 < Travel(rc) < 0x8000
      modifies this`wTrackingOffset, this`nTrackingPos, this`wThumbOffset
      ensures first == second == nTrackingPos && 0 <= first <= Range()
      ensures wTrackingOffset == wThumbOffset && 0 <= wThumbOffset <= Travel(rc)
    {
      ghost var off := OnTrack(wTrackingOffset, Travel(rc));
      SnapStable(off, Range(), Travel(rc));
      first := SetTrackingPos(rc, true);
      wTrackingOffset := wThumbOffset;
      second := SetTrackingPos(rc, true);
    }
  }

  /** Scaling from one ruler to the other stays on the ruler. */
  lemma ScaledInRange(k: int, range: int, diff: int)
    requires 0 < diff && 0 < range && 0 <= k <= diff
    ensures 0 <= MulDiv(k, range, diff) <= range
    ensures k == 0 ==> MulDiv(k, range, diff) == 0
    ensures k == diff ==> MulDiv(k, range, diff) == range
  {
    hide MulDiv;
    var r := MulDiv(k, range, diff);
    MulDivRounds(k, range, diff);
    MulMono(range, 0, k);
    MulMono(range, k, diff);
    assert diff * range == range * diff;
    MulMono(diff, r, -1);
    MulMono(diff, range + 1, r);
    assert (range + 1) * diff == range * diff + diff;
    if k == 0 {
      RoundsUnique(r, 0, k * range, diff);
    } else if k == diff {
      RoundsUnique(r, range, k * range, diff);
    }
  }

  /** A larger offset never gives a smaller position. */
  lemma ScaledMonotone(j: int, k: int, range: int, diff: int)
    requires 0 < diff && 0 < range && j <= k
    ensures MulDiv(j, range, diff) <= MulDiv(k, range, diff)
  {
    MulMono(range, j, k);
    QuotientMonotone(j * range, k * range, diff);
  }

  lemma QuotientMonotone(x: int, y: int, d: int)
    requires 0 < d && x <= y
    ensures Quotient(x, d) <= Quotient(y, d)
  {
    hide Quotient;
    var r, s := Quotient(x, d), Quotient(y, d);
    QuotientRounds(x, d);
    QuotientRounds(y, d);
    assert (s + 1) * d == s * d + d;
    MulMono(d, s + 1, r);
  }

  /** From the longer ruler to the shorter and back is the identity on the shorter one's marks. */
  lemma SnapBack(pos: int, range: int, diff: int)
    requires 0 < range <= diff
    ensures MulDiv(MulDiv(pos, diff, range), range, diff) == pos
  {
    hide MulDiv;
    var t := MulDiv(pos, diff, range);
    MulDivRounds(pos, diff, range);
    if range == diff {
      assert t * range - pos * diff == (t - pos) * range;
      MulMono(range, 1, t - pos);
      MulMono(range, t - pos, -1);
    }
    MulDivRounds(t, range, diff);
    RoundsUnique(MulDiv(t, range, diff), pos, t * range, diff);
  }

  /** For a positive range and a track shorter than 32768: the position is in range, and
      tracking again from the thumb offset it sets gives the same position and offset. */
  lemma SnapStable(off: Word, range: int, diff: int)
    requires 0 < range < WORDS && 0 < diff < 0x8000 && off <= diff
    ensures var pos := PosAt(off, range, diff);
            var thumb := ThumbAt(pos, range, diff);
            && 0 <= pos <= range
            && 0 <= thumb <= diff
            && OnTrack(thumb, diff) == thumb
            && PosAt(thumb, range, diff) == pos
  {
    hide MulDiv;
    var pos := MulDiv(off, range, diff);
    ScaledInRange(off, range, diff);
    ScaledInRange(pos, diff, range);
    if range <= diff {
      SnapBack(pos, range, diff);
    } else {
      SnapBack(off, diff, range);
    }
  }

  /** On such a bar no intermediate value of MulDiv leaves a 32-bit int. */
  lemma TrackingFitsInt(off: Word, pos: Word, range: int, diff: int)
    requires 0 < range < WORDS && 0 < diff < 0x8000 && off <= diff && pos <= range
    ensures 0 <= off * range + Half(diff) <= INT_MAX
    ensures 0 <= pos * diff + Half(range) <= INT_MAX
  {
    MulMono(range, off, 0x7fff);
    assert 0 <= off * range;
    MulMono(diff, pos, 0xffff);
    assert 0 <= pos * diff;
  }
}
