/**
 The line-fragment table of the edit control (controls/Edit.c, controls/EditDraw.c).

 The text of the control is cut into fragments.  BuildAFragment cuts one fragment,
 ReformatFragments iterates it over the whole text, and FindLine and SetEditPosition
 read the resulting table to place the caret.  This module states those computations
 as functions of the text and proves what the table means; EditControl.dfy proves the
 loops against them.
 */
module EditLines {

  datatype Fragment = Fragment(nLength: int, nOffset: int) {
    function End(): int { nOffset + nLength }
  }

  datatype Prefer = Any | Next | Prev | Here | Other

  /** Longest fragment that BuildAFragment's loop produces. */
  const MAX_FRAGMENT: nat := 1024

  /** What the control asks of its window: two style bits, the width of the formatting
      rectangle, and three foreign routines (text extents, the word-break procedure and
      the per-character case conversion of ES_UPPERCASE/ES_LOWERCASE). */
  datatype RawStyle = RawStyle(
    autoHScroll: bool,
    multiline: bool,
    width: nat,
    extent: seq<char> -> nat,
    wordBreak: (seq<char>, nat) -> int,
    recase: char -> char)
  {
    predicate Wraps() { !autoHScroll && multiline }

    /** Only a single-line control without auto-scroll clips what is typed. */
    predicate Clips() { !autoHScroll && !multiline }

    /** The fragment t[start..off+1] is too wide for the line. */
    predicate Overflows(t: seq<char>, start: nat, off: nat)
      requires start <= off < |t|
    {
      Wraps() && extent(t[start..off + 1]) % 0x10000 > width % 0x10000
    }

    /** Case conversion leaves NUL, CR and LF alone and produces none of them. */
    ghost predicate Sane() {
      forall c ::
        (recase(c) == '\0' <==> c == '\0') && (recase(c) == '\r' <==> c == '\r') && (recase(c) == '\n' <==> c == '\n')
    }
  }

  type Style = s: RawStyle | s.Sane()
    witness RawStyle(true, true, 1, (s: seq<char>) => |s|, (s: seq<char>, i: nat) => i, (c: char) => c)

  // ---------------------------------------------------------------- cutting one fragment

  predicate CrLfAt(t: seq<char>, i: int) {
    0 <= i && i + 1 < |t| && t[i] == '\r' && t[i + 1] == '\n'
  }

  predicate IsBreak(c: char) { c == '\r' || c == '\n' }

  /** BuildAFragment resumed at offset off of a fragment that began at start: the offset of
      the next fragment and the length of this one.  A word-break procedure may send it back to
      start or before it. */
  function Scan(style: Style, t: seq<char>, start: nat, off: nat): (r: (int, int))
    requires start <= off <= |t|
    ensures r.0 > start ==> r.1 >= 0 && start + r.1 < r.0 <= start + r.1 + 2
    ensures r.0 == start + r.1 + 2 ==> CrLfAt(t, start + r.1)
    decreases |t| - off
  {
    if off == |t| || off - start >= MAX_FRAGMENT then (off + 1, off - start)
    else if t[off] == '\r' then (if CrLfAt(t, off) then off + 2 else off + 1, off - start)
    else if t[off] == '\n' then (off + 1, off - start)
    else if style.Overflows(t, start, off) then
      var n := style.wordBreak(t, off) - start;
      (start + n, n - 1)
    else Scan(style, t, start, off + 1)
  }

  /** BuildAFragment. */
  function Build(style: Style, t: seq<char>, off: nat): (int, int)
    requires off <= |t|
  {
    Scan(style, t, off, off)
  }

  /** BuildAFragment gets past the start of the fragment. */
  predicate Advances(style: Style, t: seq<char>, off: nat)
    requires off <= |t|
  {
    Build(style, t, off).0 > off
  }

  /** From offset off on, every cut gets past the start of its fragment, so that cutting comes to an
      end.  It may come to one in other cases too: a word-break procedure can go back once and then
      on. */
  predicate Ends(style: Style, t: seq<char>, off: nat)
    decreases if off > |t| then 0 else |t| + 1 - off
  {
    off > |t| || (Advances(style, t, off) && Ends(style, t, Build(style, t, off).0))
  }

  /** The table obtained by iterating BuildAFragment from offset off to the end.  Where that gets
      stuck, one last entry stands for the rest of the text. */
  function Split(style: Style, t: seq<char>, off: nat): (fs: seq<Fragment>)
    ensures off <= |t| ==> |fs| > 0
    decreases if off > |t| then 0 else |t| + 1 - off
  {
    if off > |t| then []
    else if !Advances(style, t, off) then [Fragment(|t| - off, off)]
    else
      var r := Build(style, t, off);
      [Fragment(r.1, off)] + Split(style, t, r.0)
  }

  // ---------------------------------------------------------------- getting past a fragment

  /** Where BuildAFragment, resumed at off, finds the line overflown, or -1. */
  function OverflowFrom(style: Style, t: seq<char>, start: nat, off: nat): (o: int)
    requires start <= off <= |t|
    ensures o == -1 || off <= o < |t|
    ensures o >= 0 ==> forall i | off <= i < o :: !IsBreak(t[i])
    decreases |t| - off
  {
    if off == |t| || off - start >= MAX_FRAGMENT || IsBreak(t[off]) then -1
    else if style.Overflows(t, start, off) then off
    else OverflowFrom(style, t, start, off + 1)
  }

  /** BuildAFragment advances if and only if the line does not overflow, or the word-break
      procedure breaks it behind its start. */
  lemma {:induction false} AdvancesIff(style: Style, t: seq<char>, start: nat, off: nat)
    requires start <= off <= |t|
    ensures var o := OverflowFrom(style, t, start, off);
            Scan(style, t, start, off).0 > start <==> o == -1 || style.wordBreak(t, o) > start
    decreases |t| - off
  {
    if off == |t| || off - start >= MAX_FRAGMENT || IsBreak(t[off]) || style.Overflows(t, start, off) {
    } else {
      AdvancesIff(style, t, start, off + 1);
    }
  }

  /** Up to there nothing overflows, and there it does. */
  lemma {:induction false} OverflowIsFirst(style: Style, t: seq<char>, start: nat, off: nat)
    requires start <= off <= |t|
    ensures var o, r := OverflowFrom(style, t, start, off), Scan(style, t, start, off);
            && (o == -1 ==> off <= start + r.1 <= |t|)
            && (o == -1 ==> forall k | off <= k < start + r.1 :: !style.Overflows(t, start, k))
            && (o >= 0 ==> style.Overflows(t, start, o) && forall k | off <= k < o :: !style.Overflows(t, start, k))
            && (o >= 0 ==> r == (style.wordBreak(t, o), style.wordBreak(t, o) - start - 1))
    decreases |t| - off
  {
    if off == |t| || off - start >= MAX_FRAGMENT || IsBreak(t[off]) || style.Overflows(t, start, off) {
    } else {
      OverflowIsFirst(style, t, start, off + 1);
    }
  }

  /** A wrapped fragment is no wider than the control, however much of it is taken.  If it was wrapped,
      it ends one character before the place the word-break procedure gave, where the next one
      begins, and with the character at which it overflowed it would have been too wide. */
  lemma WrappedFits(style: Style, t: seq<char>, off: nat)
    requires !style.autoHScroll && style.multiline && off <= |t|
    requires var o := OverflowFrom(style, t, off, off); o >= 0 ==> off < style.wordBreak(t, o) <= o + 1
    ensures var o, (next, length) := OverflowFrom(style, t, off, off), Build(style, t, off);
            && 0 <= length && off + length <= |t|
            && (forall e | off < e <= off + length :: style.extent(t[off..e]) % 0x10000 <= style.width % 0x10000)
            && (o >= 0 ==> next == style.wordBreak(t, o) == off + length + 1
                           && style.extent(t[off..o + 1]) % 0x10000 > style.width % 0x10000)
  {
    OverflowIsFirst(style, t, off, off);
    var length := Build(style, t, off).1;
    forall e | off < e <= off + length ensures style.extent(t[off..e]) % 0x10000 <= style.width % 0x10000 {
      assert !style.Overflows(t, off, e - 1);
    }
  }

  predicate IsBlank(c: char) { c == ' ' || c == '\t' }

  /** Back over blanks: the last place before i that is none, or -1. */
  function SkipBlanks(t: seq<char>, i: nat): (r: int)
    requires i <= |t|
    ensures -1 <= r < i
    ensures r >= 0 ==> !IsBlank(t[r])
    ensures forall k | r < k < i :: IsBlank(t[k])
  {
    if i == 0 then -1 else if IsBlank(t[i - 1]) then SkipBlanks(t, i - 1) else i - 1
  }

  /** Back to the start of a word whose characters before i belong to it. */
  function WordStart(t: seq<char>, i: nat): (r: nat)
    requires i <= |t|
    ensures r <= i
    ensures r > 0 ==> IsBlank(t[r - 1]) || IsBreak(t[r - 1])
    ensures forall k | r <= k < i :: !IsBlank(t[k]) && !IsBreak(t[k])
  {
    if i == 0 || IsBlank(t[i - 1]) || IsBreak(t[i - 1]) then i else WordStart(t, i - 1)
  }

  function SkipReturns(t: seq<char>, i: nat): (r: nat)
    requires i <= |t|
    ensures r <= i && forall k | r <= k < i :: t[k] == '\r'
    ensures r > 0 ==> t[r - 1] != '\r'
  {
    if i == 0 || t[i - 1] != '\r' then i else SkipReturns(t, i - 1)
  }

  /** DefWordBreakProc with WB_LEFT. */
  function WordLeft(t: seq<char>, i: nat): (r: int)
    requires i <= |t|
    ensures 0 <= r <= i
  {
    var k := SkipBlanks(t, i);
    if k < 0 then 0
    else if IsBreak(t[k]) then SkipReturns(t, k)
    else WordStart(t, k)
  }

  /** In a line without breaks, that is the start of the last word before i: behind a blank or at the
      start of the line, with nothing but the word, and blanks behind it, up to i. */
  lemma WordLeftMeans(t: seq<char>, i: nat)
    requires i <= |t| && forall k | 0 <= k < i :: !IsBreak(t[k])
    ensures var r, j := WordLeft(t, i), SkipBlanks(t, i);
            && (r > 0 ==> IsBlank(t[r - 1]))
            && (j == -1 ==> r == 0)
            && (j >= 0 ==> r <= j && forall k | r <= k <= j :: !IsBlank(t[k]))
            && (forall k | j < k < i :: IsBlank(t[k]))
  {
  }

  /** Without wrapping, cutting a text always comes to an end. */
  lemma {:induction false} EndsUnwrapped(style: Style, t: seq<char>, off: nat)
    requires !style.Wraps()
    ensures Ends(style, t, off)
    decreases if off > |t| then 0 else |t| + 1 - off
  {
    if off <= |t| {
      AdvancesIff(style, t, off, off);
      assert OverflowFrom(style, t, off, off) == -1 by {
        NeverOverflows(style, t, off, off);
      }
      EndsUnwrapped(style, t, Build(style, t, off).0);
    }
  }

  lemma {:induction false} NeverOverflows(style: Style, t: seq<char>, start: nat, off: nat)
    requires !style.Wraps() && start <= off <= |t|
    ensures OverflowFrom(style, t, start, off) == -1
    decreases |t| - off
  {
    if off < |t| && off - start < MAX_FRAGMENT && !IsBreak(t[off]) {
      assert !style.Overflows(t, start, off);
      NeverOverflows(style, t, start, off + 1);
    }
  }

  /** With the control's own word-break procedure, an overflowing line is broken behind its start
      if and only if it has a blank with a character of a word behind it: a line that overflows in
      its first word makes no progress. */
  lemma WordLeftAdvancesIff(style: Style, t: seq<char>, off: nat)
    requires off <= |t| && forall i: nat | i < |t| :: style.wordBreak(t, i) == WordLeft(t, i)
    ensures var o := OverflowFrom(style, t, off, off);
            Advances(style, t, off) <==>
              o == -1 || exists k, j | off <= k < j < o :: IsBlank(t[k]) && !IsBlank(t[j])
  {
    AdvancesIff(style, t, off, off);
    var o := OverflowFrom(style, t, off, off);
    if o >= 0 {
      var j := SkipBlanks(t, o);
      if off < j {
        assert !IsBreak(t[j]);
        var w := WordStart(t, j);
        if w > off {
          assert IsBlank(t[w - 1]) && !IsBlank(t[j]);
        }
      }
    }
  }

  /** A line of three characters and a word of four: cutting the text never comes to an end. */
  lemma LongWordStalls(style: Style)
    requires style.Wraps() && style.width == 3 && forall s :: style.extent(s) == |s|
    requires forall t: seq<char>, i: nat | i < |t| :: style.wordBreak(t, i) == WordLeft(t, i)
    ensures !Ends(style, "aaaa", 0)
  {
    var t := "aaaa";
    assert OverflowFrom(style, t, 0, 3) == 3;
    assert OverflowFrom(style, t, 0, 0) == OverflowFrom(style, t, 0, 1) == OverflowFrom(style, t, 0, 2) == 3;
    WordLeftAdvancesIff(style, t, 0);
  }

  // ---------------------------------------------------------------- shape of every table

  /** What every table cut from a text of length n satisfies, wrapping or not: fragments
      follow one another, each gap is one or two characters wide, and the last reaches the
      end of the text. */
  ghost predicate TableFrom(fs: seq<Fragment>, n: nat, off: nat) {
    && |fs| > 0
    && fs[0].nOffset == off
    && (forall i | 0 <= i < |fs| :: fs[i].nLength >= 0 && fs[i].nOffset <= n)
    && (forall i | 0 <= i < |fs| - 1 :: fs[i].End() < fs[i + 1].nOffset <= fs[i].End() + 2)
    && fs[|fs| - 1].End() >= n
  }

  lemma {:induction false} SplitIsTable(style: Style, t: seq<char>, off: nat)
    requires off <= |t|
    ensures TableFrom(Split(style, t, off), |t|, off)
    decreases |t| + 1 - off
  {
    hide Scan;
    var r := Build(style, t, off);
    if off < r.0 <= |t| {
      var rest := Split(style, t, r.0);
      SplitIsTable(style, t, r.0);
      var fs := Split(style, t, off);
      assert fs == [Fragment(r.1, off)] + rest;
      forall i | 0 <= i < |fs| - 1
        ensures fs[i].End() < fs[i + 1].nOffset <= fs[i].End() + 2
      {
        if i > 0 {
          assert fs[i] == rest[i - 1] && fs[i + 1] == rest[i];
        }
      }
    }
  }

  lemma {:induction false} OffsetsRise(fs: seq<Fragment>, n: nat, off: nat, i: nat, j: nat)
    requires TableFrom(fs, n, off)
    requires i < j < |fs|
    ensures fs[i].End() < fs[j].nOffset
    decreases j
  {
    if i < j - 1 {
      OffsetsRise(fs, n, off, i, j - 1);
      assert fs[j - 1].nLength >= 0;
    }
    assert fs[j - 1].End() < fs[j].nOffset;
  }

  // ---------------------------------------------------------------- lines of the text

  /** Length of the line terminator at e: CR LF, a lone LF or a lone CR. */
  function TermLen(t: seq<char>, e: int): nat {
    if e < 0 || e >= |t| then 0
    else if CrLfAt(t, e) then 2
    else if IsBreak(t[e]) then 1
    else 0
  }

  /** No CR and no LF in t[i..j]. */
  ghost predicate Plain(t: seq<char>, i: int, j: int) {
    forall k | i <= k < j && 0 <= k < |t| :: !IsBreak(t[k])
  }

  /** The fragments are exactly the lines of t from off on: no line holds a terminator, the
      gap behind each but the last is exactly one terminator, the last ends with the text. */
  ghost predicate LinesFrom(t: seq<char>, fs: seq<Fragment>, off: nat) {
    && |fs| > 0
    && fs[0].nOffset == off
    && (forall i | 0 <= i < |fs| ::
          fs[i].nLength >= 0 && 0 <= fs[i].nOffset && fs[i].End() <= |t| && Plain(t, fs[i].nOffset, fs[i].End()))
    && (forall i | 0 <= i < |fs| - 1 ::
          TermLen(t, fs[i].End()) > 0 && fs[i + 1].nOffset == fs[i].End() + TermLen(t, fs[i].End()))
    && fs[|fs| - 1].End() == |t|
  }

  /** A text has at most one line table: the fragments of two such tables agree. */
  lemma {:induction false} LinesUnique(t: seq<char>, fs: seq<Fragment>, gs: seq<Fragment>, off: nat)
    requires LinesFrom(t, fs, off) && LinesFrom(t, gs, off)
    ensures fs == gs
    decreases |fs|
  {
    SameFirstLine(t, fs, gs, off);
    if |fs| > 1 {
      TailIsLines(t, fs, off);
      TailIsLines(t, gs, off);
      hide LinesFrom;
      LinesUnique(t, fs[1..], gs[1..], fs[1].nOffset);
      assert fs == [fs[0]] + fs[1..] && gs == [gs[0]] + gs[1..];
    }
  }

  lemma SameFirstLine(t: seq<char>, fs: seq<Fragment>, gs: seq<Fragment>, off: nat)
    requires LinesFrom(t, fs, off) && LinesFrom(t, gs, off)
    ensures fs[0] == gs[0] && (|fs| > 1 <==> |gs| > 1)
    ensures |fs| > 1 ==> fs[1].nOffset == gs[1].nOffset
  {
    FirstLineIs(t, fs, off);
    FirstLineIs(t, gs, off);
  }

  /** A first line ends at the first terminator, or else with the text. */
  lemma FirstLineIs(t: seq<char>, fs: seq<Fragment>, off: nat)
    requires LinesFrom(t, fs, off)
    ensures off <= |t| && fs[0] == FirstLine(t, off)
    ensures |fs| > 1 <==> fs[0].End() < |t|
    ensures |fs| > 1 ==> fs[1].nOffset == fs[0].End() + TermLen(t, fs[0].End())
  {
  }

  lemma TailIsLines(t: seq<char>, fs: seq<Fragment>, off: nat)
    requires LinesFrom(t, fs, off) && |fs| > 1
    ensures LinesFrom(t, fs[1..], fs[1].nOffset)
  {
    forall i | 0 <= i < |fs[1..]| - 1
      ensures TermLen(t, fs[1..][i].End()) > 0
      ensures fs[1..][i + 1].nOffset == fs[1..][i].End() + TermLen(t, fs[1..][i].End())
    {
      assert fs[1..][i] == fs[i + 1] && fs[1..][i + 1] == fs[i + 2];
    }
  }

  /** Fragments that lie in t one behind the other. */
  ghost predicate Chained(t: seq<char>, fs: seq<Fragment>) {
    && (forall i | 0 <= i < |fs| :: 0 <= fs[i].nOffset <= fs[i].End() <= |t|)
    && (forall i | 0 <= i < |fs| - 1 :: fs[i].End() <= fs[i + 1].nOffset)
  }

  /** The characters of a table's fragments and of the gaps behind them, in order. */
  ghost function Joined(t: seq<char>, fs: seq<Fragment>): seq<char>
    requires Chained(t, fs)
  {
    if |fs| == 0 then []
    else if |fs| == 1 then t[fs[0].nOffset..fs[0].End()]
    else
      ChainedTail(t, fs);
      t[fs[0].nOffset..fs[0].End()] + t[fs[0].End()..fs[1].nOffset] + Joined(t, fs[1..])
  }

  lemma ChainedTail(t: seq<char>, fs: seq<Fragment>)
    requires Chained(t, fs) && |fs| > 1
    ensures Chained(t, fs[1..])
  {
    forall i | 0 <= i < |fs[1..]| - 1 ensures fs[1..][i].End() <= fs[1..][i + 1].nOffset {
      assert fs[1..][i] == fs[i + 1] && fs[1..][i + 1] == fs[i + 2];
    }
  }

  /** Joining the lines with the terminators between them gives the text back. */
  lemma {:induction false} LinesRebuild(t: seq<char>, fs: seq<Fragment>, off: nat)
    requires LinesFrom(t, fs, off)
    ensures Chained(t, fs)
    ensures Joined(t, fs) == t[off..]
    decreases |fs|
  {
    if |fs| > 1 {
      TailIsLines(t, fs, off);
      LinesRebuild(t, fs[1..], fs[1].nOffset);
      var e, o := fs[0].End(), fs[1].nOffset;
      assert t[off..] == t[off..e] + t[e..o] + t[o..];
    }
  }

  // ---------------------------------------------------------------- when the table is the lines

  /** First offset at or after off that holds CR or LF, or the end of the text. */
  function LineEnd(t: seq<char>, off: nat): (e: nat)
    requires off <= |t|
    ensures off <= e <= |t|
    ensures Plain(t, off, e)
    ensures e < |t| ==> IsBreak(t[e])
    decreases |t| - off
  {
    if off == |t| || IsBreak(t[off]) then off else LineEnd(t, off + 1)
  }

  /** The lines of t from off on, found without any length limit. */
  function Lines(t: seq<char>, off: nat): (fs: seq<Fragment>)
    requires off <= |t|
    decreases |t| - off
  {
    var e := LineEnd(t, off);
    if e == |t| then [Fragment(e - off, off)]
    else [Fragment(e - off, off)] + Lines(t, e + TermLen(t, e))
  }

  lemma {:induction false} LinesAreLines(t: seq<char>, off: nat)
    requires off <= |t|
    ensures LinesFrom(t, Lines(t, off), off)
    decreases |t| - off
  {
    var e := LineEnd(t, off);
    if e < |t| {
      LinesAreLines(t, e + TermLen(t, e));
      var fs, rest := Lines(t, off), Lines(t, e + TermLen(t, e));
      assert fs == [Fragment(e - off, off)] + rest;
      hide Lines, LineEnd;
      forall i | 0 <= i < |fs| - 1
        ensures TermLen(t, fs[i].End()) > 0 && fs[i + 1].nOffset == fs[i].End() + TermLen(t, fs[i].End())
      {
        if i > 0 {
          assert fs[i] == rest[i - 1] && fs[i + 1] == rest[i];
        }
      }
    }
  }

  /** A line that the 1024-character cap of BuildAFragment leaves whole. */
  predicate LineUncut(t: seq<char>, f: Fragment) {
    f.nLength < MAX_FRAGMENT || (f.nLength == MAX_FRAGMENT && !CrLfAt(t, f.End()))
  }

  predicate AllUncut(t: seq<char>, fs: seq<Fragment>) {
    forall i | 0 <= i < |fs| :: LineUncut(t, fs[i])
  }

  /** Without wrapping, a scan stops at the line end or at the cap, whichever comes first. */
  lemma {:induction false} ScanStops(style: Style, t: seq<char>, start: nat, off: nat)
    requires !style.Wraps()
    requires start <= off <= |t| && off - start <= MAX_FRAGMENT
    ensures var e := LineEnd(t, off);
            Scan(style, t, start, off) ==
              if e - start < MAX_FRAGMENT then (if e == |t| then e + 1 else e + TermLen(t, e), e - start)
              else (start + MAX_FRAGMENT + 1, MAX_FRAGMENT)
    decreases |t| - off
  {
    if off == |t| || off - start >= MAX_FRAGMENT || IsBreak(t[off]) {
    } else {
      assert !style.Overflows(t, start, off);
      ScanStops(style, t, start, off + 1);
    }
  }

  /** With wrapping off, the fragment table is the table of the text's lines if and only if
      every line is shorter than 1024 characters, or has exactly 1024 and is not ended by CR LF. */
  lemma {:induction false} TableIsLinesIff(style: Style, t: seq<char>, off: nat)
    requires !style.Wraps() && off <= |t|
    ensures LinesFrom(t, Split(style, t, off), off) <==> AllUncut(t, Lines(t, off))
    ensures AllUncut(t, Lines(t, off)) ==> Split(style, t, off) == Lines(t, off)
    decreases |t| - off
  {
    hide LinesFrom, AllUncut, Split, Lines, Scan, LineUncut, LineEnd;
    LinesAreLines(t, off);
    var f := FirstLine(t, off);
    if !LineUncut(t, f) {
      CutTableIsNotLines(style, t, off);
    } else {
      TableStartsWithLine(style, t, off);
      LinesStart(t, off);
      if f.End() == |t| {
        OneLine(t, f);
      } else {
        var o := f.End() + TermLen(t, f.End());
        TableIsLinesIff(style, t, o);
        LinesAreLines(t, o);
        FirstLineOff(t, f, Split(style, t, o), Lines(t, o), off, o);
      }
    }
  }

  function FirstLine(t: seq<char>, off: nat): (f: Fragment)
    requires off <= |t|
    ensures off <= f.End() <= |t|
    ensures f.End() < |t| ==> TermLen(t, f.End()) > 0
  {
    Fragment(LineEnd(t, off) - off, off)
  }

  lemma LinesStart(t: seq<char>, off: nat)
    requires off <= |t|
    ensures var f := FirstLine(t, off);
            Lines(t, off) == if f.End() == |t| then [f] else [f] + Lines(t, f.End() + TermLen(t, f.End()))
  {
  }

  lemma TableStartsWithLine(style: Style, t: seq<char>, off: nat)
    requires !style.Wraps() && off <= |t| && LineUncut(t, FirstLine(t, off))
    ensures var f := FirstLine(t, off);
            Split(style, t, off) ==
              if f.End() == |t| then [f] else [f] + Split(style, t, f.End() + TermLen(t, f.End()))
  {
    ScanStops(style, t, off, off);
    var e := LineEnd(t, off);
    if e == |t| {
      assert Split(style, t, e + 1) == [];
    }
  }

  lemma OneLine(t: seq<char>, f: Fragment)
    requires LineUncut(t, f)
    ensures AllUncut(t, [f])
  {
  }

  /** An uncut first line is passed over on both sides. */
  lemma FirstLineOff(t: seq<char>, f: Fragment, fs: seq<Fragment>, ls: seq<Fragment>, off: nat, next: nat)
    requires off <= |t| && LineUncut(t, f)
    requires LinesFrom(t, [f] + ls, off) && LinesFrom(t, ls, next)
    requires LinesFrom(t, fs, next) <==> AllUncut(t, ls)
    requires AllUncut(t, ls) ==> fs == ls
    ensures LinesFrom(t, [f] + fs, off) <==> AllUncut(t, [f] + ls)
    ensures AllUncut(t, [f] + ls) ==> fs == ls
  {
    hide LinesFrom, LineUncut;
    assert ([f] + fs)[1..] == fs && ([f] + ls)[1..] == ls;
    if LinesFrom(t, [f] + fs, off) {
      LinesUnique(t, [f] + fs, [f] + ls, off);
    }
    if AllUncut(t, [f] + ls) {
      forall i | 0 <= i < |ls| ensures LineUncut(t, ls[i]) {
        assert ([f] + ls)[i + 1] == ls[i];
      }
    }
  }

  lemma CutTableIsNotLines(style: Style, t: seq<char>, off: nat)
    requires !style.Wraps() && off <= |t|
    requires !LineUncut(t, FirstLine(t, off))
    ensures !LinesFrom(t, Split(style, t, off), off)
    ensures !AllUncut(t, Lines(t, off))
  {
    var fs, ls := Split(style, t, off), Lines(t, off);
    ScanStops(style, t, off, off);
    LinesAreLines(t, off);
    var e := LineEnd(t, off);
    assert Build(style, t, off) == (off + MAX_FRAGMENT + 1, MAX_FRAGMENT);
    assert !LineUncut(t, ls[0]);
    if e - off == MAX_FRAGMENT {
      assert fs == [Fragment(MAX_FRAGMENT, off)] + Split(style, t, e + 1);
      assert ls == [Fragment(MAX_FRAGMENT, off)] + Lines(t, e + 2);
      assert fs[1].nOffset == e + 1 && ls[1].nOffset == e + 2;
    }
    if LinesFrom(t, fs, off) {
      LinesUnique(t, fs, ls, off);
    }
  }

  /** The cap at work: 1025 plain characters lose the last one to a gap that is no terminator. */
  lemma CapDropsACharacter(style: Style, t: seq<char>)
    requires !style.Wraps()
    requires |t| == MAX_FRAGMENT + 1 && Plain(t, 0, |t|)
    ensures Split(style, t, 0) == [Fragment(MAX_FRAGMENT, 0), Fragment(0, MAX_FRAGMENT + 1)]
    ensures !LinesFrom(t, Split(style, t, 0), 0)
  {
    ScanStops(style, t, 0, 0);
    ScanStops(style, t, |t|, |t|);
    assert Split(style, t, |t| + 1) == [];
    assert Split(style, t, |t|) == [Fragment(0, |t|)];
  }
}
