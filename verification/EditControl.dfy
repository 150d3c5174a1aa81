/**
 The edit control itself (controls/Edit.c, controls/EditDraw.c, controls/EditKey.c): its
 character buffer, its fragment table and its undo record, changed in place.  Every method
 is proved to take the abstract state Abs() through the step of EditModel that bears its
 name; the buffer stays NUL-terminated, and the fragment table stays the split of the text.
 */
module EditControl {
  import opened EditLines
  import opened EditCaret
  import opened EditModel

  const MEM_STEP: nat := 0x20
  const INIT_DATA_SIZE: nat := 32

  class Control {
    const style: Style
    var npdata: array<char>     // memlen cells and one to spare, see InsertChars
    var memlen: nat
    var strlen: nat
    var nMaxLen: nat
    var lpFragments: seq<Fragment>
    var nFragments: int
    var nCurFragment: int
    var lpidx: int
    var anchor: int
    var lastAnchor: int
    var lastidx: int
    var readOnly: bool
    var pUndoBuffer: Undo
    ghost var snap: seq<char>   // the text when pUndoBuffer was last created

    // -------------------------------------------------------------- abstraction

    /** The buffer holds a NUL-terminated string of length strlen, with room for the NUL. */
    ghost predicate BufferOk()
      reads this, npdata
    {
      && npdata.Length == memlen + 1
      && strlen < memlen
      && npdata[strlen] == '\0'
      && NulFree(npdata[..strlen])
      && (pUndoBuffer.Undo? ==> NulFree(pUndoBuffer.del.Text()))
    }

    ghost function Text(): seq<char>
      requires strlen <= npdata.Length
      reads this, npdata
    {
      npdata[..strlen]
    }

    ghost function Abs(): Edit
      requires strlen <= npdata.Length
      reads this, npdata
    {
      Edit(Text(), lpidx, nCurFragment, anchor, lastAnchor, lastidx, pUndoBuffer, snap, readOnly, nMaxLen)
    }

    /** The fragment table is the split of the text, which could be cut to the end. */
    ghost predicate TableOk()
      requires strlen <= npdata.Length
      reads this, npdata
    {
      nFragments == |lpFragments| && lpFragments == Table(style, Text()) && Shows(style, Text())
    }

    ghost predicate Valid()
      reads this, npdata
    {
      && BufferOk()
      && TableOk()
      && style.width != 0
      && CaretOk(style, Abs())
    }

    /** Replacing the recorded range by the saved characters gives back the snapshot. */
    ghost predicate UndoFaithful()
      requires strlen <= npdata.Length
      reads this, npdata
    {
      Faithful(pUndoBuffer, snap, Text())
    }

    static lemma EmptyTable(style: Style)
      ensures Table(style, []) == [Fragment(0, 0)] && Shows(style, [])
      ensures Settled(Table(style, []), 0, 0) && EditCaret.FindLine(Table(style, []), 0) == 0
    {
      assert Build(style, [], 0) == (1, 0);
      assert Split(style, [], 1) == [];
      assert Split(style, [], 0) == [Fragment(0, 0)];
      FindLineIs(Table(style, []), 0, 0, 0);
    }

    /** A new control without text (OnNCCreate). */
    constructor Empty(style: Style)
      requires style.width != 0
      ensures Valid() && fresh(npdata) && this.style == style
      ensures Abs() == Edit([], 0, 0, NO_ANCHOR, lastAnchor, lastidx, NoUndo, snap, false, 65535)
    {
      this.style := style;
      memlen, strlen, nMaxLen := INIT_DATA_SIZE, 0, 65535;
      npdata := new char[INIT_DATA_SIZE + 1](_ => '\0');
      lpFragments, nFragments := [Fragment(0, 0)], 1;
      nCurFragment, lpidx, anchor := 0, 0, NO_ANCHOR;
      readOnly, pUndoBuffer := false, NoUndo;
      new;
      EmptyTable(style);
      assert Text() == [];
    }

    // -------------------------------------------------------------- the fragment table

    /** What the loop of BuildAFragment does at off. */
    static lemma ScanOnce(style: Style, t: seq<char>, start: nat, off: nat)
      requires start <= off <= |t|
      ensures Scan(style, t, start, off) ==
                if off == |t| || off - start >= MAX_FRAGMENT then (off + 1, off - start)
                else if t[off] == '\r' then (if CrLfAt(t, off) then off + 2 else off + 1, off - start)
                else if t[off] == '\n' then (off + 1, off - start)
                else if style.Overflows(t, start, off) then
                  (style.wordBreak(t, off), style.wordBreak(t, off) - start - 1)
                else Scan(style, t, start, off + 1)
    {
    }

    /** One fragment of the text, found by walking along it. */
    method BuildAFragment(pnOffset: nat) returns (next: int, length: int)
      requires BufferOk() && pnOffset <= strlen
      ensures (next, length) == Build(style, Text(), pnOffset)
    {
      hide NulFree, Scan;
      var start, off, n := pnOffset, pnOffset, 1;
      ghost var t := Text();
      while off < strlen && n <= MAX_FRAGMENT
        invariant start <= off <= strlen && n == off - start + 1
        invariant Build(style, t, start) == Scan(style, t, start, off)
      {
        ScanOnce(style, t, start, off);
        assert npdata[off] == t[off];
        if npdata[off] == '\r' {
          off := off + 1;
          if npdata[off] != '\n' {
            off := off - 1;
          }
          assert Build(style, t, start) == (off + 1, n - 1);
          break;
        }
        if npdata[off] == '\n' {
          assert Build(style, t, start) == (off + 1, n - 1);
          break;
        }
        SliceOfPrefix(npdata[..], strlen, start, off + 1);
        if !style.autoHScroll && style.multiline
           && style.extent(npdata[start..off + 1]) % 0x10000 > style.width % 0x10000
        {
          n := style.wordBreak(npdata[..strlen], off) - start;
          off := start + n - 1;
          assert Build(style, t, start) == (off + 1, n - 1);
          break;
        }
        n, off := n + 1, off + 1;
      }
      if start <= off <= strlen {
        ScanOnce(style, t, start, off);
      }
      return off + 1, n - 1;
    }

    /** Entry k of a table whose first k entries are right is cut at off: now k + 1 are. */
    static lemma EntryDone(style: Style, t: seq<char>, fs: seq<Fragment>, k: nat, off: nat, next: int, length: int)
      requires k < |fs| && off <= |t|
      requires fs[..k] + Split(style, t, off) == Split(style, t, 0)
      requires (next, length) == Build(style, t, off) && Ends(style, t, off)
      ensures next > off && Ends(style, t, next)
      ensures fs[k := Fragment(length, off)][..k + 1] + Split(style, t, next) == Split(style, t, 0)
      ensures |Split(style, t, off)| == 1 + |Split(style, t, next)|
    {
      hide Scan, Build, Split, Ends;
      SplitHead(style, t, off, next, length);
      var gs := fs[k := Fragment(length, off)];
      var rest := Split(style, t, next);
      assert gs[..k + 1] == fs[..k] + [Fragment(length, off)];
      assert (fs[..k] + [Fragment(length, off)]) + rest == fs[..k] + ([Fragment(length, off)] + rest);
    }

    static lemma SplitHead(style: Style, t: seq<char>, off: nat, next: int, length: int)
      requires off <= |t| && (next, length) == Build(style, t, off) && Ends(style, t, off)
      ensures next > off && Ends(style, t, next)
      ensures Split(style, t, off) == [Fragment(length, off)] + Split(style, t, next)
    {
      hide Build;
    }

    /** Rebuilds the table from whatever it held: entries that exist are reused, surplus ones
        dropped, missing ones counted, allocated and filled in. */
    method ReformatFragments()
      requires BufferOk() && nFragments == |lpFragments|
      requires style.width != 0 ==> Shows(style, Text())
      modifies this`lpFragments, this`nFragments
      ensures BufferOk() && Abs() == old(Abs())
      ensures style.width != 0 ==> TableOk()
      ensures style.width == 0 ==> unchanged(this)
    {
      if style.width == 0 {
        return;
      }
      var nFrag, nOffset := ReuseEntries();
      assert lpFragments[..nFrag] == if nFrag == nFragments then lpFragments else lpFragments[..nFrag];
      if nFrag < nFragments {
        ShrinkTable(nFrag);
      }
      if nOffset <= strlen {
        GrowTable(nOffset);
      }
    }

    /** The first phase of ReformatFragments: cut as many fragments as the table has entries. */
    method ReuseEntries() returns (nFrag: nat, nOffset: nat)
      requires BufferOk() && nFragments == |lpFragments| && Ends(style, Text(), 0)
      modifies this`lpFragments
      ensures nOffset >= 0 && Ends(style, Text(), nOffset)
      ensures BufferOk() && Abs() == old(Abs()) && nFrag <= nFragments == |lpFragments|
      ensures nOffset <= strlen ==> nFrag == nFragments
      ensures nOffset > strlen ==> Split(style, Text(), nOffset) == []
      ensures lpFragments[..nFrag] + Split(style, Text(), nOffset) == Split(style, Text(), 0)
    {
      hide Scan, Build;
      ghost var t := Text();
      nFrag, nOffset := 0, 0;
      while nOffset <= strlen && nFrag < nFragments
        invariant Abs() == old(Abs()) && BufferOk()
        invariant 0 <= nFrag <= nFragments == |lpFragments| && nOffset >= 0 && Ends(style, t, nOffset)
        invariant lpFragments[..nFrag] + Split(style, t, nOffset) == Split(style, t, 0)
        decreases strlen - nOffset
      {
        var next, length := BuildAFragment(nOffset);
        var fragTemp := Fragment(length, nOffset);
        EntryDone(style, t, lpFragments, nFrag, nOffset, next, length);
        if lpFragments[nFrag] != fragTemp {
          lpFragments := lpFragments[nFrag := fragTemp];
        }
        nOffset, nFrag := next, nFrag + 1;
      }
    }

    /** The middle phase of ReformatFragments: fewer fragments than before. */
    method ShrinkTable(nFrag: nat)
      requires nFragments == |lpFragments| && nFrag < nFragments
      modifies this`lpFragments, this`nFragments
      ensures nFragments == |lpFragments| && lpFragments == old(lpFragments)[..nFrag]
    {
      nFragments := nFragments - 1;
      while nFragments >= nFrag
        invariant nFrag - 1 <= nFragments < |lpFragments| && lpFragments == old(lpFragments)
      {
        nFragments := nFragments - 1;
      }
      nFragments := nFragments + 1;
      lpFragments := lpFragments[..nFragments];
    }

    /** The last phase of ReformatFragments: count the missing fragments, then cut them. */
    method GrowTable(nOffsetOld: nat)
      requires BufferOk() && nFragments == |lpFragments| && nOffsetOld <= strlen && Ends(style, Text(), nOffsetOld)
      requires Shows(style, Text())
      requires lpFragments + Split(style, Text(), nOffsetOld) == Split(style, Text(), 0)
      modifies this`lpFragments, this`nFragments
      ensures BufferOk() && Abs() == old(Abs()) && TableOk()
    {
      ghost var t := Text();
      var nFrag, nOffset := nFragments, nOffsetOld;
      while nOffset <= strlen
        invariant Text() == t && BufferOk()
        invariant nOffset >= 0 && nFragments >= nFrag && lpFragments == old(lpFragments) && Ends(style, t, nOffset)
        invariant nFragments + |Split(style, t, nOffset)| == |Split(style, t, 0)|
        decreases strlen - nOffset
      {
        var next, length := BuildAFragment(nOffset);
        assert |Split(style, t, nOffset)| == 1 + |Split(style, t, next)|;
        nOffset, nFragments := next, nFragments + 1;
      }
      lpFragments := lpFragments + seq(nFragments - nFrag, _ => Fragment(0, 0));
      nOffset := nOffsetOld;
      assert lpFragments[..nFrag] == old(lpFragments);
      while nOffset <= strlen && nFrag < nFragments
        invariant Text() == t && BufferOk()
        invariant 0 <= nFrag <= nFragments == |lpFragments| == |Split(style, t, 0)| && nOffset >= 0
        invariant Ends(style, t, nOffset)
        invariant lpFragments[..nFrag] + Split(style, t, nOffset) == Split(style, t, 0)
        decreases strlen - nOffset
      {
        var next, length := BuildAFragment(nOffset);
        EntryDone(style, t, lpFragments, nFrag, nOffset, next, length);
        lpFragments := lpFragments[nFrag := Fragment(length, nOffset)];
        nOffset, nFrag := next, nFrag + 1;
      }
      assert lpFragments[..nFrag] == lpFragments;
    }

    // -------------------------------------------------------------- the caret

    method FindLine(idx: int) returns (line: int)
      requires nFragments == |lpFragments|
      ensures line == EditCaret.FindLine(lpFragments, idx)
    {
      var i := 0;
      while i < nFragments && lpFragments[i].nOffset <= idx
        invariant 0 <= i <= nFragments
        invariant FindFrom(lpFragments, idx, 0) == FindFrom(lpFragments, idx, i)
      {
        i := i + 1;
      }
      return i - 1;
    }

    method SetEditPosition(position: int, pref: Prefer)
      requires BufferOk() && TableOk()
      modifies this`lpidx, this`nCurFragment
      ensures BufferOk() && TableOk()
      ensures Abs() == Put(style, old(Abs()), position, pref)
    {
      hide Place, Table, FindFrom, TableFrom, Ends, NulFree;
      ghost var e := Abs();
      var nOldFragment, p, how := nCurFragment, position, pref;
      if p < 0 {
        p := 0;
      }
      if p > strlen {
        p := strlen;
      }
      lpidx := p;
      nCurFragment := FindLine(lpidx);
      assert nCurFragment >= 0 by {
        FindFromIsLast(lpFragments, strlen, p, 0);
      }
      if how == Here {
        how := if nCurFragment < nOldFragment then Next else Prev;
      }
      if how == Other {
        how := if nCurFragment < nOldFragment then Prev else Next;
      }
      PlaceParts(lpFragments, strlen, position, pref, nOldFragment, nCurFragment, how);
      LeaveTerminator(how);
      assert Text() == e.text;
    }

    /** The end of SetEditPosition: off from between a CR and its LF. */
    method LeaveTerminator(how: Prefer)
      requires nFragments == |lpFragments| && 0 <= nCurFragment < nFragments
      requires Astray(lpFragments[nCurFragment], lpidx) ==> nCurFragment + 1 < nFragments
      modifies this`lpidx, this`nCurFragment
      ensures var k := old(nCurFragment);
              Caret(lpidx, nCurFragment) ==
                if !Astray(lpFragments[k], old(lpidx)) then Caret(old(lpidx), k)
                else if how == Next then Caret(lpFragments[k + 1].nOffset, k + 1)
                else Caret(lpFragments[k].End(), k)
    {
      var f := lpFragments[nCurFragment];
      if f.nLength != 0 && lpidx - f.nOffset > f.nLength {
        if how == Next {
          nCurFragment := nCurFragment + 1;
          lpidx := lpFragments[nCurFragment].nOffset;
        } else {
          lpidx := f.nOffset + f.nLength;
        }
      }
    }

    // -------------------------------------------------------------- the undo record

    method ClearUndoBuffer()
      modifies this`pUndoBuffer
      ensures pUndoBuffer == NoUndo
    {
      if pUndoBuffer.Undo? {
        pUndoBuffer := NoUndo;
      }
    }

    method SetUndoDelete(nPos: int, pDel: seq<char>)
      requires BufferOk() && 0 <= nPos && nPos + |pDel| <= strlen
      requires pDel == Text()[nPos..nPos + |pDel|] && NulFree(pDel)
      modifies this`pUndoBuffer, this`snap
      ensures BufferOk()
      ensures (pUndoBuffer, snap) == NoteDelete(old(pUndoBuffer), old(snap), Text(), nPos, |pDel|)
    {
      var nLen := |pDel|;
      if pUndoBuffer.Undo? {
        if pUndoBuffer.start != pUndoBuffer.end {
          ClearUndoBuffer();
        } else if pUndoBuffer.start == nPos + nLen {
          pUndoBuffer := Undo(pUndoBuffer.start - nLen, pUndoBuffer.end - nLen, Chars(pDel + pUndoBuffer.del.Text()));
        } else if pUndoBuffer.start == nPos {
          pUndoBuffer := pUndoBuffer.(del := Chars(pUndoBuffer.del.Text() + pDel));
        } else {
          ClearUndoBuffer();
        }
      }
      if pUndoBuffer.NoUndo? {
        pUndoBuffer := Undo(nPos, nPos, Chars(pDel));
        snap := Text();
      }
    }

    method SetUndoInsert(nPos: int, nLen: nat)
      requires BufferOk()
      modifies this`pUndoBuffer, this`snap
      ensures BufferOk()
      ensures (pUndoBuffer, snap) == NoteInsert(old(pUndoBuffer), old(snap), Text(), nPos, nLen)
    {
      if pUndoBuffer.Undo? {
        if pUndoBuffer.end != nPos {
          ClearUndoBuffer();
        }
      }
      if pUndoBuffer.NoUndo? {
        pUndoBuffer := Undo(nPos, nPos, Null);
        snap := Text();
      }
      pUndoBuffer := pUndoBuffer.(end := pUndoBuffer.end + nLen);
    }

    // -------------------------------------------------------------- deleting

    /** The loop of DeleteChars: closes the gap [beg, end) in the first n cells. */
    static method SlideDown(a: array<char>, beg: nat, end: nat, n: nat)
      requires beg <= end <= n <= a.Length
      modifies a
      ensures a[..n - (end - beg)] == Cut(old(a[..n]), beg, end)
    {
      var dn := end - beg;
      ghost var was := a[..n];
      for i := end to n
        invariant forall k | 0 <= k < i - dn :: a[k] == was[if k < beg then k else k + dn]
        invariant forall k | i <= k < n :: a[k] == was[k]
      {
        a[i - dn] := a[i];
      }
      GapClosed(was, a[..n - dn], beg, end);
    }

    static lemma GapClosed(was: seq<char>, b: seq<char>, beg: nat, end: nat)
      requires beg <= end <= |was| && |b| == |was| - (end - beg)
      requires forall k | 0 <= k < |b| :: b[k] == was[if k < beg then k else k + (end - beg)]
      ensures b == Cut(was, beg, end)
    {
    }

    method DeleteChars(beg_idx: int, end_idx: int, bTestReadOnlyStyle: bool)
      requires BufferOk() && TableOk() && style.width != 0
      requires 0 <= beg_idx <= strlen && 0 <= end_idx <= strlen
      requires Shows(style, Delete(style, Abs(), beg_idx, end_idx, bTestReadOnlyStyle).text)
      modifies this, npdata
      ensures BufferOk() && TableOk() && npdata == old(npdata) && memlen == old(memlen) && anchor == old(anchor)
      ensures Abs() == Delete(style, old(Abs()), beg_idx, end_idx, bTestReadOnlyStyle)
    {
      hide Place, Table, Cut, NoteDelete, NulFree, Ends;
      if bTestReadOnlyStyle && readOnly {
        return;
      }
      var begSpot, endSpot := end_idx, beg_idx;
      if beg_idx <= end_idx {
        begSpot, endSpot := beg_idx, end_idx;
      }
      RemoveText(begSpot, endSpot);
      ReformatFragments();
      SetEditPosition(begSpot, Any);
    }

    /** DeleteChars up to the reformatting: the record is brought up to date, then the text goes. */
    method RemoveText(begSpot: nat, endSpot: nat)
      requires BufferOk() && begSpot <= endSpot <= strlen
      modifies this`pUndoBuffer, this`snap, this`strlen, npdata
      ensures BufferOk()
      ensures var e := old(Abs());
              var r := NoteDelete(e.undo, e.snap, e.text, begSpot, endSpot - begSpot);
              Abs() == e.(text := Cut(e.text, begSpot, endSpot), undo := r.0, snap := r.1)
    {
      hide Cut, NoteDelete, NulFree;
      SliceOfPrefix(npdata[..], strlen, begSpot, endSpot);
      NulFreeSlice(Text(), begSpot, endSpot);
      SetUndoDelete(begSpot, npdata[begSpot..endSpot]);
      NulFreeCut(Text(), begSpot, endSpot);
      SlideDown(npdata, begSpot, endSpot, strlen);
      strlen := strlen - (endSpot - begSpot);
      npdata[strlen] := '\0';
    }

    // -------------------------------------------------------------- inserting

    /** Enlarges the buffer until strlen + len fits below memlen. */
    method Reserve(len: nat)
      requires BufferOk()
      modifies this`memlen, this`npdata
      ensures BufferOk() && Text() == old(Text())
      ensures strlen + len < memlen && memlen >= old(memlen)
      ensures memlen != old(memlen) ==> (memlen - old(memlen)) % 32 == 0 && memlen - 32 <= strlen + len
      ensures npdata == old(npdata) || fresh(npdata)
    {
      if strlen + len >= memlen {
        while strlen + len >= memlen
          invariant memlen >= old(memlen) && strlen == old(strlen) && npdata == old(npdata)
          invariant (memlen - old(memlen)) % 32 == 0 && memlen - 32 <= strlen + len
        {
          memlen := memlen + MEM_STEP;
        }
        var grown := new char[memlen + 1](_ => '\0');
        forall i | 0 <= i < npdata.Length {
          grown[i] := npdata[i];
        }
        assert grown[..strlen] == npdata[..strlen];
        npdata := grown;
      }
    }

    /** How many characters of str the length limit and the width of the control let in. */
    method Admit(str: seq<char>) returns (len: nat)
      requires BufferOk() && strlen <= nMaxLen
      ensures len == Taken(style, Text(), nMaxLen, str)
      ensures LetsIn(style, Text(), nMaxLen, str, len)
    {
      TakenLetsIn(style, Text(), nMaxLen, str, Taken(style, Text(), nMaxLen, str));
      len := |str|;
      if strlen + len > nMaxLen {
        len := nMaxLen - strlen;
      }
      if !style.multiline && !style.autoHScroll {
        len := Clip(str, len);
      }
    }

    /** The width loop of InsertChars. */
    method Clip(str: seq<char>, n: nat) returns (len: nat)
      requires BufferOk() && n <= |str|
      ensures len == Shown(style, Text(), str, n)
    {
      len := n;
      var newWidth := style.extent(str[..len]) % 0x10000;
      var curWidth := style.extent(npdata[..strlen]) % 0x10000;
      while len > 0 && (newWidth + curWidth) % 0x10000 > style.width % 0x10000
        invariant len <= n && newWidth == style.extent(str[..len]) % 0x10000
        invariant Shown(style, Text(), str, len) == Shown(style, Text(), str, n)
      {
        assert TooWide(style, Text(), str[..len]);
        len := len - 1;
        newWidth := style.extent(str[..len]) % 0x10000;
      }
    }

    /** The shift loop of InsertChars: opens a gap of len cells at beg.  It starts one cell
        behind the NUL, so it touches cell n + 1 + len. */
    static method SlideUp(a: array<char>, beg: nat, n: nat, len: nat)
      requires beg <= n && n + 1 + len < a.Length
      modifies a
      ensures a[..beg] == old(a[..beg])
      ensures a[beg + len..n + len] == old(a[beg..n])
    {
      var i: int := n + 1;
      ghost var was := a[..];
      while i >= beg
        invariant beg - 1 <= i <= n + 1
        invariant forall k | 0 <= k <= i :: a[k] == was[k]
        invariant forall k | i + len < k <= n + 1 + len :: a[k] == was[k - len]
      {
        a[i + len] := a[i];
        i := i - 1;
      }
      forall k | 0 <= k < n - beg ensures a[beg + len..n + len][k] == was[beg..n][k] {
        assert a[beg + k + len] == was[beg + k];
      }
    }

    /** Writes the first len characters of str into the gap at beg and converts their case. */
    static method FillGap(style: Style, a: array<char>, beg: nat, str: seq<char>, len: nat)
      requires len <= |str| && beg + len <= a.Length
      modifies a
      ensures a[..beg] == old(a[..beg])
      ensures a[beg..beg + len] == Recased(style, str[..len])
      ensures a[beg + len..] == old(a[beg + len..])
    {
      for i := 0 to len
        invariant a[..beg] == old(a[..beg]) && a[beg + len..] == old(a[beg + len..])
        invariant forall k | 0 <= k < i :: a[beg + k] == str[k]
      {
        a[beg + i] := str[i];
      }
      for i := 0 to len
        invariant a[..beg] == old(a[..beg]) && a[beg + len..] == old(a[beg + len..])
        invariant forall k | 0 <= k < i :: a[beg + k] == style.recase(str[k])
        invariant forall k | i <= k < len :: a[beg + k] == str[k]
      {
        a[beg + i] := style.recase(a[beg + i]);
      }
    }

    /** The buffer work of InsertChars: n characters of text, and the part of str that is let in. */
    static method WriteText(style: Style, a: array<char>, n: nat, beg: nat, str: seq<char>, len: nat)
      requires beg <= n && n + 1 + len < a.Length && len <= |str|
      modifies a
      ensures a[..n + len] == Spliced(old(a[..n]), beg, Recased(style, str[..len]))
    {
      ghost var t, s := a[..n], Recased(style, str[..len]);
      SlideUp(a, beg, n, len);
      assert a[..beg] == t[..beg] && a[beg + len..n + len] == t[beg..];
      ghost var tail := a[beg + len..];
      assert tail[..n - beg] == t[beg..];
      FillGap(style, a, beg, str, len);
      ghost var b := a[..n + len];
      assert b[..beg] == a[..beg] == t[..beg];
      assert b[beg..beg + len] == a[beg..beg + len] == s;
      assert b[beg + len..] == a[beg + len..][..n - beg] == t[beg..];
      GapFilled(b, t, beg, s);
    }

    /** InsertChars up to the reformatting, with nothing selected: the record is brought up to
        date with the whole length, then the part that is let in goes into the buffer. */
    method AddText(str: seq<char>) returns (len: nat)
      requires BufferOk() && NulFree(str)
      requires 0 <= lpidx <= strlen <= nMaxLen
      modifies this`pUndoBuffer, this`snap, this`strlen, this`memlen, this`npdata, npdata
      ensures BufferOk() && (npdata == old(npdata) || fresh(npdata)) && memlen >= old(memlen)
      ensures len == Taken(style, old(Text()), nMaxLen, str)
      ensures var e := old(Abs());
              var r := NoteInsert(e.undo, e.snap, e.text, e.lpidx, |str|);
              Abs() == e.(text := Spliced(e.text, e.lpidx, Recased(style, str[..len])), undo := r.0, snap := r.1)
    {
      hide Spliced, Recased, NoteInsert, Taken, NulFree, LetsIn;
      SetUndoInsert(lpidx, |str|);
      len := Admit(str);
      Reserve(len);
      PutIn(str, len);
    }

    /** Writes the first len characters of str into the text, which has room for them. */
    method PutIn(str: seq<char>, len: nat)
      requires BufferOk() && NulFree(str) && len <= |str| && strlen + len < memlen && 0 <= lpidx <= strlen
      modifies this`strlen, npdata
      ensures BufferOk() && Text() == Spliced(old(Text()), lpidx, Recased(style, str[..len]))
    {
      hide Spliced, Recased, NulFree;
      ghost var t := Text();
      WriteText(style, npdata, strlen, lpidx, str, len);
      NulFreeSpliced(style, t, lpidx, str, len);
      strlen := strlen + len;
      npdata[strlen] := '\0';
    }

    static lemma GapFilled(b: seq<char>, t: seq<char>, beg: nat, s: seq<char>)
      requires beg <= |t| && |b| == |t| + |s|
      requires b[..beg] == t[..beg] && b[beg..beg + |s|] == s && b[beg + |s|..] == t[beg..]
      ensures b == Spliced(t, beg, s)
    {
    }

    /** Shifts the table by hand, so that ReformatFragments finds fewer lines changed. */
    method ShiftTable(len: nat)
      requires BufferOk() && nFragments == |lpFragments| && 0 <= nCurFragment < nFragments
      modifies this`lpFragments
      ensures BufferOk() && Abs() == old(Abs()) && nFragments == |lpFragments|
    {
      var f := lpFragments[nCurFragment];
      lpFragments := lpFragments[nCurFragment := f.(nLength := f.nLength + len)];
      for i := nCurFragment + 1 to nFragments
        invariant nFragments == |lpFragments|
      {
        lpFragments := lpFragments[i := lpFragments[i].(nOffset := lpFragments[i].nOffset + len)];
      }
    }

    static lemma InsertHereIs(style: Style, e: Edit, str: seq<char>, mid: Edit)
      requires 0 <= e.lpidx <= |e.text| <= e.maxLen
      requires var r := NoteInsert(e.undo, e.snap, e.text, e.lpidx, |str|);
               var n := Taken(style, e.text, e.maxLen, str);
               mid == e.(text := Spliced(e.text, e.lpidx, Recased(style, str[..n])), undo := r.0, snap := r.1)
      ensures InsertHere(style, e, str) == Put(style, mid, e.lpidx + Taken(style, e.text, e.maxLen, str), Any)
    {
    }

    /** InsertChars once nothing is selected. */
    method InsertAtCaret(str: seq<char>)
      requires BufferOk() && NulFree(str) && style.width != 0
      requires nFragments == |lpFragments| && 0 <= nCurFragment < nFragments
      requires 0 <= lpidx <= strlen <= nMaxLen
      requires Shows(style, InsertHere(style, Abs(), str).text)
      modifies this, npdata
      ensures BufferOk() && TableOk() && (npdata == old(npdata) || fresh(npdata)) && memlen >= old(memlen)
      ensures Abs() == InsertHere(style, old(Abs()), str)
    {
      hide Place, Table, Spliced, NoteInsert, Recased, Taken;
      ghost var e := Abs();
      var len := AddText(str);
      ghost var mid := Abs();
      ShiftTable(len);
      ReformatFragments();
      SetEditPosition(lpidx + len, Any);
      assert Abs() == Put(style, mid, e.lpidx + len, Any);
      InsertHereIs(style, e, str, mid);
    }

    method InsertChars(str: seq<char>, bTestReadOnlyStyle: bool)
      requires Valid() && NulFree(str)
      requires !(bTestReadOnlyStyle && readOnly) ==>
                 && Shows(style, DropSelection(style, Abs()).text)
                 && Shows(style, Insert(style, Abs(), str, bTestReadOnlyStyle).text)
      modifies this, npdata
      ensures Valid() && (npdata == old(npdata) || fresh(npdata)) && memlen >= old(memlen)
      ensures Abs() == Insert(style, old(Abs()), str, bTestReadOnlyStyle)
      ensures old(bTestReadOnlyStyle && readOnly) ==> Text() == old(Text())
      ensures old(!(bTestReadOnlyStyle && readOnly)) ==>
                var d := DropSelection(style, old(Abs()));
                LetsIn(style, d.text, d.maxLen, str, |Text()| - |d.text|)
    {
      hide LetsIn, NulFree, DropSelection, InsertHere, CaretOk;
      if bTestReadOnlyStyle && readOnly {
        return;
      }
      DropSelected(bTestReadOnlyStyle);
      ghost var d := Abs();
      InsertAtCaret(str);
      InsertHereKeepsCaret(style, d, str);
      InsertedLength(style, d, str);
    }

    /** If anything is selected, it is deleted. */
    method DropSelected(bTestReadOnlyStyle: bool)
      requires Valid() && !(bTestReadOnlyStyle && readOnly)
      requires Shows(style, DropSelection(style, Abs()).text)
      modifies this, npdata
      ensures Valid() && npdata == old(npdata) && memlen == old(memlen)
      ensures Abs() == DropSelection(style, old(Abs()))
      ensures 0 <= nCurFragment < nFragments && 0 <= lpidx <= strlen <= nMaxLen
    {
      hide NulFree, Delete, DropSelection, Table, Settled, CaretOk;
      ghost var e := Abs();
      CaretInBounds(style, e);
      DropSelectionIs(style, e, bTestReadOnlyStyle);
      DropSelectionKeepsCaret(style, e);
      if anchor != NO_ANCHOR {
        DeleteChars(lpidx, anchor, bTestReadOnlyStyle);
        anchor := NO_ANCHOR;
      }
      LineInTable(style, Abs());
      CaretInBounds(style, Abs());
    }

    static lemma DropSelectionIs(style: Style, e: Edit, test: bool)
      requires 0 <= e.lpidx <= |e.text| && NO_ANCHOR <= e.anchor <= |e.text| && !(test && e.readOnly)
      ensures DropSelection(style, e) ==
                if e.anchor == NO_ANCHOR then e else Delete(style, e, e.lpidx, e.anchor, test).(anchor := NO_ANCHOR)
    {
    }

    static lemma InsertedLength(style: Style, d: Edit, str: seq<char>)
      requires 0 <= d.lpidx <= |d.text| <= d.maxLen
      ensures LetsIn(style, d.text, d.maxLen, str, |InsertHere(style, d, str).text| - |d.text|)
    {
      hide LetsIn, Place, Table;
      TakenLetsIn(style, d.text, d.maxLen, str, Taken(style, d.text, d.maxLen, str));
    }

    // -------------------------------------------------------------- undo and keys

    method SetAnchorAt(idx: int)
      requires BufferOk()
      modifies this`lastAnchor, this`lastidx, this`anchor
      ensures BufferOk() && Abs() == SetAnchor(old(Abs()), idx)
    {
      lastAnchor, lastidx := anchor, lpidx;
      if anchor == NO_ANCHOR {
        anchor := idx;
      }
    }

    method DropAnchor()
      requires BufferOk()
      modifies this`lastAnchor, this`lastidx, this`anchor
      ensures BufferOk() && Abs() == ClearAnchor(old(Abs()))
    {
      lastAnchor, lastidx := anchor, lpidx;
      anchor := NO_ANCHOR;
    }

    /** DoUndo after the deletion: what was deleted comes back and is selected. */
    method FinishUndo(pUndo: Undo)
      requires BufferOk() && TableOk() && style.width != 0
      requires pUndo.Undo? && 0 <= pUndo.start <= strlen && NulFree(pUndo.del.Text())
      requires CaretOk(style, Abs().(anchor := NO_ANCHOR))
      requires Shows(style, UndoInserts(style, Abs(), pUndo).text)
      modifies this, npdata
      ensures BufferOk() && TableOk() && (npdata == old(npdata) || fresh(npdata))
      ensures Abs() == UndoInserts(style, old(Abs()), pUndo)
      ensures anchor == if pUndo.del.Chars? then pUndo.start else NO_ANCHOR
      ensures NO_ANCHOR <= Abs().anchor <= |Abs().text|
      ensures Abs().maxLen >= |Abs().text|
    {
      hide Insert, Table, Settled;
      if pUndo.del.Chars? {
        anchor := NO_ANCHOR;
        InsertGrows(style, Abs(), pUndo.del.chars, true);
        InsertChars(pUndo.del.chars, true);
        SetAnchorAt(pUndo.start);
      } else {
        DropAnchor();
      }
    }

    /** DoUndo's first step: the record is taken off and what was inserted goes out. */
    method TakeOut() returns (pUndo: Undo)
      requires Valid() && pUndoBuffer.Undo? && InRange(pUndoBuffer, Text())
      requires Shows(style, UndoDeletes(style, Abs()).text)
      modifies this, npdata
      ensures BufferOk() && TableOk() && npdata == old(npdata)
      ensures pUndo == old(pUndoBuffer) && NulFree(pUndo.del.Text()) && pUndo.start <= strlen
      ensures Abs() == UndoDeletes(style, old(Abs())) && CaretOk(style, Abs().(anchor := NO_ANCHOR))
    {
      hide Delete, Table, Settled, Place;
      pUndo := pUndoBuffer;
      pUndoBuffer := NoUndo;
      DeleteFacts(style, Abs(), pUndo.start, pUndo.end, true);
      DeleteKeepsCaret(style, Abs(), pUndo.start, pUndo.end, true);
      DeleteChars(pUndo.start, pUndo.end, true);
    }

    /** DoUndo's last step: the caret is put where it is, on its line. */
    method Settle()
      requires BufferOk() && TableOk() && style.width != 0
      requires Abs().maxLen >= |Abs().text| && NO_ANCHOR <= Abs().anchor <= |Abs().text|
      modifies this`lpidx, this`nCurFragment
      ensures Valid() && Abs() == Put(style, old(Abs()), old(lpidx), Here)
    {
      hide Put, Table, CaretOk;
      PutFacts(style, Abs(), lpidx, Here);
      SetEditPosition(lpidx, Here);
    }

    method UndoLast()
      requires Valid() && InRange(pUndoBuffer, Text())
      requires pUndoBuffer.Undo? ==>
                 Shows(style, UndoDeletes(style, Abs()).text) && Shows(style, DoUndo(style, Abs()).text)
      modifies this, npdata
      ensures Valid() && (npdata == old(npdata) || fresh(npdata))
      ensures Abs() == DoUndo(style, old(Abs()))
      ensures old(pUndoBuffer).Undo? ==>
                anchor == if old(pUndoBuffer).del.Chars? then old(pUndoBuffer).start else NO_ANCHOR
    {
      if pUndoBuffer.NoUndo? {
        return;
      }
      hide UndoDeletes, UndoInserts, Put, Table, NulFree;
      var pUndo := TakeOut();
      FinishUndo(pUndo);
      Settle();
    }

    /** The Backspace key (TextMsg). */
    method BackspaceKey()
      requires Valid()
      requires anchor == NO_ANCHOR && lpidx > 0 ==> BackspaceFrom(Text(), lpidx) >= 0
      requires Shows(style, Backspace(style, Abs()).text)
      modifies this, npdata
      ensures Valid() && npdata == old(npdata)
      ensures Abs() == Backspace(style, old(Abs()))
      ensures old(UndoFaithful()) ==> UndoFaithful()
    {
      hide Delete, Table, CaretOk, NoteDelete;
      ghost var e := Abs();
      CaretInBounds(style, e);
      if UndoFaithful() {
        StepKeepsGood(style, e, OpBackspace);
      }
      if anchor != NO_ANCHOR {
        DeleteKeepsCaret(style, e, anchor, lpidx, true);
        DeleteChars(anchor, lpidx, true);
        anchor := NO_ANCHOR;
        return;
      }
      if lpidx == 0 {
        return;
      }
      var beg := if npdata[lpidx - 1] == '\n' then lpidx - 2 else lpidx - 1;
      assert beg == BackspaceFrom(e.text, e.lpidx);
      DeleteKeepsCaret(style, e, beg, lpidx, true);
      DeleteChars(beg, lpidx, true);
    }

    /** The Delete key, without Shift. */
    method HandleDelete()
      requires Valid()
      requires anchor == NO_ANCHOR && 0 <= lpidx < strlen ==> DeleteTo(Text(), lpidx) <= strlen
      requires Shows(style, DeleteKey(style, Abs()).text)
      modifies this, npdata
      ensures Valid() && npdata == old(npdata)
      ensures Abs() == DeleteKey(style, old(Abs()))
      ensures old(UndoFaithful()) ==> UndoFaithful()
    {
      hide Delete, Table, CaretOk, NoteDelete;
      ghost var e := Abs();
      CaretInBounds(style, e);
      if UndoFaithful() {
        StepKeepsGood(style, e, OpDelete);
      }
      if anchor == NO_ANCHOR {
        if lpidx < strlen {
          var end := if npdata[lpidx] == '\r' then lpidx + 2 else lpidx + 1;
          assert end == DeleteTo(e.text, e.lpidx);
          DeleteKeepsCaret(style, e, lpidx, end, true);
          DeleteChars(lpidx, end, true);
        }
      } else {
        DeleteKeepsCaret(style, e, anchor, lpidx, true);
        DeleteChars(anchor, lpidx, true);
        ClearAnchorKeepsCaret(style, Abs());
        DropAnchor();
      }
    }

    /** With Shift held down, a selection goes on or begins where the caret was; without, there is
        none any more.  What was selected is remembered. */
    predicate Anchored(shift: bool, wasAnchor: int, was: int)
      reads this`anchor, this`lastAnchor, this`lastidx
    {
      && lastAnchor == wasAnchor && lastidx == was
      && anchor == if shift then (if wasAnchor == NO_ANCHOR then was else wasAnchor) else NO_ANCHOR
    }

    /** The Right key without Ctrl. */
    method HandleRight(shift: bool)
      requires Valid()
      modifies this`lpidx, this`nCurFragment, this`anchor, this`lastAnchor, this`lastidx
      ensures Valid()
      ensures Text() == old(Text()) && lpidx == Right(Table(style, Text()), strlen, old(lpidx))
      ensures if old(lpidx) == strlen then anchor == old(anchor) && lastAnchor == old(lastAnchor)
              else Anchored(shift, old(anchor), old(lpidx))
    {
      hide Place, Table, FindFrom, Settled;
      if lpidx == strlen {
        return;
      }
      if shift {
        SetAnchorAt(lpidx);
      } else {
        DropAnchor();
      }
      lpidx := lpidx + 1;
      ghost var e := Abs();
      SetEditPosition(lpidx, Next);
      PutFacts(style, e, e.lpidx, Next);
      NextAndPrevIgnoreOldLine(style, e.text, e.lpidx, e.line);
    }

    /** The Left key without Ctrl. */
    method HandleLeft(shift: bool)
      requires Valid()
      modifies this`lpidx, this`nCurFragment, this`anchor, this`lastAnchor, this`lastidx
      ensures Valid()
      ensures Text() == old(Text()) && lpidx == Left(Table(style, Text()), strlen, old(lpidx))
      ensures if old(lpidx) == 0 then anchor == old(anchor) && lastAnchor == old(lastAnchor)
              else Anchored(shift, old(anchor), old(lpidx))
    {
      hide Place, Table, FindFrom, Settled;
      if lpidx == 0 {
        return;
      }
      if shift {
        SetAnchorAt(lpidx);
      } else {
        DropAnchor();
      }
      lpidx := lpidx - 1;
      ghost var e := Abs();
      SetEditPosition(lpidx, Prev);
      PutFacts(style, e, e.lpidx, Prev);
      NextAndPrevIgnoreOldLine(style, e.text, e.lpidx, e.line);
    }
  }

  /** A single-line control three characters wide that does not scroll: "abc" goes in, and then "d"
      does not. */
  method FullControl(style: Style) returns (c: Control)
    requires style.width == 3 && style.Clips() && forall s :: style.extent(s) == |s|
    requires forall x | x in "abcd" :: style.recase(x) == x
    ensures c.Valid() && c.Text() == "abc"
  {
    hide Control.Valid, DropSelection, Insert, LetsIn, CaretOk;
    c := new Control.Empty(style);
    ghost var three := TypeUnwrapped(c, "abc");
    ThreeGoIn(style, three);
    ghost var caret := c.lpidx;
    ghost var none := TypeUnwrapped(c, "d");
    NoneGoesIn(style, none, caret);
  }

  lemma ThreeGoIn(style: Style, r: nat)
    requires style.width == 3 && style.Clips() && forall s :: style.extent(s) == |s|
    requires forall x | x in "abcd" :: style.recase(x) == x
    requires r <= 3 && LetsIn(style, [], 65535, "abc", r)
    ensures Spliced([], 0, Recased(style, "abc"[..r])) == "abc"
  {
    assert Widths(style, [], "abc", 3) == 3;
    assert r == 3 && "abc"[..3] == "abc";
    assert Recased(style, "abc") == "abc";
  }

  lemma NoneGoesIn(style: Style, r: nat, i: nat)
    requires style.width == 3 && style.Clips() && forall s :: style.extent(s) == |s|
    requires r <= 1 && i <= 3 && LetsIn(style, "abc", 65535, "d", r)
    ensures Spliced("abc", i, Recased(style, "d"[..r])) == "abc"
  {
    assert Widths(style, "abc", "d", 1) == 4;
    assert r == 0 && Recased(style, "d"[..0]) == [];
    assert "abc"[..i] + [] + "abc"[i..] == "abc";
  }

  /** Typing into a control that does not wrap. */
  method TypeUnwrapped(c: Control, s: seq<char>) returns (ghost r: nat)
    requires c.Valid() && !c.style.Wraps() && NulFree(s) && !c.readOnly && c.anchor == NO_ANCHOR
    modifies c, c.npdata
    ensures c.Valid() && !c.readOnly && c.anchor == NO_ANCHOR && c.nMaxLen == old(c.nMaxLen)
    ensures c.npdata == old(c.npdata) || fresh(c.npdata)
    ensures r <= |s| && LetsIn(c.style, old(c.Text()), c.nMaxLen, s, r)
    ensures 0 <= old(c.lpidx) <= |old(c.Text())|
    ensures c.Text() == Spliced(old(c.Text()), old(c.lpidx), Recased(c.style, s[..r]))
  {
    hide Insert, LetsIn;
    ghost var e := c.Abs();
    CaretInBounds(c.style, e);
    EndsUnwrapped(c.style, DropSelection(c.style, e).text, 0);
    EndsUnwrapped(c.style, Insert(c.style, e, s, true).text, 0);
    InsertIs(c.style, e, s);
    r := Taken(c.style, e.text, e.maxLen, s);
    c.InsertChars(s, true);
  }

  lemma InsertIs(style: Style, e: Edit, s: seq<char>)
    requires 0 <= e.lpidx <= |e.text| <= e.maxLen && e.anchor == NO_ANCHOR && !e.readOnly
    ensures var f, r := Insert(style, e, s, true), Taken(style, e.text, e.maxLen, s);
            && LetsIn(style, e.text, e.maxLen, s, r) && r <= |s|
            && f.text == Spliced(e.text, e.lpidx, Recased(style, s[..r]))
            && f.anchor == NO_ANCHOR && !f.readOnly && f.maxLen == e.maxLen
  {
    hide Place, Table, NoteInsert, LetsIn;
    TakenLetsIn(style, e.text, e.maxLen, s, Taken(style, e.text, e.maxLen, s));
  }

  lemma CaretInBounds(style: Style, e: Edit)
    requires CaretOk(style, e)
    ensures 0 <= e.lpidx <= |e.text| <= e.maxLen && NO_ANCHOR <= e.anchor <= |e.text|
  {
  }

  lemma ClearAnchorKeepsCaret(style: Style, e: Edit)
    requires CaretOk(style, e.(anchor := NO_ANCHOR))
    ensures CaretOk(style, ClearAnchor(e))
  {
  }

  lemma NextAndPrevIgnoreOldLine(style: Style, t: seq<char>, p: int, line: int)
    ensures PlaceIn(style, t, p, Next, line) == PlaceIn(style, t, p, Next, 0)
    ensures PlaceIn(style, t, p, Prev, line) == PlaceIn(style, t, p, Prev, 0)
  {
  }

  lemma SliceOfPrefix(s: seq<char>, n: nat, i: nat, j: nat)
    requires i <= j <= n <= |s|
    ensures s[..n][i..j] == s[i..j]
  {
  }

  predicate NulFree(s: seq<char>) { forall i | 0 <= i < |s| :: s[i] != '\0' }

  lemma NulFreeCut(t: seq<char>, i: nat, j: nat)
    requires NulFree(t) && i <= j <= |t|
    ensures NulFree(Cut(t, i, j))
  {
  }

  lemma NulFreeSlice(t: seq<char>, i: nat, j: nat)
    requires NulFree(t) && i <= j <= |t|
    ensures NulFree(t[i..j])
  {
  }

  lemma NulFreeSpliced(style: Style, t: seq<char>, i: nat, s: seq<char>, n: nat)
    requires NulFree(t) && NulFree(s) && i <= |t| && n <= |s|
    ensures NulFree(Spliced(t, i, Recased(style, s[..n])))
  {
  }
}
