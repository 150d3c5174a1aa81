/**
 What the keys of the edit control mean together: a run of Delete keys is one record like a run of
 Backspaces, Backspace and Delete take out what one key put in, a control that may only be read
 keeps its text, and Undo selects what it brings back.
 */
module EditKeys {
  import opened EditLines
  import opened EditCaret
  import opened EditModel
  import opened EditUndo

  // ---------------------------------------------------------------- deleting forwards

  /** Deleting the character at i, n times. */
  function EraseForward(x: Noted, i: nat, n: nat): Noted
    requires i + n <= |x.text|
    decreases n
  {
    if n == 0 then x
    else
      var r := NoteDelete(x.undo, x.snap, x.text, i, 1);
      EraseForward(Noted(Cut(x.text, i, i + 1), r.0, r.1), i, n - 1)
  }

  /** Deleting forwards goes on under one record, which gathers the characters in text order. */
  lemma {:induction false} EraseForwardGathers(x: Noted, i: nat, n: nat)
    requires 0 < n && i + n <= |x.text|
    requires x.undo.Undo? && x.undo.start == x.undo.end == i
    ensures EraseForward(x, i, n) ==
              Noted(Cut(x.text, i, i + n), Undo(i, i, Chars(x.undo.del.Text() + x.text[i..i + n])), x.snap)
    decreases n
  {
    var gone, head := x.text[i..i + 1], x.undo.del.Text();
    var y := Noted(Cut(x.text, i, i + 1), Undo(i, i, Chars(head + gone)), x.snap);
    assert EraseForward(x, i, n) == EraseForward(y, i, n - 1);
    if n > 1 {
      EraseForwardGathers(y, i, n - 1);
      CutOneCutRest(x.text, i, n);
      assert (head + gone) + x.text[i + 1..i + n] == head + x.text[i..i + n];
    }
  }

  lemma CutOneCutRest(t: seq<char>, i: nat, n: nat)
    requires 0 < n && i + n <= |t|
    ensures Cut(Cut(t, i, i + 1), i, i + n - 1) == Cut(t, i, i + n)
    ensures Cut(t, i, i + 1)[i..i + n - 1] == t[i + 1..i + n]
    ensures t[i..i + 1] + t[i + 1..i + n] == t[i..i + n]
  {
  }

  /** The same from a record that the first deletion does not join: a new one is started. */
  lemma FreshEraseForward(x: Noted, i: nat, n: nat)
    requires 0 < n && i + n <= |x.text|
    requires x.undo.Undo? ==> x.undo.start != x.undo.end || (x.undo.start != i && x.undo.start != i + 1)
    ensures EraseForward(x, i, n) == Noted(Cut(x.text, i, i + n), Undo(i, i, Chars(x.text[i..i + n])), x.text)
  {
    var y := Noted(Cut(x.text, i, i + 1), Undo(i, i, Chars(x.text[i..i + 1])), x.text);
    assert EraseForward(x, i, n) == EraseForward(y, i, n - 1);
    if n > 1 {
      EraseForwardGathers(y, i, n - 1);
      CutOneCutRest(x.text, i, n);
    }
  }

  /** A deletion at either end of a record's empty range goes on under that record: it keeps the
      snapshot and saves as many characters more as go. */
  lemma DeletionJoins(u: Undo, snap: seq<char>, t: seq<char>, pos: nat, n: nat)
    requires pos + n <= |t| && Faithful(u, snap, t)
    requires u.Undo? && u.start == u.end && (u.start == pos || u.start == pos + n)
    ensures var r := NoteDelete(u, snap, t, pos, n);
            && r.1 == snap && r.0.Undo? && r.0.start == r.0.end == pos
            && |r.0.del.Text()| == |u.del.Text()| + n
            && t[..pos] + r.0.del.Text() + t[pos + n..] == snap
  {
    NoteDeleteFaithful(u, snap, t, pos, n);
    CutSides(t, pos, n);
  }

  /** In a control that can be written, with nothing selected, n plain characters are behind the
      caret. */
  ghost predicate PlainAhead(style: Style, e: Edit, n: nat) {
    && Good(style, e) && !e.readOnly && e.anchor == NO_ANCHOR
    && e.lpidx + n <= |e.text| && NoBreaks(e.text[e.lpidx..e.lpidx + n])
  }

  /** The Delete key over a plain character: if another one follows, the caret stays. */
  lemma DeleteOne(style: Style, e: Edit, n: nat)
    requires PlainAhead(style, e, n) && n > 0
    ensures DeleteTo(e.text, e.lpidx) == e.lpidx + 1
    ensures var f := DeleteKey(style, e);
            && Good(style, f) && !f.readOnly && f.maxLen == e.maxLen
            && f.text == Cut(e.text, e.lpidx, e.lpidx + 1)
            && (n > 1 ==> f.lpidx == e.lpidx && PlainAhead(style, f, n - 1))
            && EraseForward(NotedIn(e), e.lpidx, n) == EraseForward(NotedIn(f), e.lpidx, n - 1)
  {
    hide Place, Table, Settled, NoteDelete, Faithful, NoBreaks;
    var i := e.lpidx;
    FirstIsPlain(e.text, i, n);
    StepKeepsGood(style, e, OpDelete);
    PlaceAny(style, Cut(e.text, i, i + 1), i, e.line);
  }

  lemma FirstIsPlain(t: seq<char>, i: nat, n: nat)
    requires 0 < n && i + n <= |t| && NoBreaks(t[i..i + n])
    ensures !IsBreak(t[i])
    ensures n > 1 ==> !IsBreak(t[i + 1]) && !CrLfAt(Cut(t, i, i + 1), i - 1)
    ensures NoBreaks(Cut(t, i, i + 1)[i..i + n - 1])
  {
    CutOneCutRest(t, i, n);
    assert forall k | i <= k < i + n :: t[k] == t[i..i + n][k - i];
  }

  /** Pressing Delete once. */
  function DeleteOnce(style: Style, e: Edit, n: nat): (f: Edit)
    requires PlainAhead(style, e, n) && n > 0
    ensures f == DeleteKey(style, e)
    ensures n > 1 ==> PlainAhead(style, f, n - 1)
  {
    DeleteOne(style, e, n);
    DeleteKey(style, e)
  }

  /** Pressing Delete n times over plain characters. */
  function DeleteTimes(style: Style, e: Edit, n: nat): Edit
    requires PlainAhead(style, e, n)
    decreases n
  {
    if n == 0 then e
    else if n == 1 then DeleteOnce(style, e, n)
    else DeleteTimes(style, DeleteOnce(style, e, n), n - 1)
  }

  /** The keys delete forwards and keep the state good. */
  lemma {:induction false} DeletesErase(style: Style, e: Edit, n: nat)
    requires PlainAhead(style, e, n) && n > 0
    ensures var r := DeleteTimes(style, e, n);
            && Good(style, r) && !r.readOnly && r.maxLen == e.maxLen
            && NotedIn(r) == EraseForward(NotedIn(e), e.lpidx, n)
    decreases n
  {
    PlainAheadIs(style, e, n);
    hide Good, DeleteKey, PlainAhead, DeleteTo, NoteDelete, Cut;
    DeleteOne(style, e, n);
    if n > 1 {
      DeletesErase(style, DeleteKey(style, e), n - 1);
    } else {
      assert EraseForward(NotedIn(DeleteKey(style, e)), e.lpidx, 0) == NotedIn(DeleteKey(style, e));
    }
  }

  lemma PlainAheadIs(style: Style, e: Edit, n: nat)
    requires PlainAhead(style, e, n)
    ensures 0 <= e.lpidx && e.lpidx + n <= |e.text|
  {
  }

  /** However often Delete is pressed in a row over plain characters, one Undo brings them all back,
      provided their place is not between a CR and an LF, they fit back in and case conversion keeps
      them. */
  lemma DeletingUndoneAtOnce(style: Style, e: Edit, n: nat)
    requires PlainAhead(style, e, n) && n > 0
    requires e.undo.Undo? ==> e.undo.start != e.undo.end || (e.undo.start != e.lpidx && e.undo.start != e.lpidx + 1)
    requires Lands(style, Cut(e.text, e.lpidx, e.lpidx + n), e.lpidx)
    requires Fits(style, Cut(e.text, e.lpidx, e.lpidx + n), e.maxLen, e.text[e.lpidx..e.lpidx + n])
    requires Recased(style, e.text[e.lpidx..e.lpidx + n]) == e.text[e.lpidx..e.lpidx + n]
    ensures var r := DeleteTimes(style, e, n);
            && r.text == Cut(e.text, e.lpidx, e.lpidx + n)
            && 0 <= r.lpidx <= |r.text| <= r.maxLen && InRange(r.undo, r.text)
            && DoUndo(style, r).text == e.text
  {
    var i := e.lpidx;
    DeletesErase(style, e, n);
    FreshEraseForward(NotedIn(e), i, n);
    hide Place, Table, Settled, DoUndo, DeleteTimes, EraseForward, Recased, Lands, Fits;
    var r := DeleteTimes(style, e, n);
    assert Cut(r.text, i, i) == r.text;
    UndoRestoresIff(style, r);
  }

  // ---------------------------------------------------------------- one key and another

  /** Backspace takes out what one key has put in, a character or the CR LF of the Enter key; and
      so does Delete with the caret in front of it. */
  lemma TypedThenErased(style: Style, e: Edit, k: seq<char>)
    requires Good(style, e) && !e.readOnly && e.anchor == NO_ANCHOR && Fits(style, e.text, e.maxLen, k)
    requires k == "\r\n" || (|k| == 1 && !IsBreak(k[0]))
    ensures var f := Insert(style, e, k, true);
            && f.text == Spliced(e.text, e.lpidx, Recased(style, k)) && f.lpidx == e.lpidx + |k|
            && f.anchor == NO_ANCHOR && BackspaceFrom(f.text, f.lpidx) >= 0
            && Backspace(style, f).text == e.text
            && 0 <= e.lpidx < |f.text| && DeleteTo(f.text, e.lpidx) <= |f.text|
            && DeleteKey(style, f.(lpidx := e.lpidx)).text == e.text
  {
    TypeOne(style, e, k);
    KeyInText(style, e.text, e.lpidx, k);
    hide Insert, Place, Table, Settled, NoteDelete, Fits, Good, Spliced, Recased, Cut;
    var f := Insert(style, e, k, true);
    assert DeleteTo(f.text, e.lpidx) == e.lpidx + |k| && BackspaceFrom(f.text, f.lpidx) == e.lpidx;
  }

  lemma KeyInText(style: Style, t: seq<char>, i: nat, k: seq<char>)
    requires i <= |t| && (k == "\r\n" || (|k| == 1 && !IsBreak(k[0])))
    ensures var u := Spliced(t, i, Recased(style, k));
            && |u| == |t| + |k| && Cut(u, i, i + |k|) == t
            && if |k| == 1 then !IsBreak(u[i]) else u[i] == '\r' && u[i + 1] == '\n'
  {
    CutSpliced(t, i, Recased(style, k));
  }

  /** With a selection, either key deletes it, wherever the caret is in it, and nothing is selected any
      more. */
  lemma SelectionGoes(style: Style, e: Edit)
    requires Good(style, e) && !e.readOnly && e.anchor != NO_ANCHOR
    ensures var i, j := Min(e.anchor, e.lpidx), Max(e.anchor, e.lpidx);
            var b, d := Backspace(style, e), DeleteKey(style, e);
            && b.text == d.text == e.text[..i] + e.text[j..]
            && b.anchor == d.anchor == NO_ANCHOR && d.lastAnchor == e.anchor
            && b.lpidx == d.lpidx && (Lands(style, b.text, i) ==> b.lpidx == i)
  {
    hide Place, Table, Settled, NoteDelete;
    PlaceAny(style, Cut(e.text, Min(e.anchor, e.lpidx), Max(e.anchor, e.lpidx)), Min(e.anchor, e.lpidx), e.line);
  }

  /** The keys and Undo leave the text of a control that may only be read alone; what Undo would
      have brought back is lost. */
  lemma ReadOnlyKeepsText(style: Style, e: Edit, op: Op)
    requires CaretOk(style, e) && InRange(e.undo, e.text) && e.readOnly && Enabled(style, e, op)
    requires !op.OpSetText? && !op.OpSetHandle? && (op.OpInsert? ==> op.test)
    ensures Step(style, e, op).text == e.text
    ensures op.OpUndo? ==> Step(style, e, op).undo == NoUndo
    ensures op.OpInsert? || op.OpBackspace? || op.OpDelete? ==>
              Step(style, e, op).undo == e.undo && Step(style, e, op).snap == e.snap
  {
    hide Place, Table, Settled;
  }

  /** WM_SETTEXT and EM_SETHANDLE put the caret in front of their text and leave nothing to undo. */
  lemma TextIsSet(style: Style, e: Edit, s: seq<char>)
    requires CaretOk(style, e) && InRange(e.undo, e.text) && |s| <= e.maxLen
    ensures var r := Step(style, e, OpSetText(s));
            r.text == Recased(style, s) && r.lpidx == 0 && r.anchor == NO_ANCHOR && r.undo == NoUndo
    ensures var r := Step(style, e, OpSetHandle(s));
            r.text == s && r.lpidx == 0 && r.anchor == NO_ANCHOR && r.undo == NoUndo
  {
    hide Put;
    PutAtStart(style, e.(text := Recased(style, s), undo := NoUndo, anchor := NO_ANCHOR));
    PutAtStart(style, e.(text := s, undo := NoUndo, anchor := NO_ANCHOR));
    PutKeeps(style, e.(text := Recased(style, s), undo := NoUndo, anchor := NO_ANCHOR), 0, Any);
    PutKeeps(style, e.(text := s, undo := NoUndo, anchor := NO_ANCHOR), 0, Any);
  }

  lemma PutKeeps(style: Style, e: Edit, p: int, pref: Prefer)
    ensures Put(style, e, p, pref).undo == e.undo
  {
  }

  /** Undo selects what it brings back: the anchor is where the record starts, and the caret behind
      the characters where it can rest there.  If it brings back nothing, nothing is selected. */
  lemma UndoSelects(style: Style, e: Edit)
    requires Good(style, e) && e.undo.Undo? && !e.readOnly && Restorable(style, e)
    requires Lands(style, Cut(e.text, e.undo.start, e.undo.end), e.undo.start)
    ensures var r, n := DoUndo(style, e), |e.undo.del.Text()|;
            && r.anchor == (if e.undo.del.Chars? then e.undo.start else NO_ANCHOR)
            && e.undo.start + n <= |r.text|
            && (Lands(style, r.text, e.undo.start + n) ==> r.lpidx == e.undo.start + n)
  {
    hide Place, Table, Settled, NoteInsert, NoteDelete, Recased;
    var mid := Cut(e.text, e.undo.start, e.undo.end);
    PlaceAny(style, mid, e.undo.start, e.line);
    UndoRests(style, e);
  }

  lemma UndoRests(style: Style, e: Edit)
    requires Good(style, e) && e.undo.Undo? && !e.readOnly && Restorable(style, e)
    requires Lands(style, Cut(e.text, e.undo.start, e.undo.end), e.undo.start)
    ensures var r, n := DoUndo(style, e), |e.undo.del.Text()|;
            e.undo.start + n <= |r.text| && (Lands(style, r.text, e.undo.start + n) ==> r.lpidx == e.undo.start + n)
  {
    var r, n, i := DoUndo(style, e), |e.undo.del.Text()|, e.undo.start;
    UndoText(style, e);
    hide Place, Table, NoteInsert, NoteDelete, Recased;
    var mid := Cut(e.text, i, e.undo.end);
    PlaceAny(style, mid, i, e.line);
    var d := UndoDeletes(style, e);
    assert d.lpidx == i;
    var f := UndoInserts(style, d, e.undo);
    assert f.text == r.text;
    if Lands(style, r.text, i + n) {
      if e.undo.del.Chars? {
        PlaceAny(style, r.text, i + n, d.line);
      }
      assert f.lpidx == i + n;
      StaysPut(style, r.text, i + n, f.line);
    }
  }

  /** A place where the caret can rest is kept with preference here. */
  lemma StaysPut(style: Style, t: seq<char>, i: nat, oldLine: int)
    requires i <= |t| && Lands(style, t, i)
    ensures PlaceIn(style, t, i, Here, oldLine).idx == i
  {
    PlaceIsSound(Table(style, t), |t|, i, Here, oldLine);
  }
}
