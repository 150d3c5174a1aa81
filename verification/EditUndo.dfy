/**
 What one Undo is worth: when DoUndo brings the snapshot back, what a second Undo does,
 and how much typing or deleting one record gathers.
 */
module EditUndo {
  import opened EditLines
  import opened EditCaret
  import opened EditModel

  /** SetEditPosition leaves the caret at i of text t. */
  predicate Lands(style: Style, t: seq<char>, i: nat)
    requires i <= |t|
  {
    Settled(Table(style, t), |t|, i)
  }

  predicate AllCr(s: seq<char>) { forall i | 0 <= i < |s| :: s[i] == '\r' }

  lemma PlaceAny(style: Style, t: seq<char>, i: nat, oldLine: int)
    requires i <= |t|
    ensures var c := PlaceIn(style, t, i, Any, oldLine).idx;
            if Lands(style, t, i) then c == i else c == i - 1 && CrLfAt(t, i - 1)
  {
    PlaceIsSound(Table(style, t), |t|, i, Any, oldLine);
    AstrayIsInsideCrLf(style, t, Table(style, t), i);
  }

  /** The text after DoUndo on a control that can be written. */
  lemma UndoText(style: Style, e: Edit)
    requires Good(style, e) && e.undo.Undo? && !e.readOnly
    ensures var u := e.undo;
            var mid := Cut(e.text, u.start, u.end);
            var i := PlaceIn(style, mid, u.start, Any, e.line).idx;
            DoUndo(style, e).text ==
              if u.del.Null? then mid
              else Spliced(mid, i, Recased(style, u.del.chars[..Taken(style, mid, e.maxLen, u.del.chars)]))
  {
  }

  /** The two strings have their CRs in the same places. */
  predicate SameCrs(l: seq<char>, d: seq<char>) {
    |l| == |d| && forall i | 0 <= i < |d| :: l[i] == '\r' <==> d[i] == '\r'
  }

  /** A CR slid through a string of the same length is noticed unless the string is all CRs. */
  lemma CrSlides(l: seq<char>, d: seq<char>)
    requires SameCrs(l, d)
    ensures l + ['\r'] == ['\r'] + d <==> AllCr(d)
  {
    var x, y := l + ['\r'], ['\r'] + d;
    if AllCr(d) {
      assert x == y;
    }
    if x == y {
      var k := |d|;
      while k > 0
        invariant 0 <= k <= |d|
        invariant forall i | k <= i < |d| :: d[i] == '\r'
      {
        k := k - 1;
        assert x[k + 1] == d[k];
      }
    }
  }

  /** What DoUndo needs of the characters it puts back: they fit, and either the caret comes
      to rest where the record starts and case conversion leaves them as they are, or it is
      pushed off from between a CR and an LF and they are nothing but CRs. */
  predicate Restorable(style: Style, e: Edit)
    requires e.undo.Undo? && InRange(e.undo, e.text) && |e.text| <= e.maxLen
  {
    var mid := Cut(e.text, e.undo.start, e.undo.end);
    e.undo.del.Null? ||
    (Fits(style, mid, e.maxLen, e.undo.del.chars)
     && if Lands(style, mid, e.undo.start) then Recased(style, e.undo.del.chars) == e.undo.del.chars
        else AllCr(e.undo.del.chars))
  }

  /** DoUndo returns the text to the snapshot if and only if the record is restorable. */
  lemma UndoRestoresIff(style: Style, e: Edit)
    requires Good(style, e) && e.undo.Undo? && !e.readOnly
    ensures DoUndo(style, e).text == e.snap <==> Restorable(style, e)
  {
    hide Place, Table, Settled, Insert, Delete, DoUndo, Shown;
    var s := e.undo.start;
    var mid := Cut(e.text, s, e.undo.end);
    assert mid[..s] == e.text[..s] && mid[s..] == e.text[e.undo.end..];
    UndoText(style, e);
    if e.undo.del.Null? {
      assert e.snap == mid;
    } else {
      var d := e.undo.del.chars;
      var n := Taken(style, mid, e.maxLen, d);
      PlaceAny(style, mid, s, e.line);
      if n < |d| {
        assert |DoUndo(style, e).text| == |mid| + n;
      } else {
        assert d[..n] == d;
        hide Taken, Recased;
        PutBackIff(style, mid, s, PlaceIn(style, mid, s, Any, e.line).idx, d);
      }
    }
  }

  /** What was saved goes in at its place, or before the CR in front of it. */
  lemma PutBackIff(style: Style, t: seq<char>, i: nat, at: int, d: seq<char>)
    requires i <= |t| && (at == i || (at == i - 1 && CrLfAt(t, at)))
    ensures Spliced(t, at, Recased(style, d)) == Spliced(t, i, d)
            <==> if at == i then Recased(style, d) == d else AllCr(d)
  {
    if at == i {
      SplicedCancels(t, i, Recased(style, d), d);
    } else {
      StrayInsertion(t, i, Recased(style, d), d);
    }
  }

  /** Text inserted before the CR of a CR LF instead of behind it. */
  lemma StrayInsertion(t: seq<char>, i: nat, l: seq<char>, d: seq<char>)
    requires 0 < i <= |t| && t[i - 1] == '\r' && SameCrs(l, d)
    ensures Spliced(t, i - 1, l) == Spliced(t, i, d) <==> AllCr(d)
  {
    assert t[..i] == t[..i - 1] + ['\r'] && t[i - 1..] == ['\r'] + t[i..];
    assert Spliced(t, i - 1, l) == t[..i - 1] + (l + ['\r']) + t[i..];
    assert Spliced(t, i, d) == t[..i - 1] + (['\r'] + d) + t[i..];
    Cancels(t[..i - 1], l + ['\r'], ['\r'] + d, t[i..]);
    CrSlides(l, d);
  }

  /** The x of "a CR x LF" selected and typed over: the y ends up before the CR. */
  lemma TypedBesideCrLf(style: Style, e: Edit)
    requires Good(style, e) && !e.readOnly && !style.Wraps() && !style.Clips() && e.maxLen >= 4
    requires e.text == "a\rx\n" && e.anchor == 2 && e.lpidx == 3 && style.recase('y') == 'y'
    ensures Insert(style, e, "y", true).text == "ay\r\n"
  {
    hide Place, Table, Settled, NoteInsert, NoteDelete, Shown, Faithful, Split;
    var mid := Cut(e.text, 2, 3);
    assert mid == "a\r\n";
    StrayAtTwo(style);
    PlaceAny(style, mid, 2, e.line);
    assert "y"[..1] == "y" && Recased(style, "y") == "y";
    assert Insert(style, e, "y", true).text == Spliced(mid, PlaceIn(style, mid, 2, Any, e.line).idx, "y");
    assert Spliced(mid, 1, "y") == "ay\r\n";
  }

  /** Two characters typed where one fits: the record covers both, so it can no longer be carried
      out. */
  lemma TruncatedInsertion(style: Style, e: Edit)
    requires Good(style, e) && !e.readOnly && !style.Clips() && e.text == "" && e.anchor == NO_ANCHOR
    requires e.undo == NoUndo && e.maxLen == 1
    ensures var r := Insert(style, e, "ab", true);
            |r.text| == 1 && r.undo == Undo(0, 2, Null) && !Faithful(r.undo, r.snap, r.text)
  {
    hide Place, Table, Settled, Shown;
    InsertFaithfulIff(style, e, "ab", true);
  }

  /** What is typed or pasted takes the place of the selection, as far as it goes in, if and only
      if the caret comes to rest there (or it makes no difference). */
  lemma SelectionIsReplacedIff(style: Style, e: Edit, s: seq<char>)
    requires Good(style, e) && e.anchor != NO_ANCHOR && !e.readOnly
    ensures var i, j := Min(e.lpidx, e.anchor), Max(e.lpidx, e.anchor);
            var mid := Cut(e.text, i, j);
            var put := Recased(style, s[..Taken(style, mid, e.maxLen, s)]);
            Insert(style, e, s, true).text == Spliced(mid, i, put) <==> Lands(style, mid, i) || AllCr(put)
  {
    hide Place, Table, Settled, NoteInsert, NoteDelete, Shown, Faithful;
    var i, j := Min(e.lpidx, e.anchor), Max(e.lpidx, e.anchor);
    var mid := Cut(e.text, i, j);
    var put := Recased(style, s[..Taken(style, mid, e.maxLen, s)]);
    PlaceAny(style, mid, i, e.line);
    assert Insert(style, e, s, true).text == Spliced(mid, PlaceIn(style, mid, i, Any, e.line).idx, put);
    if !Lands(style, mid, i) {
      StrayInsertion(mid, i, put, put);
    }
  }

  lemma SplicedCancels(t: seq<char>, i: nat, a: seq<char>, b: seq<char>)
    requires i <= |t| && |a| == |b|
    ensures Spliced(t, i, a) == Spliced(t, i, b) <==> a == b
  {
    Cancels(t[..i], a, b, t[i..]);
  }

  lemma Cancels(x: seq<char>, a: seq<char>, b: seq<char>, y: seq<char>)
    requires |a| == |b|
    ensures x + a + y == x + b + y <==> a == b
  {
    assert (x + a + y)[|x|..|x| + |a|] == a;
    assert (x + b + y)[|x|..|x| + |b|] == b;
  }

  /** A caret that does not come to rest, at work: the x of "a CR x LF" deleted with the Delete
      key leaves the caret before the CR, and Undo puts the x back there. */
  lemma UndoBesideCrLf(style: Style, e: Edit)
    requires Good(style, e) && !e.readOnly && !style.Wraps() && !style.Clips() && e.maxLen >= 4
    requires e.text == "a\rx\n" && e.lpidx == 2 && e.anchor == NO_ANCHOR && e.undo == NoUndo
    requires style.recase('x') == 'x'
    ensures var d := DeleteKey(style, e);
            && d.text == "a\r\n"
            && 0 <= d.lpidx <= |d.text| <= d.maxLen && InRange(d.undo, d.text)
            && DoUndo(style, d).text == "ax\r\n"
  {
    hide Place, Table, Settled, Faithful, Shown, Split;
    var t, d := "a\r\n", DeleteKey(style, e);
    StepKeepsGood(style, e, OpDelete);
    assert Cut(e.text, 2, 3) == t;
    assert e.text[2..3] == "x";
    assert d.undo == Undo(2, 2, Chars("x"));
    assert Cut(t, 2, 2) == t;
    UndoText(style, d);
    StrayAtTwo(style);
    PlaceAny(style, t, 2, d.line);
    assert "x"[..1] == "x" && Recased(style, "x") == "x";
    assert Spliced(t, 1, "x") == "ax\r\n";
  }

  lemma StrayAtTwo(style: Style)
    requires !style.Wraps()
    ensures !Lands(style, "a\r\n", 2)
  {
    var t := "a\r\n";
    var fs := Table(style, t);
    ScanStops(style, t, 0, 0);
    assert !IsBreak(t[0]) && IsBreak(t[1]) && CrLfAt(t, 1);
    assert LineEnd(t, 0) == LineEnd(t, 1) == 1;
    assert Build(style, t, 0) == (3, 1);
    assert fs == [Fragment(1, 0)] + Split(style, t, 3);
    assert fs[1].nOffset == 3;
    FindLineIs(fs, |t|, 2, 0);
  }

  /** The record that DoUndo leaves behind covers what it put back and saves what it took
      away; its snapshot is the text before the Undo. */
  lemma UndoLeavesRedo(style: Style, e: Edit)
    requires Good(style, e) && e.undo.Undo? && !e.readOnly
    requires Restorable(style, e)
    requires Lands(style, Cut(e.text, e.undo.start, e.undo.end), e.undo.start)
    ensures var r := DoUndo(style, e);
            && Good(style, r)
            && !r.readOnly && r.maxLen == e.maxLen
            && r.snap == e.text
            && r.undo == Undo(e.undo.start, e.undo.start + |e.undo.del.Text()|, Chars(e.text[e.undo.start..e.undo.end]))
  {
    hide Place, Table, Settled, Shown, Recased;
    UndoKeepsGood(style, e);
    PlaceAny(style, Cut(e.text, e.undo.start, e.undo.end), e.undo.start, e.line);
  }

  lemma CutSpliced(t: seq<char>, i: nat, s: seq<char>)
    requires i <= |t|
    ensures Cut(Spliced(t, i, s), i, i + |s|) == t
  {
  }

  /** A second Undo is a redo: it gives back the text before the first, provided what the
      first took away fits back in and is unchanged by case conversion, and only then. */
  lemma UndoTwice(style: Style, e: Edit)
    requires Good(style, e) && e.undo.Undo? && !e.readOnly
    requires Restorable(style, e)
    requires Lands(style, Cut(e.text, e.undo.start, e.undo.end), e.undo.start)
    ensures var r := DoUndo(style, e);
            var gone := e.text[e.undo.start..e.undo.end];
            && 0 <= r.lpidx <= |r.text| <= r.maxLen && InRange(r.undo, r.text)
            && (DoUndo(style, r).text == e.text <==>
                Fits(style, Cut(e.text, e.undo.start, e.undo.end), e.maxLen, gone) && Recased(style, gone) == gone)
  {
    var u := e.undo;
    var r := DoUndo(style, e);
    var mid := Cut(e.text, u.start, u.end);
    UndoLeavesRedo(style, e);
    UndoRestoresIff(style, e);
    assert e.snap == Spliced(mid, u.start, u.del.Text()) by {
      assert mid[..u.start] == e.text[..u.start] && mid[u.start..] == e.text[u.end..];
    }
    CutSpliced(mid, u.start, u.del.Text());
    UndoRestoresIff(style, r);
  }

  /** When the caret does not come to rest at the record's start, what is put back goes in front of
      the CR under a record of its own: a second Undo takes it out again and no more.  With nothing
      to put back, the second Undo is the redo if what was taken away fits and is nothing but CRs. */
  lemma UndoTwiceAstray(style: Style, e: Edit)
    requires Good(style, e) && e.undo.Undo? && !e.readOnly
    requires !Lands(style, Cut(e.text, e.undo.start, e.undo.end), e.undo.start)
    requires e.undo.del.Chars? ==> Fits(style, Cut(e.text, e.undo.start, e.undo.end), e.maxLen, e.undo.del.chars)
    ensures var r := DoUndo(style, e);
            var mid := Cut(e.text, e.undo.start, e.undo.end);
            var gone := e.text[e.undo.start..e.undo.end];
            && Good(style, r)
            && (e.undo.del.Chars? ==>
                  DoUndo(style, r).text == mid && (DoUndo(style, r).text == e.text <==> gone == ""))
            && (e.undo.del.Null? ==>
                  (DoUndo(style, r).text == e.text <==> Fits(style, mid, e.maxLen, gone) && AllCr(gone)))
  {
    hide Place, Table, Settled, Shown;
    var r := DoUndo(style, e);
    StrayRecord(style, e);
    hide DoUndo;
    UndoRestoresIff(style, r);
    if e.undo.del.Null? {
      var mid := Cut(e.text, e.undo.start, e.undo.end);
      assert Cut(r.text, e.undo.start, e.undo.start) == mid;
    }
  }

  /** The record left behind then. */
  lemma StrayRecord(style: Style, e: Edit)
    requires Good(style, e) && e.undo.Undo? && !e.readOnly
    requires !Lands(style, Cut(e.text, e.undo.start, e.undo.end), e.undo.start)
    requires e.undo.del.Chars? ==> Fits(style, Cut(e.text, e.undo.start, e.undo.end), e.maxLen, e.undo.del.chars)
    ensures var r := DoUndo(style, e);
            var mid := Cut(e.text, e.undo.start, e.undo.end);
            var s := e.undo.start;
            && Good(style, r) && !r.readOnly && r.maxLen == e.maxLen
            && (if e.undo.del.Chars?
                then r.snap == mid && r.undo == Undo(s - 1, s - 1 + |e.undo.del.chars|, Null)
                else r.snap == e.text && r.text == mid && r.undo == Undo(s, s, Chars(e.text[s..e.undo.end])))
  {
    hide Place, Table, Settled, Shown;
    UndoKeepsGood(style, e);
    PlaceAny(style, Cut(e.text, e.undo.start, e.undo.end), e.undo.start, e.line);
  }

  // ---------------------------------------------------------------- coalescing

  lemma SplicedTwice(style: Style, t: seq<char>, i: nat, a: seq<char>, b: seq<char>)
    requires i <= |t|
    ensures Spliced(Spliced(t, i, Recased(style, a)), i + |a|, Recased(style, b))
            == Spliced(t, i, Recased(style, a + b))
  {
    SplicedAppends(t, i, Recased(style, a), Recased(style, b));
    assert Recased(style, a + b) == Recased(style, a) + Recased(style, b);
  }

  lemma SplicedAppends(t: seq<char>, i: nat, a: seq<char>, b: seq<char>)
    requires i <= |t|
    ensures Spliced(Spliced(t, i, a), i + |a|, b) == Spliced(t, i, a + b)
  {
    var l, m, r := t[..i], Spliced(t, i, a), t[i..];
    assert m[..i + |a|] == l + a;
    assert m[i + |a|..] == r;
  }

  lemma CutTwice(t: seq<char>, i: nat, j: nat, k: nat)
    requires i <= j <= k <= |t|
    ensures Cut(Cut(t, j, k), i, j) == Cut(t, i, k)
    ensures t[i..j] + t[j..k] == t[i..k]
  {
  }

  predicate NoBreaks(s: seq<char>) { forall i | 0 <= i < |s| :: !IsBreak(s[i]) }

  /** What one key or one paste puts in: a character, CR LF for the Enter key, or any string that
      does not end in a CR. */
  predicate Typed(k: seq<char>) { k != [] && k[|k| - 1] != '\r' }

  /** Everything typed goes in when its turn comes. */
  predicate GoesIn(style: Style, e: Edit, keys: seq<seq<char>>)
    decreases |keys|
  {
    && 0 <= e.lpidx <= |e.text| <= e.maxLen && e.anchor == NO_ANCHOR
    && (keys == [] || (Typed(keys[0]) && Fits(style, e.text, e.maxLen, keys[0])
                       && GoesIn(style, Insert(style, e, keys[0], true), keys[1..])))
  }

  /** Typing one key after the other. */
  function TypeAll(style: Style, e: Edit, keys: seq<seq<char>>): (r: Edit)
    requires GoesIn(style, e, keys)
    decreases |keys|
  {
    if keys == [] then e else TypeAll(style, Insert(style, e, keys[0], true), keys[1..])
  }

  function Joined(keys: seq<seq<char>>): seq<char> {
    if keys == [] then [] else keys[0] + Joined(keys[1..])
  }

  /** What does not end in a CR goes in with the caret behind it. */
  lemma TypeOne(style: Style, e: Edit, k: seq<char>)
    requires Good(style, e) && !e.readOnly && e.anchor == NO_ANCHOR
    requires Typed(k) && Fits(style, e.text, e.maxLen, k)
    ensures var f := Insert(style, e, k, true);
            && Good(style, f)
            && f.text == Spliced(e.text, e.lpidx, Recased(style, k))
            && f.lpidx == e.lpidx + |k|
            && f.anchor == NO_ANCHOR && !f.readOnly && f.maxLen == e.maxLen
            && (f.undo, f.snap) == NoteInsert(e.undo, e.snap, e.text, e.lpidx, |k|)
  {
    InsertFaithfulIff(style, e, k, true);
    hide Taken, Settled, Table, Place, Faithful, Lands;
    var f := Insert(style, e, k, true);
    assert k[..|k|] == k;
    PlaceAny(style, f.text, e.lpidx + |k|, e.line);
    assert f.text[e.lpidx + |k| - 1] == style.recase(k[|k| - 1]);
  }

  /** Typing goes on under one record. */
  lemma {:induction false} TypingGathers(style: Style, e: Edit, keys: seq<seq<char>>)
    requires Good(style, e) && !e.readOnly && GoesIn(style, e, keys)
    requires e.undo.Undo? && e.undo.end == e.lpidx
    ensures var r, s := TypeAll(style, e, keys), Joined(keys);
            && Good(style, r) && !r.readOnly
            && r.text == Spliced(e.text, e.lpidx, Recased(style, s))
            && r.lpidx == e.lpidx + |s|
            && r.snap == e.snap
            && r.undo == e.undo.(end := e.undo.end + |s|)
    decreases |keys|
  {
    hide Place, Table, Settled, Good, Insert, Recased, Spliced, Fits;
    if keys == [] {
      NothingIn(style, e.text, e.lpidx);
    } else {
      var f := Insert(style, e, keys[0], true);
      TypeOne(style, e, keys[0]);
      TypingGathers(style, f, keys[1..]);
      SplicedTwice(style, e.text, e.lpidx, keys[0], Joined(keys[1..]));
    }
  }

  lemma NothingIn(style: Style, t: seq<char>, i: nat)
    requires i <= |t|
    ensures Spliced(t, i, Recased(style, [])) == t
  {
  }

  /** In a control that does not clip, it is enough that the limit leaves room for all of it. */
  lemma {:induction false} RoomIsEnough(style: Style, e: Edit, keys: seq<seq<char>>)
    requires Good(style, e) && !e.readOnly && e.anchor == NO_ANCHOR && !style.Clips()
    requires |e.text| + |Joined(keys)| <= e.maxLen && forall i | 0 <= i < |keys| :: Typed(keys[i])
    ensures GoesIn(style, e, keys)
    decreases |keys|
  {
    if keys != [] {
      hide Place, Table, Settled, Insert, Recased, Good;
      TypeOne(style, e, keys[0]);
      RoomIsEnough(style, Insert(style, e, keys[0], true), keys[1..]);
    }
  }

  /** However much is typed in a row, one Undo takes it all away again. */
  lemma TypingUndoneAtOnce(style: Style, e: Edit, keys: seq<seq<char>>)
    requires Good(style, e) && !e.readOnly && GoesIn(style, e, keys) && keys != []
    requires e.undo.Undo? ==> e.undo.end != e.lpidx
    ensures var r := TypeAll(style, e, keys);
            && r.text == Spliced(e.text, e.lpidx, Recased(style, Joined(keys)))
            && 0 <= r.lpidx <= |r.text| <= r.maxLen && InRange(r.undo, r.text)
            && DoUndo(style, r).text == e.text
  {
    hide Place, Table, Settled, Insert, Recased, Spliced, Fits, DoUndo;
    var f := Insert(style, e, keys[0], true);
    TypeOne(style, e, keys[0]);
    TypingGathers(style, f, keys[1..]);
    SplicedTwice(style, e.text, e.lpidx, keys[0], Joined(keys[1..]));
    UndoRestoresIff(style, TypeAll(style, e, keys));
  }

  lemma LastIsPlain(t: seq<char>, i: nat, n: nat)
    requires 0 < n <= i <= |t| && NoBreaks(t[i - n..i])
    ensures !IsBreak(t[i - 1])
    ensures NoBreaks(t[i - n..i - 1])
    ensures n > 1 ==> !IsBreak(t[i - 2])
  {
    assert t[i - 1] == t[i - n..i][n - 1];
    assert t[i - n..i - 1] == t[i - n..i][..n - 1];
    if n > 1 {
      assert t[i - 2] == t[i - n..i][n - 2];
    }
  }

  /** A plain character backspaced over with other plain characters before it: the caret
      steps back. */
  lemma BackspaceOne(style: Style, e: Edit, n: nat)
    requires 1 < n <= e.lpidx <= |e.text| && e.anchor == NO_ANCHOR && !e.readOnly
    requires NoBreaks(e.text[e.lpidx - n..e.lpidx])
    ensures !IsBreak(e.text[e.lpidx - 1])
    ensures var f := Backspace(style, e);
            && f.text == Cut(e.text, e.lpidx - 1, e.lpidx)
            && f.lpidx == e.lpidx - 1
            && f.anchor == NO_ANCHOR && !f.readOnly && f.maxLen == e.maxLen
            && f.text[f.lpidx - (n - 1)..f.lpidx] == e.text[e.lpidx - n..e.lpidx - 1]
            && NoBreaks(f.text[f.lpidx - (n - 1)..f.lpidx])
  {
    hide Place, Table, Settled, NoteDelete;
    var i := e.lpidx;
    LastIsPlain(e.text, i, n);
    var t := Cut(e.text, i - 1, i);
    PlaceAny(style, t, i - 1, e.line);
    assert t[i - 2] == e.text[i - 2];
    assert t[i - n..i - 1] == e.text[i - n..i - 1];
  }

  /** Pressing Backspace n times over plain characters. */
  function BackspaceTimes(style: Style, e: Edit, n: nat): Edit
    requires n <= e.lpidx <= |e.text| && e.anchor == NO_ANCHOR && !e.readOnly
    requires NoBreaks(e.text[e.lpidx - n..e.lpidx])
    decreases n
  {
    if n == 0 then e
    else
      LastIsPlain(e.text, e.lpidx, n);
      var f := Backspace(style, e);
      if n == 1 then f
      else
        BackspaceOne(style, e, n);
        BackspaceTimes(style, f, n - 1)
  }

  /** The text with its record, apart from the caret. */
  datatype Noted = Noted(text: seq<char>, undo: Undo, snap: seq<char>)

  function NotedIn(e: Edit): Noted { Noted(e.text, e.undo, e.snap) }

  /** Deleting t[i - 1], then t[i - 2], and so on, n times. */
  function EraseBack(x: Noted, i: int, n: nat): Noted
    requires n <= i <= |x.text|
    decreases n
  {
    if n == 0 then x
    else
      var r := NoteDelete(x.undo, x.snap, x.text, i - 1, 1);
      EraseBack(Noted(Cut(x.text, i - 1, i), r.0, r.1), i - 1, n - 1)
  }

  /** Deleting backwards goes on under one record, which gathers the characters in text order. */
  lemma {:induction false} EraseBackGathers(x: Noted, i: int, n: nat)
    requires 0 < n <= i <= |x.text|
    requires x.undo.Undo? && x.undo.start == x.undo.end == i
    ensures EraseBack(x, i, n) ==
              Noted(Cut(x.text, i - n, i), Undo(i - n, i - n, Chars(x.text[i - n..i] + x.undo.del.Text())), x.snap)
    decreases n
  {
    var gone, tail := x.text[i - 1..i], x.undo.del.Text();
    var y := Noted(Cut(x.text, i - 1, i), Undo(i - 1, i - 1, Chars(gone + tail)), x.snap);
    assert EraseBack(x, i, n) == EraseBack(y, i - 1, n - 1);
    if n > 1 {
      EraseBackGathers(y, i - 1, n - 1);
      assert y.text[i - n..i - 1] == x.text[i - n..i - 1];
      CutTwice(x.text, i - n, i - 1, i);
      assert x.text[i - n..i - 1] + (gone + tail) == x.text[i - n..i] + tail;
    }
  }

  lemma BackspaceErases(style: Style, e: Edit, n: nat)
    requires Good(style, e) && !e.readOnly && e.anchor == NO_ANCHOR
    requires 0 < n <= e.lpidx && !IsBreak(e.text[e.lpidx - 1])
    ensures var f := Backspace(style, e);
            && Good(style, f) && !f.readOnly && f.maxLen == e.maxLen && |f.text| == |e.text| - 1
            && EraseBack(NotedIn(e), e.lpidx, n) == EraseBack(NotedIn(f), e.lpidx - 1, n - 1)
  {
    hide Place, Table, Settled, NoteDelete;
    StepKeepsGood(style, e, OpBackspace);
  }

  /** Backspace over plain characters deletes backwards and keeps the state good. */
  lemma {:induction false} BackspacesErase(style: Style, e: Edit, n: nat)
    requires Good(style, e) && !e.readOnly && e.anchor == NO_ANCHOR
    requires n <= e.lpidx && NoBreaks(e.text[e.lpidx - n..e.lpidx])
    ensures var r := BackspaceTimes(style, e, n);
            && Good(style, r) && !r.readOnly && r.maxLen == e.maxLen
            && NotedIn(r) == EraseBack(NotedIn(e), e.lpidx, n)
    decreases n
  {
    hide Place, Table, Settled, NoteDelete, Cut, Faithful, Backspace;
    if n > 0 {
      LastIsPlain(e.text, e.lpidx, n);
      BackspaceErases(style, e, n);
      var f := Backspace(style, e);
      if n > 1 {
        BackspaceOne(style, e, n);
        BackspacesErase(style, f, n - 1);
      }
    }
  }

  /** However many plain characters are backspaced over in a row, one Undo brings them all back,
      provided the place they left is not between a CR and an LF, they fit back in and case
      conversion keeps them. */
  lemma BackspacingUndoneAtOnce(style: Style, e: Edit, n: nat)
    requires Good(style, e) && !e.readOnly && e.anchor == NO_ANCHOR
    requires 0 < n <= e.lpidx && NoBreaks(e.text[e.lpidx - n..e.lpidx])
    requires e.undo.Undo? ==> e.undo.start != e.undo.end || (e.undo.start != e.lpidx && e.undo.start != e.lpidx - 1)
    requires Lands(style, Cut(e.text, e.lpidx - n, e.lpidx), e.lpidx - n)
    requires Fits(style, Cut(e.text, e.lpidx - n, e.lpidx), e.maxLen, e.text[e.lpidx - n..e.lpidx])
    requires Recased(style, e.text[e.lpidx - n..e.lpidx]) == e.text[e.lpidx - n..e.lpidx]
    ensures var r := BackspaceTimes(style, e, n);
            && r.text == Cut(e.text, e.lpidx - n, e.lpidx)
            && 0 <= r.lpidx <= |r.text| <= r.maxLen && InRange(r.undo, r.text)
            && DoUndo(style, r).text == e.text
  {
    hide Place, Table, Settled, Insert, Delete, DoUndo, BackspaceTimes, EraseBack, NoteDelete;
    hide Shown, Faithful, Recased, Lands;
    var i := e.lpidx;
    var gone := e.text[i - n..i];
    BackspacesErase(style, e, n);
    FreshEraseBack(NotedIn(e), i, n);
    var r := BackspaceTimes(style, e, n);
    assert Cut(r.text, i - n, i - n) == r.text;
    UndoRestoresIff(style, r);
  }

  /** The same from a record that the first deletion does not join: a new one is started. */
  lemma FreshEraseBack(x: Noted, i: int, n: nat)
    requires 0 < n <= i <= |x.text|
    requires x.undo.Undo? ==> x.undo.start != x.undo.end || (x.undo.start != i && x.undo.start != i - 1)
    ensures EraseBack(x, i, n) == Noted(Cut(x.text, i - n, i), Undo(i - n, i - n, Chars(x.text[i - n..i])), x.text)
  {
    var y := Noted(Cut(x.text, i - 1, i), Undo(i - 1, i - 1, Chars(x.text[i - 1..i])), x.text);
    assert EraseBack(x, i, n) == EraseBack(y, i - 1, n - 1);
    if n > 1 {
      EraseBackGathers(y, i - 1, n - 1);
      assert y.text[i - n..i - 1] == x.text[i - n..i - 1];
      CutTwice(x.text, i - n, i - 1, i);
    }
  }

  // ---------------------------------------------------------------- keys at the edges

  /** Both exceptions of KeysStayInTextIff can be reached from an empty control. */
  lemma EdgesAreReached(style: Style, e: Edit)
    requires Good(style, e) && e.text == [] && e.anchor == NO_ANCHOR && !e.readOnly && e.maxLen > 0 && !style.Clips()
    ensures var ops := [OpInsert("\r", true), OpMove(0, Any)];
            IsRun(style, e, ops) && Good(style, Run(style, e, ops)) && !Enabled(style, Run(style, e, ops), OpDelete)
    ensures var ops := [OpInsert("\n", true)];
            IsRun(style, e, ops) && Good(style, Run(style, e, ops)) && !Enabled(style, Run(style, e, ops), OpBackspace)
  {
    hide Insert, Run, IsRun, Put, Faithful;
    var cr := Insert(style, e, "\r", true);
    var ops := [OpInsert("\r", true), OpMove(0, Any)];
    OneTyped(style, e, '\r');
    OneTyped(style, e, '\n');
    StepKeepsGood(style, e, ops[0]);
    StepKeepsGood(style, cr, ops[1]);
    PutAtStart(style, cr);
    assert ops[1..] == [OpMove(0, Any)];
    RunOfOne(style, cr, ops[1]);
    RunOfMore(style, e, ops);
    StepKeepsGood(style, e, OpInsert("\n", true));
    RunOfOne(style, e, OpInsert("\n", true));
  }

  lemma PutAtStart(style: Style, e: Edit)
    ensures var r := Put(style, e, 0, Any); r.lpidx == 0 && r.text == e.text && r.anchor == e.anchor
  {
    hide Place, Table;
    PlaceIsSound(Table(style, e.text), |e.text|, 0, Any, e.line);
    PlaceAny(style, e.text, 0, e.line);
  }

  lemma RunOfOne(style: Style, e: Edit, op: Op)
    requires Good(style, e) && Enabled(style, e, op)
    ensures IsRun(style, e, [op]) && Run(style, e, [op]) == Step(style, e, op)
  {
    hide Enabled, Step;
    StepKeepsGood(style, e, op);
    assert [op][1..] == [];
  }

  lemma RunOfMore(style: Style, e: Edit, ops: seq<Op>)
    requires Good(style, e) && ops != [] && Enabled(style, e, ops[0]) && Good(style, Step(style, e, ops[0]))
    requires IsRun(style, Step(style, e, ops[0]), ops[1..])
    ensures IsRun(style, e, ops) && Run(style, e, ops) == Run(style, Step(style, e, ops[0]), ops[1..])
  {
    hide Enabled, Step;
  }

  lemma OneTyped(style: Style, e: Edit, c: char)
    requires Good(style, e) && e.text == [] && e.anchor == NO_ANCHOR && !e.readOnly && e.maxLen > 0 && !style.Clips()
    requires IsBreak(c)
    ensures Enabled(style, e, OpInsert([c], true))
    ensures var f := Insert(style, e, [c], true);
            f.text == [c] && f.lpidx == 1 && f.anchor == NO_ANCHOR
  {
    hide Place, Table, Settled, Faithful, NoteInsert, Shown, Lands;
    assert [c][..1] == [c] && Recased(style, [c]) == [c];
    assert Taken(style, e.text, e.maxLen, [c]) == 1 && DropSelection(style, e) == e;
    hide Taken, DropSelection, Recased;
    assert Spliced(e.text, 0, [c]) == [c];
    PlaceAny(style, [c], 1, e.line);
  }
}
