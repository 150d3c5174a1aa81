/**
 The text engine of the edit control as a state machine (controls/Edit.c,
 controls/EditKey.c): insertion, deletion, the coalescing undo record and the caret.

 A state carries, beside the fields of the control, the text as it was when the undo
 record was last created.  The theorems say what the record is worth over whole runs.
 EditControl.dfy proves the control's methods, on its character buffer, against the
 steps of this machine.
 */
module EditModel {
  import opened EditLines
  import opened EditCaret

  /** pDelChars: a null pointer, or the characters to put back. */
  datatype Saved = Null | Chars(chars: seq<char>) {
    function Text(): seq<char> { if Null? then [] else chars }
  }

  /** pUndoBuffer: a null pointer, or an undo record. */
  datatype Undo = NoUndo | Undo(start: int, end: int, del: Saved)

  const NO_ANCHOR: int := -1

  datatype Edit = Edit(
    text: seq<char>,
    lpidx: int,
    line: int,
    anchor: int,
    lastAnchor: int,
    lastidx: int,
    undo: Undo,
    snap: seq<char>,      // the text when undo was last created
    readOnly: bool,
    maxLen: nat)

  // ---------------------------------------------------------------- splicing

  function Cut(t: seq<char>, i: int, j: int): seq<char>
    requires 0 <= i <= j <= |t|
  {
    t[..i] + t[j..]
  }

  function Spliced(t: seq<char>, i: int, s: seq<char>): seq<char>
    requires 0 <= i <= |t|
  {
    t[..i] + s + t[i..]
  }

  function Recased(style: Style, s: seq<char>): (r: seq<char>)
    ensures |r| == |s|
    ensures forall i | 0 <= i < |s| :: r[i] == style.recase(s[i])
  {
    seq(|s|, i requires 0 <= i < |s| => style.recase(s[i]))
  }

  // ---------------------------------------------------------------- the undo record

  /** SetUndoDelete: the record and its snapshot when n characters at pos are about to go. */
  function NoteDelete(u: Undo, snap: seq<char>, t: seq<char>, pos: int, n: nat): (Undo, seq<char>)
    requires 0 <= pos && pos + n <= |t|
  {
    var gone := t[pos..pos + n];
    if u.Undo? && u.start == u.end && u.start == pos + n then
      (Undo(u.start - n, u.end - n, Chars(gone + u.del.Text())), snap)
    else if u.Undo? && u.start == u.end && u.start == pos then
      (u.(del := Chars(u.del.Text() + gone)), snap)
    else
      (Undo(pos, pos, Chars(gone)), t)
  }

  /** SetUndoInsert: the record and its snapshot when n characters are about to be put at pos. */
  function NoteInsert(u: Undo, snap: seq<char>, t: seq<char>, pos: int, n: nat): (Undo, seq<char>) {
    if u.Undo? && u.end == pos then (u.(end := u.end + n), snap)
    else (Undo(pos, pos + n, Null), t)
  }

  /** The record can be carried out: its range lies in the text. */
  predicate InRange(u: Undo, t: seq<char>) {
    u.Undo? ==> 0 <= u.start <= u.end <= |t|
  }

  /** Replacing the recorded range by the saved characters gives back the snapshot. */
  predicate Faithful(u: Undo, snap: seq<char>, t: seq<char>) {
    InRange(u, t) && (u.Undo? ==> t[..u.start] + u.del.Text() + t[u.end..] == snap)
  }

  lemma NoteDeleteFaithful(u: Undo, snap: seq<char>, t: seq<char>, pos: int, n: nat)
    requires 0 <= pos && pos + n <= |t|
    requires Faithful(u, snap, t)
    ensures var r := NoteDelete(u, snap, t, pos, n); Faithful(r.0, r.1, Cut(t, pos, pos + n))
  {
    CutSides(t, pos, n);
    var gone, t' := t[pos..pos + n], Cut(t, pos, pos + n);
    hide Cut;
    if u.Undo? && u.start == u.end && u.start == pos + n {
      Regroup(t[..pos], gone, u.del.Text(), t[pos + n..]);
    } else if u.Undo? && u.start == u.end && u.start == pos {
      Regroup(t[..pos], u.del.Text(), gone, t[pos + n..]);
    } else {
      Regroup(t[..pos], gone, [], t[pos + n..]);
      assert t[..pos] + gone == t[..pos + n] && t[..pos + n] + t[pos + n..] == t;
    }
  }

  lemma CutSides(t: seq<char>, pos: int, n: nat)
    requires 0 <= pos && pos + n <= |t|
    ensures var t' := Cut(t, pos, pos + n); |t'| == |t| - n && t'[..pos] == t[..pos] && t'[pos..] == t[pos + n..]
    ensures t[..pos + n] == t[..pos] + t[pos..pos + n] && t[pos..] == t[pos..pos + n] + t[pos + n..]
  {
  }

  lemma Regroup(a: seq<char>, b: seq<char>, c: seq<char>, d: seq<char>)
    ensures a + (b + c) + d == (a + b) + c + d == a + b + (c + d)
  {
  }

  /** The record survives an insertion exactly when all n announced characters went in. */
  lemma NoteInsertFaithfulIff(u: Undo, snap: seq<char>, t: seq<char>, pos: int, n: nat, s: seq<char>)
    requires 0 <= pos <= |t| && |s| <= n
    requires Faithful(u, snap, t)
    ensures var r := NoteInsert(u, snap, t, pos, n); Faithful(r.0, r.1, Spliced(t, pos, s)) <==> |s| == n
  {
    var r := NoteInsert(u, snap, t, pos, n);
    var t' := Spliced(t, pos, s);
    if |s| == n {
      assert t'[r.0.end..] == t[pos..];
      assert t'[..r.0.start] == t[..r.0.start];
      assert t[..pos] + t[pos..] == t;
    } else if InRange(r.0, t') {
      assert |t'[..r.0.start] + r.0.del.Text() + t'[r.0.end..]| == |r.1| + |s| - n;
    }
  }

  // ---------------------------------------------------------------- steps

  function Table(style: Style, t: seq<char>): (fs: seq<Fragment>)
    ensures TableFrom(fs, |t|, 0)
  {
    SplitIsTable(style, t, 0);
    Split(style, t, 0)
  }

  /** ReformatFragments returns for this text. */
  predicate Shows(style: Style, t: seq<char>) { Ends(style, t, 0) }

  function PlaceIn(style: Style, t: seq<char>, position: int, pref: Prefer, oldLine: int): Caret {
    Place(Table(style, t), |t|, position, pref, oldLine)
  }

  /** SetEditPosition. */
  function Put(style: Style, e: Edit, position: int, pref: Prefer): Edit {
    var c := PlaceIn(style, e.text, position, pref, e.line);
    e.(lpidx := c.idx, line := c.line)
  }

  function SetAnchor(e: Edit, idx: int): Edit {
    e.(lastAnchor := e.anchor, lastidx := e.lpidx, anchor := if e.anchor == NO_ANCHOR then idx else e.anchor)
  }

  function ClearAnchor(e: Edit): Edit {
    e.(lastAnchor := e.anchor, lastidx := e.lpidx, anchor := NO_ANCHOR)
  }

  function Min(a: int, b: int): int { if a <= b then a else b }
  function Max(a: int, b: int): int { if a <= b then b else a }

  /** DeleteChars. */
  function Delete(style: Style, e: Edit, beg: int, end: int, test: bool): Edit
    requires 0 <= beg <= |e.text| && 0 <= end <= |e.text|
  {
    if test && e.readOnly then e
    else
      var i, j := Min(beg, end), Max(beg, end);
      var r := NoteDelete(e.undo, e.snap, e.text, i, j - i);
      Put(style, e.(text := Cut(e.text, i, j), undo := r.0, snap := r.1), i, Any)
  }

  /** s and t together are wider than the control, in the 16-bit arithmetic of InsertChars. */
  predicate TooWide(style: Style, t: seq<char>, s: seq<char>) {
    (style.extent(s) % 0x10000 + style.extent(t) % 0x10000) % 0x10000 > style.width % 0x10000
  }

  /** The width loop of InsertChars: the longest prefix of s, up to n characters, that the
      control shows beside its present text. */
  function Shown(style: Style, t: seq<char>, s: seq<char>, n: nat): (r: nat)
    requires n <= |s|
    ensures r <= n
  {
    if n > 0 && TooWide(style, t, s[..n]) then Shown(style, t, s, n - 1) else n
  }

  /** How many characters of s InsertChars really puts into t. */
  function Taken(style: Style, t: seq<char>, maxLen: nat, s: seq<char>): (r: nat)
    requires |t| <= maxLen
    ensures r <= |s| && |t| + r <= maxLen
  {
    var n := if |t| + |s| > maxLen then maxLen - |t| else |s|;
    if style.Clips() then Shown(style, t, s, n) else n
  }

  /** The width of t with the first k characters of s, in the 16-bit words they are added in. */
  function Widths(style: Style, t: seq<char>, s: seq<char>, k: nat): nat
    requires k <= |s|
  {
    (style.extent(s[..k]) % 0x10000 + style.extent(t) % 0x10000) % 0x10000
  }

  /** r is all that the length limit leaves room for, or in a control that clips the most of it
      that is no wider than the control together with the text; nothing may still be too wide. */
  ghost predicate LetsIn(style: Style, t: seq<char>, maxLen: nat, s: seq<char>, r: int) {
    var n := if |t| + |s| > maxLen then maxLen - |t| else |s|;
    if style.Clips() then
      && 0 <= r <= n
      && (r > 0 ==> Widths(style, t, s, r) <= style.width % 0x10000)
      && (forall k: nat | r < k <= n :: Widths(style, t, s, k) > style.width % 0x10000)
    else r == n
  }

  /** InsertChars lets in just that much, and there is only one such number. */
  lemma TakenLetsIn(style: Style, t: seq<char>, maxLen: nat, s: seq<char>, r: int)
    requires |t| <= maxLen
    ensures LetsIn(style, t, maxLen, s, r) <==> r == Taken(style, t, maxLen, s)
  {
    var n := if |t| + |s| > maxLen then maxLen - |t| else |s|;
    ShownIsLongest(style, t, s, n);
  }

  lemma {:induction false} ShownIsLongest(style: Style, t: seq<char>, s: seq<char>, n: nat)
    requires n <= |s|
    ensures var r := Shown(style, t, s, n);
            && (r > 0 ==> Widths(style, t, s, r) <= style.width % 0x10000)
            && (forall k | r < k <= n :: Widths(style, t, s, k) > style.width % 0x10000)
  {
    if n > 0 && TooWide(style, t, s[..n]) {
      ShownIsLongest(style, t, s, n - 1);
    }
  }

  predicate Fits(style: Style, t: seq<char>, maxLen: nat, s: seq<char>)
    requires |t| <= maxLen
  {
    Taken(style, t, maxLen, s) == |s|
  }

  /** InsertChars once nothing is selected any more. */
  function InsertHere(style: Style, e: Edit, s: seq<char>): Edit
    requires 0 <= e.lpidx <= |e.text| <= e.maxLen
  {
    var r := NoteInsert(e.undo, e.snap, e.text, e.lpidx, |s|);
    var n := Taken(style, e.text, e.maxLen, s);
    var t := Spliced(e.text, e.lpidx, Recased(style, s[..n]));
    Put(style, e.(text := t, undo := r.0, snap := r.1), e.lpidx + n, Any)
  }

  /** The selection goes first. */
  function DropSelection(style: Style, e: Edit): (d: Edit)
    requires 0 <= e.lpidx <= |e.text| && NO_ANCHOR <= e.anchor <= |e.text|
    ensures |d.text| <= |e.text| && 0 <= d.lpidx <= |d.text| && d.anchor == NO_ANCHOR && d.maxLen == e.maxLen
  {
    if e.anchor == NO_ANCHOR then e
    else
      var i := Min(e.lpidx, e.anchor);
      var t := Cut(e.text, i, Max(e.lpidx, e.anchor));
      PlaceIsSound(Table(style, t), |t|, i, Any, e.line);
      Delete(style, e, e.lpidx, e.anchor, false).(anchor := NO_ANCHOR)
  }

  /** InsertChars. */
  function Insert(style: Style, e: Edit, s: seq<char>, test: bool): Edit
    requires 0 <= e.lpidx <= |e.text| <= e.maxLen && NO_ANCHOR <= e.anchor <= |e.text|
  {
    if test && e.readOnly then e else InsertHere(style, DropSelection(style, e), s)
  }

  lemma InsertGrows(style: Style, e: Edit, s: seq<char>, test: bool)
    requires 0 <= e.lpidx <= |e.text| <= e.maxLen && e.anchor == NO_ANCHOR
    ensures |Insert(style, e, s, test).text| >= |e.text| && Insert(style, e, s, test).anchor == NO_ANCHOR
  {
    hide Place, Table, NoteInsert;
  }

  /** The range that the Backspace key hands to DeleteChars, with nothing selected. */
  function BackspaceFrom(t: seq<char>, i: int): int
    requires 0 < i <= |t|
  {
    if t[i - 1] == '\n' then i - 2 else i - 1
  }

  /** The range that the Delete key hands to DeleteChars, with nothing selected. */
  function DeleteTo(t: seq<char>, i: int): int
    requires 0 <= i < |t|
  {
    if t[i] == '\r' then i + 2 else i + 1
  }

  /** DeleteChars leaves it to its callers that the range is in the text.  The two keys see to
      that except behind a line feed that starts the text and before a carriage return that ends it. */
  lemma KeysStayInTextIff(t: seq<char>, i: int)
    requires 0 <= i <= |t|
    ensures 0 < i ==> (BackspaceFrom(t, i) >= 0 <==> !(i == 1 && t[0] == '\n'))
    ensures i < |t| ==> (DeleteTo(t, i) <= |t| <==> !(i + 1 == |t| && t[i] == '\r'))
  {
  }

  /** Backspace (TextMsg). */
  function Backspace(style: Style, e: Edit): Edit
    requires 0 <= e.lpidx <= |e.text| && NO_ANCHOR <= e.anchor <= |e.text|
    requires e.anchor == NO_ANCHOR && e.lpidx > 0 ==> BackspaceFrom(e.text, e.lpidx) >= 0
  {
    if e.anchor != NO_ANCHOR then Delete(style, e, e.anchor, e.lpidx, true).(anchor := NO_ANCHOR)
    else if e.lpidx == 0 then e
    else Delete(style, e, BackspaceFrom(e.text, e.lpidx), e.lpidx, true)
  }

  /** HandleDelete. */
  function DeleteKey(style: Style, e: Edit): Edit
    requires 0 <= e.lpidx <= |e.text| && NO_ANCHOR <= e.anchor <= |e.text|
    requires e.anchor == NO_ANCHOR && e.lpidx < |e.text| ==> DeleteTo(e.text, e.lpidx) <= |e.text|
  {
    if e.anchor != NO_ANCHOR then ClearAnchor(Delete(style, e, e.anchor, e.lpidx, true))
    else if e.lpidx < |e.text| then Delete(style, e, e.lpidx, DeleteTo(e.text, e.lpidx), true)
    else e
  }

  /** ClearUndoBuffer and ResetEditControl, with another text in the buffer. */
  function ResetTo(style: Style, e: Edit, t: seq<char>): Edit {
    Put(style, e.(text := t, undo := NoUndo, anchor := NO_ANCHOR), 0, Any)
  }

  /** DoUndo up to the insertion: the record is taken away and what it covers deleted. */
  function UndoDeletes(style: Style, e: Edit): Edit
    requires e.undo.Undo? && InRange(e.undo, e.text)
  {
    Delete(style, e.(undo := NoUndo), e.undo.start, e.undo.end, true)
  }

  /** The rest of DoUndo but for the caret: what u saved comes back and is selected. */
  function UndoInserts(style: Style, d: Edit, u: Undo): Edit
    requires u.Undo? && 0 <= d.lpidx <= |d.text| <= d.maxLen
  {
    if u.del.Null? then ClearAnchor(d)
    else SetAnchor(Insert(style, d.(anchor := NO_ANCHOR), u.del.chars, true), u.start)
  }

  /** DoUndo. */
  function DoUndo(style: Style, e: Edit): Edit
    requires 0 <= e.lpidx <= |e.text| <= e.maxLen
    requires InRange(e.undo, e.text)
  {
    if e.undo.NoUndo? then e
    else
      var d := UndoDeletes(style, e);
      DeleteFacts(style, e.(undo := NoUndo), e.undo.start, e.undo.end, true);
      var r := UndoInserts(style, d, e.undo);
      Put(style, r, r.lpidx, Here)
  }

  // ---------------------------------------------------------------- what each step keeps

  /** A caret that SetEditPosition left behind, and an anchor inside the text. */
  ghost predicate CaretOk(style: Style, e: Edit) {
    && 0 <= e.lpidx <= |e.text| <= e.maxLen
    && NO_ANCHOR <= e.anchor <= |e.text|
    && e.line == FindLine(Table(style, e.text), e.lpidx)
    && Settled(Table(style, e.text), |e.text|, e.lpidx)
  }

  ghost predicate Good(style: Style, e: Edit) {
    CaretOk(style, e) && Faithful(e.undo, e.snap, e.text)
  }

  lemma PutFacts(style: Style, e: Edit, position: int, pref: Prefer)
    requires |e.text| <= e.maxLen && NO_ANCHOR <= e.anchor <= |e.text|
    ensures CaretOk(style, Put(style, e, position, pref))
  {
    PlaceIsSound(Table(style, e.text), |e.text|, position, pref, e.line);
  }

  lemma DeleteFacts(style: Style, e: Edit, beg: int, end: int, test: bool)
    requires 0 <= e.lpidx <= |e.text| && 0 <= beg <= |e.text| && 0 <= end <= |e.text|
    ensures var d := Delete(style, e, beg, end, test);
            0 <= d.lpidx <= |d.text| <= |e.text| && Min(beg, end) <= |d.text| && d.maxLen == e.maxLen
  {
    var i := Min(beg, end);
    var t := Cut(e.text, i, Max(beg, end));
    PlaceIsSound(Table(style, t), |t|, i, Any, e.line);
  }

  /** DeleteChars keeps the record faithful, whatever range it is given. */
  lemma DeleteKeepsFaithful(style: Style, e: Edit, beg: int, end: int, test: bool)
    requires 0 <= beg <= |e.text| && 0 <= end <= |e.text|
    requires Faithful(e.undo, e.snap, e.text)
    ensures var d := Delete(style, e, beg, end, test); Faithful(d.undo, d.snap, d.text)
  {
    hide Place, Table, NoteDelete;
    var i, j := Min(beg, end), Max(beg, end);
    NoteDeleteFaithful(e.undo, e.snap, e.text, i, j - i);
  }

  /** The whole state after a deletion whose anchor is then dropped or was not set. */
  lemma DeleteKeepsGood(style: Style, e: Edit, beg: int, end: int, test: bool)
    requires Good(style, e) && 0 <= beg <= |e.text| && 0 <= end <= |e.text|
    ensures Good(style, Delete(style, e, beg, end, test).(anchor := NO_ANCHOR))
  {
    var i, j := Min(beg, end), Max(beg, end);
    var r := NoteDelete(e.undo, e.snap, e.text, i, j - i);
    DeleteKeepsFaithful(style, e, beg, end, test);
    PutFacts(style, e.(text := Cut(e.text, i, j), undo := r.0, snap := r.1, anchor := NO_ANCHOR), i, Any);
  }

  lemma InsertKeepsCaret(style: Style, e: Edit, s: seq<char>, test: bool)
    requires CaretOk(style, e)
    ensures CaretOk(style, Insert(style, e, s, test))
  {
    DropSelectionKeepsCaret(style, e);
    InsertHereKeepsCaret(style, DropSelection(style, e), s);
  }

  lemma DropSelectionKeepsGood(style: Style, e: Edit)
    requires Good(style, e)
    ensures Good(style, DropSelection(style, e))
  {
    if e.anchor != NO_ANCHOR {
      DeleteKeepsGood(style, e, e.lpidx, e.anchor, false);
    }
  }

  lemma LineInTable(style: Style, e: Edit)
    requires CaretOk(style, e)
    ensures 0 <= e.line < |Table(style, e.text)|
  {
    FindFromIsLast(Table(style, e.text), |e.text|, e.lpidx, 0);
  }

  lemma DropSelectionKeepsCaret(style: Style, e: Edit)
    requires CaretOk(style, e)
    ensures CaretOk(style, DropSelection(style, e))
  {
    if e.anchor != NO_ANCHOR {
      var i, j := Min(e.lpidx, e.anchor), Max(e.lpidx, e.anchor);
      var r := NoteDelete(e.undo, e.snap, e.text, i, j - i);
      PutFacts(style, e.(text := Cut(e.text, i, j), undo := r.0, snap := r.1, anchor := NO_ANCHOR), i, Any);
    }
  }

  lemma InsertHereKeepsCaret(style: Style, e: Edit, s: seq<char>)
    requires CaretOk(style, e)
    ensures CaretOk(style, InsertHere(style, e, s))
  {
    var n := Taken(style, e.text, e.maxLen, s);
    var u := NoteInsert(e.undo, e.snap, e.text, e.lpidx, |s|);
    PutFacts(style, e.(text := Spliced(e.text, e.lpidx, Recased(style, s[..n])), undo := u.0, snap := u.1,
                       anchor := e.anchor), e.lpidx + n, Any);
  }

  /** InsertChars keeps the record faithful if and only if nothing of the insertion is cut off
      by the length limit or by the width of the control. */
  lemma InsertFaithfulIff(style: Style, e: Edit, s: seq<char>, test: bool)
    requires Good(style, e) && !(test && e.readOnly)
    ensures var d := DropSelection(style, e);
            var r := Insert(style, e, s, test);
            && CaretOk(style, r)
            && (Faithful(r.undo, r.snap, r.text) <==> Fits(style, d.text, d.maxLen, s))
  {
    InsertKeepsCaret(style, e, s, test);
    DropSelectionKeepsGood(style, e);
    InsertHereFaithfulIff(style, DropSelection(style, e), s);
  }

  lemma InsertHereFaithfulIff(style: Style, e: Edit, s: seq<char>)
    requires Good(style, e)
    ensures var r := InsertHere(style, e, s);
            Faithful(r.undo, r.snap, r.text) <==> Fits(style, e.text, e.maxLen, s)
  {
    hide Place, Table, Faithful, NoteInsert;
    var n := Taken(style, e.text, e.maxLen, s);
    NoteInsertFaithfulIff(e.undo, e.snap, e.text, e.lpidx, |s|, Recased(style, s[..n]));
  }

  /** The caret part of DeleteKeepsGood, which needs nothing of the record. */
  lemma DeleteKeepsCaret(style: Style, e: Edit, beg: int, end: int, test: bool)
    requires CaretOk(style, e) && 0 <= beg <= |e.text| && 0 <= end <= |e.text|
    ensures CaretOk(style, Delete(style, e, beg, end, test).(anchor := NO_ANCHOR))
  {
    var i, j := Min(beg, end), Max(beg, end);
    var r := NoteDelete(e.undo, e.snap, e.text, i, j - i);
    PutFacts(style, e.(text := Cut(e.text, i, j), undo := r.0, snap := r.1, anchor := NO_ANCHOR), i, Any);
  }

  // ---------------------------------------------------------------- runs

  datatype Op =
    | OpInsert(s: seq<char>, test: bool)     // typing, pasting, EM_REPLACESEL
    | OpBackspace
    | OpDelete
    | OpUndo
    | OpMove(position: int, pref: Prefer)    // arrow keys, mouse, EM_SETSEL's caret
    | OpAnchor(idx: int)
    | OpClearAnchor
    | OpEmptyUndo
    | OpReadOnly(on: bool)
    | OpLimit(n: nat)
    | OpSetText(s: seq<char>)                // WM_SETTEXT
    | OpSetHandle(s: seq<char>)              // EM_SETHANDLE, with s in the buffer

  /** The call is one the control's own code can make without leaving the buffer, and what it
      inserts fits. */
  predicate Enabled(style: Style, e: Edit, op: Op)
    requires 0 <= e.lpidx <= |e.text| <= e.maxLen && NO_ANCHOR <= e.anchor <= |e.text|
    requires InRange(e.undo, e.text)
  {
    match op
    case OpInsert(s, test) => (test && e.readOnly) || Fits(style, DropSelection(style, e).text, e.maxLen, s)
    case OpBackspace => e.anchor == NO_ANCHOR && e.lpidx > 0 ==> BackspaceFrom(e.text, e.lpidx) >= 0
    case OpDelete => e.anchor == NO_ANCHOR && e.lpidx < |e.text| ==> DeleteTo(e.text, e.lpidx) <= |e.text|
    case OpUndo => e.undo.Undo? && e.undo.del.Chars? && !e.readOnly ==>
      Fits(style, Cut(e.text, e.undo.start, e.undo.end), e.maxLen, e.undo.del.chars)
    case OpAnchor(idx) => 0 <= idx <= |e.text|
    case OpLimit(n) => |e.text| <= n
    case OpSetText(s) => |s| <= e.maxLen
    case OpSetHandle(s) => |s| <= e.maxLen
    case _ => true
  }

  function Step(style: Style, e: Edit, op: Op): Edit
    requires 0 <= e.lpidx <= |e.text| <= e.maxLen && NO_ANCHOR <= e.anchor <= |e.text|
    requires InRange(e.undo, e.text)
    requires Enabled(style, e, op)
  {
    match op
    case OpInsert(s, test) => Insert(style, e, s, test)
    case OpBackspace => Backspace(style, e)
    case OpDelete => DeleteKey(style, e)
    case OpUndo => DoUndo(style, e)
    case OpMove(position, pref) => Put(style, e, position, pref)
    case OpAnchor(idx) => SetAnchor(e, idx)
    case OpClearAnchor => ClearAnchor(e)
    case OpEmptyUndo => e.(undo := NoUndo)
    case OpReadOnly(on) => e.(readOnly := on)
    case OpLimit(n) => e.(maxLen := n)
    case OpSetText(s) => ResetTo(style, e, Recased(style, s))
    case OpSetHandle(s) => ResetTo(style, e, s)
  }

  lemma UndoKeepsGood(style: Style, e: Edit)
    requires Good(style, e) && Enabled(style, e, OpUndo)
    ensures Good(style, DoUndo(style, e))
  {
    if e.undo.Undo? {
      var c := e.(undo := NoUndo);
      DeleteKeepsGood(style, c, e.undo.start, e.undo.end, true);
      var d := UndoDeletes(style, e);
      if e.undo.del.Null? {
        PutFacts(style, ClearAnchor(d), d.lpidx, Here);
      } else {
        var f := d.(anchor := NO_ANCHOR);
        if !e.readOnly {
          InsertFaithfulIff(style, f, e.undo.del.chars, true);
        }
        var g := Insert(style, f, e.undo.del.chars, true);
        PutFacts(style, SetAnchor(g, e.undo.start), g.lpidx, Here);
      }
    }
  }

  lemma StepKeepsGood(style: Style, e: Edit, op: Op)
    requires Good(style, e) && Enabled(style, e, op)
    ensures Good(style, Step(style, e, op))
  {
    match op
    case OpInsert(s, test) =>
      if !(test && e.readOnly) {
        InsertFaithfulIff(style, e, s, test);
      }
    case OpBackspace =>
      if e.anchor != NO_ANCHOR {
        DeleteKeepsGood(style, e, e.anchor, e.lpidx, true);
      } else if e.lpidx > 0 {
        DeleteKeepsGood(style, e, BackspaceFrom(e.text, e.lpidx), e.lpidx, true);
      }
    case OpDelete =>
      if e.anchor != NO_ANCHOR {
        DeleteKeepsGood(style, e, e.anchor, e.lpidx, true);
      } else if e.lpidx < |e.text| {
        DeleteKeepsGood(style, e, e.lpidx, DeleteTo(e.text, e.lpidx), true);
      }
    case OpUndo => UndoKeepsGood(style, e);
    case OpMove(position, pref) => PutFacts(style, e, position, pref);
    case OpSetText(s) => PutFacts(style, e.(text := Recased(style, s), undo := NoUndo, anchor := NO_ANCHOR), 0, Any);
    case OpSetHandle(s) => PutFacts(style, e.(text := s, undo := NoUndo, anchor := NO_ANCHOR), 0, Any);
    case _ =>
  }

  /** A run: every operation is one its state enables. */
  ghost predicate IsRun(style: Style, e: Edit, ops: seq<Op>)
    requires Good(style, e)
    decreases ops
  {
    ops == [] ||
    (Enabled(style, e, ops[0])
     && (StepKeepsGood(style, e, ops[0]); IsRun(style, Step(style, e, ops[0]), ops[1..])))
  }

  ghost function Run(style: Style, e: Edit, ops: seq<Op>): Edit
    requires Good(style, e) && IsRun(style, e, ops)
    decreases ops
  {
    if ops == [] then e
    else
      StepKeepsGood(style, e, ops[0]);
      Run(style, Step(style, e, ops[0]), ops[1..])
  }

  /** After every run the caret is settled and the record still undoes to the text it was
      created on. */
  lemma {:induction false} RunKeepsGood(style: Style, e: Edit, ops: seq<Op>)
    requires Good(style, e) && IsRun(style, e, ops)
    ensures Good(style, Run(style, e, ops))
    decreases ops
  {
    if ops != [] {
      StepKeepsGood(style, e, ops[0]);
      RunKeepsGood(style, Step(style, e, ops[0]), ops[1..]);
    }
  }
}
