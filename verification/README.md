# TWIN: the data structures and arithmetic under the windowing code

TWIN implements the Windows API on Unix. This project models the parts of it that hold real data
structures or exact integer arithmetic, and proves what they keep over every call and every run:

- **The edit control** (`EditLines`, `EditCaret`, `EditModel`, `EditUndo`, `EditKeys`, `EditControl`): a growable
  NUL-terminated buffer edited in place, a table of line fragments that caches how the text splits, a
  caret, and one undo record that merges runs of typing and deleting. The record is measured against
  the text as it was when the record was created.
- **The list box** (`ListOrder`, `ListBox`): a linked list of items with head, tail and count, and a
  slot table that points back at them.
- **The save stack of a device context** (`SaveStack`, `GdiPath`, `SharedArrays`, `DeviceContext`):
  linked whole-state copies, each owning two heap blocks and sharing four arrays with the live context,
  among them the two of the path.
- **The debugger's breakpoints** (`Breakpoints`, `BreakTable`): a table that patches program memory and
  takes the patches out again.
- **The debugger's symbols** (`SymbolIndex`, `SymbolTable`): hash chains, an index sorted by address
  that is rebuilt on demand, and growing line tables, both searched by halving.
- **Integer geometry** (`LineDda`, `ScrollBar`, `Justify`, on `Arithmetic`): line stepping, rounded
  scaling with thumb snapping, and the distribution of justification space.

Where the code changes things in place there is a class with the code's own fields and loops, proved
against functions on values; the theorems about those functions say what the code is good for. Where a
promise does not hold of the code, the code is modelled as it is, the exact condition under which the
promise holds is proved as an if-and-only-if, and a lemma names an input on which it fails:

| promise | holds exactly when | fails, for instance, in |
|---|---|---|
| cutting off a fragment gets past its start | the line does not overflow, or has a blank with a word behind it before it does: `WordLeftAdvancesIff` | `LongWordStalls` |
| the fragment table is the table of the lines | no line is cut by the 1024-character cap: `TableIsLinesIff` | `CapDropsACharacter` |
| an insertion can be undone | nothing of it is cut off: `InsertFaithfulIff` | `TruncatedInsertion` |
| Undo restores the text | the saved characters fit and land where they were: `UndoRestoresIff` | `UndoBesideCrLf` |
| typing replaces the selection | the caret comes to rest where the selection began: `SelectionIsReplacedIff` | `TypedBesideCrLf` |
| the Backspace and Delete keys stay inside the text | not behind a leading LF or before a trailing CR: `KeysStayInTextIff` | `EdgesAreReached` |
| adding keeps the list box intact | the position is in range or -1: `LBoxAddItem` | `InsertedBeyondEnd` |
| the selected item stays selected | two insertions excepted: `SelectionFollowsIff` | `SelectionStrays` |
| a list box sorted by prefix is in order, in whatever order its names were added | no name equals two that differ: `EveryOrderSortsIff` | `PrefixOrderIsOnlyAdjacent` |
| a list box sorted by prefix keeps neighbours in order when an item is deleted | it is first or last, or its neighbours are in order: `RemoveKeepsAdjacentIff` | `RemovedBetween` |
| RestoreDC gives back good pointers to justification array, palette index and path | nothing in between freed or moved that array: `PointerIsGoodIff` | `JustifiedInBetween`, `RealizedInBetween` |
| RestoreDC gives back the path that was saved | nothing in between closed a figure of it, flattened, freed or moved it: `PathIsGoodIff` | `ClosedInBetween` |
| no array of a context is freed twice | none is freed or moved that a copy points to: `BackedStepIff`, `RunStaysBacked`, `SharedIsFreedAgain` | `JustifiedThrice` |
| no array of a context is lost | RestoreDC drops no last pointer: `AllHeldStepIff` | `LostByRestoring` |
| DeleteDC leaves no array | no justification array, no palette index or path but the first copy's: `DeletedLeavesNothingIff` | `LeftByDeleting` |
| removing breakpoints restores memory | the last entry at each address remembers the right byte: `RemoveRestoresIff` | `StaleOpcode` |
| a store leaves the original memory recoverable | no entry remembers the byte stored over, or it does not change: `StoreKeepsConsistentIff` | `StaleOpcode` |
| the symbol comparison is an order | at most one symbol is invalid: `ConsistentIff` | `TwoInvalidConfuse` |
| the sorted index is in address order | the invalid symbols belong where they are put: `OrderIsAddressOrderIff`; before sorting, if they are at one address, no symbol is below it: `ResortSymbols` | `InvalidGoesFirst` |
| the index stays in address order when a symbol is added or given a value | the new address is not below a symbol that stays in front nor above one that stays behind: `AddSymbol`, `SetSymbolValue` | `MovedUnderIndex` |
| AT_LINENUMBER is returned where a line starts | the entries the search looks at guide it there: `AtLineNumberIff`; for every line, with distinct offsets, the table rises: `EveryLineFoundIff` | `UnsortedLinesMiss` |
| MulDiv rounds to nearest | always for a positive divisor; for a negative one see `MulDivNegativeIff` | `MinusOneMisses` |
| justification shares add up to the extra space | the extra space is not negative: `SetTextJust` | `NegativeSpaceIsLost` |

The comment at controls/Listbox.c:2118 says that directories come before files in a prefix-sorted list;
the code puts bracketed names last, and that is what `BracketedComeLast` states.

## Model

| member | source | states |
|---|---|---|
| EditLines.TableIsLinesIff | controls/Edit.c:1692-1724 | With wrapping off, the table obtained by iterating BuildAFragment from offset 0 is the table of the text's lines if and only if each line has fewer than 1024 characters, or exactly 1024 and no CR LF behind it |
| EditLines.LinesAreLines | controls/Edit.c:1692-1724 | The line table tiles the text: offsets start at the given one, no fragment holds CR or LF, each gap is exactly one terminator (CR LF, LF or lone CR), and the last fragment ends at strlen |
| EditLines.LinesUnique | controls/Edit.c:1692-1724 | No other table tiles the text that way |
| EditLines.LinesRebuild | controls/Edit.c:1692-1724 | Joining the fragments with the gaps between them gives the text back, character for character |
| EditLines.OffsetsRise | controls/Edit.c:1692-1724 | In any such table a later fragment starts past the end of an earlier one |
| EditLines.SplitIsTable | controls/Edit.c:1730-1787 | The split is a well-formed table, wrapped or not: each fragment starts one or two places behind the end of the one before, and the last reaches the end of the text |
| EditLines.ScanStops | controls/Edit.c:1692-1724 | Without wrapping the scan of one fragment ends at the line end or at the cap, and the next offset is behind the terminator or the dropped character |
| EditLines.CapDropsACharacter | controls/Edit.c:1702-1724 | 1025 plain characters: the last one falls into a gap between two fragments |
| EditLines.AdvancesIff | controls/Edit.c:1692-1724 | In every text, BuildAFragment gets past the start of its fragment if and only if the line does not overflow or the word-break procedure breaks it behind its start |
| EditLines.WrappedFits | controls/Edit.c:1692-1724 | No part of a wrapped fragment, from its start on, is wider than the control in 16-bit extents; if it was wrapped it ends one character before the place the word-break procedure gave, and with the character at which it overflowed it would have been too wide |
| EditLines.WordLeftAdvancesIff | controls/Edit.c:1803-1827 | With the default word-break procedure an overflowing line is broken behind its start if and only if, before the place where it overflows, it has a blank with a non-blank behind it |
| EditLines.WordLeftMeans | controls/Edit.c:1803-1827 | In a line without breaks the default word-break procedure gives the start of the last word before the place asked for, behind a blank or at the start of the line |
| EditLines.LongWordStalls | controls/Edit.c:1692-1724 | "aaaa" in a control three characters wide: cutting the text never ends |
| EditLines.EndsUnwrapped | controls/Edit.c:1692-1724 | Without wrapping, cutting any text ends |
| EditCaret.FindFromIsLast | controls/EditDraw.c:492-498 | FindLine gives the last fragment that starts at or before the index, and the only one |
| EditCaret.PlaceIsSound | controls/EditDraw.c:531-575 | SetEditPosition leaves the caret inside the text, on the line FindLine gives, never past the end of a non-empty line, at most one place from the clamped request, and exactly there unless that is between a CR and its LF; which side it moves to is the preference's |
| EditCaret.AstrayIsInsideCrLf | controls/EditDraw.c:531-575 | The only places declined lie between a CR and its LF, and with wrapping off all of those on non-empty lines are |
| EditCaret.PreferenceMeans | controls/EditDraw.c:548-574 | A caret between CR and LF goes to the start of the next line with preference next, with here if it came from further down and with other if it did not; otherwise to the end of the line |
| EditCaret.ArrowsProgress | controls/EditKey.c:333-363 | Left and Right strictly progress and leave a settled caret |
| EditCaret.ArrowsInvert | controls/EditKey.c:333-363 | From a settled place, Left undoes Right and Right undoes Left |
| EditCaret.RightReachesEnd | controls/EditKey.c:349-363 | Pressing Right as often as there are characters left reaches the end of the text and stays there |
| EditCaret.LeftReachesStart | controls/EditKey.c:333-347 | Pressing Left often enough reaches the start and stays there |
| EditModel.NoteDeleteFaithful | controls/Edit.c:1899-1935 | Recording a deletion, whether joined to a backspace run, to a forward run or started anew, keeps the record faithful: putting the saved characters in place of the recorded range gives the snapshot |
| EditModel.NoteInsertFaithfulIff | controls/Edit.c:1942-1958 | Recording an insertion keeps the record faithful if and only if as many characters go in as were announced |
| EditModel.DeleteKeepsFaithful | controls/Edit.c:1549-1604 | DeleteChars keeps the record faithful for every range in the text |
| EditModel.InsertFaithfulIff | controls/Edit.c:1447-1540 | InsertChars, replacing the selection first, keeps caret and table settled, and keeps the record faithful if and only if the length limit and the width of the control let all of the insertion in |
| EditModel.TakenLetsIn | controls/Edit.c:1473-1504 | The number of characters InsertChars lets in is the only one that is all the limit leaves room for or, in a control that clips, the most of that whose 16-bit width together with the text's is at most the control's |
| EditModel.KeysStayInTextIff | controls/Edit.c:1417-1424 | The ranges that Backspace and Delete hand to DeleteChars lie in the text except behind a line feed that starts it and before a carriage return that ends it |
| EditModel.UndoKeepsGood | controls/Edit.c:1866-1894 | DoUndo itself leaves a faithful record and a settled caret |
| EditModel.StepKeepsGood | controls/Edit.c:1365-1436 | Each of these operations keeps record, caret and table right: typing, pasting, Backspace, Delete, undo, caret and anchor moves, EM_EMPTYUNDOBUFFER, WM_SETTEXT, EM_SETHANDLE, read-only and limit changes |
| EditModel.RunKeepsGood | controls/Edit.c:1899-1958 | After every run of such operations the record still undoes to the text it was created on |
| EditUndo.UndoRestoresIff | controls/Edit.c:1866-1894 | DoUndo returns the text to the snapshot if and only if the saved characters fit and either the caret comes to rest at the record's start and case conversion keeps them, or it is pushed off from between CR and LF and they are all CRs |
| EditUndo.SelectionIsReplacedIff | controls/Edit.c:1447-1540 | What is typed or pasted takes the place of the selection, as far as limit and width let it in, if and only if the caret comes to rest at the selection's start, or all that goes in is CRs |
| EditUndo.TypedBesideCrLf | controls/Edit.c:1447-1540 | The x of "a CR x LF" selected and typed over: the y ends up before the CR |
| EditUndo.TruncatedInsertion | controls/Edit.c:1473-1474 | Two characters typed where one fits: the record reaches beyond the text |
| EditUndo.UndoBesideCrLf | controls/Edit.c:1866-1894 | Deleting the x of "a CR x LF" and undoing it puts the x before the CR |
| EditUndo.UndoLeavesRedo | controls/Edit.c:1866-1894 | The record DoUndo leaves covers what it put back and saves what it took away, and its snapshot is the text before the undo |
| EditUndo.UndoTwice | controls/Edit.c:1866-1894 | Where the first undo restores the text and lands at the record's start, a second one gives back the text before the first if and only if what the first took away fits and is kept by case conversion |
| EditUndo.UndoTwiceAstray | controls/Edit.c:1866-1894 | Where the first undo is pushed off from between CR and LF, the second takes out again what the first put in and no more; if the first put nothing in, the second is a redo if and only if what was taken away fits and is nothing but CRs |
| EditUndo.TypingUndoneAtOnce | controls/Edit.c:1942-1958 | From a record that the first key does not join: however much is typed or pasted in a row, each a string that does not end in a CR (the Enter key puts in CR LF) and that goes in whole, one undo takes all of it away |
| EditUndo.TypingGathers | controls/Edit.c:1942-1958 | From a record that the first key joins, all of it goes on under that record and keeps its snapshot |
| EditUndo.RoomIsEnough | controls/Edit.c:1473-1504 | In a control that does not clip, everything goes in if the limit leaves room for it |
| EditUndo.BackspacingUndoneAtOnce | controls/Edit.c:1899-1935 | However many plain characters are backspaced over in a row from a record that the first deletion does not join, one undo brings all of them back in order, provided their place is not between CR and LF, they fit and case conversion keeps them |
| EditUndo.EraseBackGathers | controls/Edit.c:1899-1935 | A run of single backward deletions is one record with the characters in text order |
| EditKeys.EraseForwardGathers | controls/Edit.c:1915-1923 | n single deletions at one place under a record that is empty there leave that record with what it saved followed by the n characters in text order, and the same snapshot |
| EditKeys.DeletingUndoneAtOnce | controls/EditKey.c:246-269 | However often Delete is pressed in a row over plain characters from a record that the first deletion does not join, one undo brings all of them back, provided their place is not between CR and LF, they fit and case conversion keeps them |
| EditKeys.DeletionJoins | controls/Edit.c:1899-1923 | A deletion at either end of a record's empty range keeps its snapshot and saves as many characters more as go |
| EditKeys.TypedThenErased | controls/Edit.c:1409-1424 | Backspace takes out what one key put in, a character or the CR LF of Enter; so does Delete with the caret in front of it |
| EditKeys.SelectionGoes | controls/Edit.c:1409-1416 | With a selection, Backspace and Delete take out exactly it, and nothing is selected any more |
| EditKeys.ReadOnlyKeepsText | controls/Edit.c:1549-1560 | Typing, Backspace, Delete and Undo leave the text of a read-only control alone; Undo loses its record, the others keep it |
| EditKeys.UndoSelects | controls/Edit.c:1879-1893 | A restoring undo that lands selects what it brings back: the anchor is the record's start, the caret behind the characters where it can rest |
| EditKeys.TextIsSet | controls/Edit.c:1348-1364 | WM_SETTEXT and EM_SETHANDLE put their text in, converted or as it is, with the caret in front and nothing to undo or selected |
| EditUndo.EdgesAreReached | controls/EditKey.c:246-269 | From an empty control, two operations reach a caret before a trailing CR, one reaches a caret behind a leading LF |
| EditControl.Control.Empty | controls/Edit.c:630-717 | A control created without a text: empty buffer of 32 cells, one empty fragment, caret at 0, no record |
| EditControl.Control.BuildAFragment | controls/Edit.c:1692-1724 | The scanning loop computes the fragment of the specification, for every text, offset, style and width |
| EditControl.Control.ReformatFragments | controls/Edit.c:1730-1787 | For every text that can be cut to the end, and whatever the old table held, the reuse, shrink and grow phases leave exactly the split of the text, and nFragments is its length |
| EditControl.Control.ReuseEntries | controls/Edit.c:1742-1753 | The first phase fills the old entries with the first fragments of the split and says where it stopped |
| EditControl.Control.ShrinkTable | controls/Edit.c:1755-1765 | Surplus entries are dropped when the text is used up |
| EditControl.Control.GrowTable | controls/Edit.c:1766-1786 | Missing fragments are counted, allocated and filled in |
| EditControl.Control.FindLine | controls/EditDraw.c:492-498 | The backward loop finds the specified line |
| EditControl.Control.SetEditPosition | controls/EditDraw.c:531-575 | The method places the caret as specified and changes nothing else |
| EditControl.Control.ClearUndoBuffer | controls/EditMisc.c:125-132 | The record is gone; everything else stays |
| EditControl.Control.SetUndoDelete | controls/Edit.c:1899-1935 | The record becomes the specified one: prepended to, appended to, or new; what that is worth for runs of keys is in EraseBackGathers and EraseForwardGathers |
| EditControl.Control.SetUndoInsert | controls/Edit.c:1942-1958 | The record's end moves on, or a new record is made |
| EditControl.Control.SlideDown | controls/Edit.c:1584-1585 | The loop of DeleteChars closes the gap: before + after |
| EditControl.Control.SlideUp | controls/Edit.c:1507-1508 | The backward loop of InsertChars, started one cell behind the NUL, opens a gap and keeps both sides |
| EditControl.Control.DeleteChars | controls/Edit.c:1549-1604 | Text, record, table and caret become those of the specification; the buffer stays NUL-terminated |
| EditControl.Control.Reserve | controls/Edit.c:1476-1485 | The buffer grows in as few steps of 32 as make the text with its NUL fit, keeping its contents |
| EditControl.Control.Admit | controls/Edit.c:1473-1504 | How much goes in: all that the limit leaves room for, or in a control that clips the longest part of that which, in 16-bit extents, is no wider than the control together with the text |
| EditControl.Control.WriteText | controls/Edit.c:1506-1521 | The buffer holds before + recased insertion + after + NUL |
| EditControl.Control.InsertChars | controls/Edit.c:1447-1540 | The whole of InsertChars takes the state through the specified insertion, and the text grows by just the number of characters that Admit states; strlen stays below memlen |
| EditControl.FullControl | controls/Edit.c:1487-1504 | In a single-line control three characters wide that does not scroll, "abc" goes in and then "d" does not |
| EditControl.Control.UndoLast | controls/Edit.c:1866-1894 | DoUndo takes the state through the specified undo; the anchor is then where the record starts, or there is none if nothing was saved |
| EditControl.Control.BackspaceKey | controls/Edit.c:1409-1424 | The Backspace key deletes the selection, a CR LF or one character, and keeps the record faithful |
| EditControl.Control.HandleDelete | controls/EditKey.c:246-269 | The Delete key deletes the selection, two characters at a CR or one, and keeps the record faithful |
| EditControl.Control.SetAnchorAt | controls/EditKey.c:56-64 | The anchor is set only if there is none, and the old one is remembered |
| EditControl.Control.DropAnchor | controls/EditKey.c:68-75 | The anchor is dropped and remembered |
| EditControl.Control.HandleRight | controls/EditKey.c:349-363 | The caret moves as the Right arrow is specified to and the text stays; with Shift a selection goes on or begins where the caret was, without it there is none, and the old anchor is remembered |
| EditControl.Control.HandleLeft | controls/EditKey.c:333-347 | The caret moves as the Left arrow is specified to and the text stays; the anchor as for Right |
| ListOrder.SortedAddKeepsAdjacent | controls/Listbox.c:2533-2558 | Sorted adding keeps every pair of neighbours in order, given only that the comparison changes sign when its arguments are exchanged |
| ListOrder.SortedListBox | controls/Listbox.c:2533-2558 | After any number of sorted additions the list holds what was added, neighbours in order; if the comparison is transitive among these items, all of it is in order |
| ListOrder.EveryOrderSortsIff | controls/Listbox.c:2113-2131 | A list box sorted by prefix is in order as a whole, in whatever order its names are added, if and only if no name among them equals two others that differ from each other |
| ListOrder.NoClashIsTransitive | controls/Listbox.c:2113-2131 | Among such names the prefix comparison is transitive |
| ListOrder.ClashStaysWrong | controls/Listbox.c:2533-2558 | With a name equal to two that differ, adding the lesser, the equal and the greater one leaves the list out of order, whatever is added afterwards |
| ListOrder.AddingKeepsBefore | controls/Listbox.c:2533-2558 | Later additions never change the order of what is there |
| ListOrder.AdjacentIsOrdered | controls/Listbox.c:2533-2558 | With a transitive comparison, order of neighbours is order of the list |
| ListOrder.PrefixCompareTurns | controls/Listbox.c:2113-2131 | The prefix comparison changes sign when its arguments are exchanged |
| ListOrder.PrefixEqualIff | controls/Listbox.c:2113-2131 | Two names are equal to the prefix comparison if and only if one begins like the other, small and capital letters alike, and both are in brackets or neither is |
| ListOrder.CaseIsIgnored | controls/Listbox.c:2113-2131 | Writing a name with other small and capital letters never changes how it compares |
| ListOrder.PrefixOrderIsOnlyAdjacent | controls/Listbox.c:2113-2131 | "ab", "a", "ac" added in turn: "a" equals both others, and the list is ordered only between neighbours |
| ListOrder.BracketedComeLast | controls/Listbox.c:2113-2131 | In a list kept by the prefix comparison only bracketed names follow a bracketed name |
| ListOrder.TwoPartFind | controls/Listbox.c:2146-2229 | Searching behind the start and then from the head is searching in cyclic order, start -1 meaning from 0 |
| ListOrder.FindMeans | controls/Listbox.c:2146-2229 | The answer of a search is an item that matches and is no separator, or LB_ERR when no such item is there |
| ListOrder.CyclicFindIsUnique | controls/Listbox.c:2146-2229 | Only one index is the first match in cyclic order |
| ListOrder.SelectionFollowsIff | controls/Listbox.c:2501-2559 | After an addition the selection is still on its item except for an insertion at the head of a list with a selection and one between two items of a list without |
| ListOrder.PlaceMeans | controls/Listbox.c:2466-2562 | An insertion goes to its position, or to the end for -1; an appended item to the end, or in a sorted box where sorted adding puts it |
| ListOrder.SelectionStrays | controls/Listbox.c:2466-2507 | Inserting at the head selects the new item; inserting between two items with none selected selects the first |
| ListOrder.RemoveInserted | controls/Listbox.c:1976-2034 | Removing at the index of an insertion undoes it |
| ListOrder.RemoveKeepsAdjacentIff | controls/Listbox.c:1976-2034 | After a deletion neighbours are in order if and only if the item was first or last or the two that have become neighbours are |
| ListOrder.RemoveKeepsOrdered | controls/Listbox.c:1976-2034 | A list in order as a whole stays so when an item is deleted |
| ListOrder.RemovedBetween | controls/Listbox.c:1976-2034 | "a" deleted from between "ac" and "ab" leaves neighbours out of order |
| ListBox.ListBox.Empty | controls/Listbox.c:935-958 | A box just created has no items, no slots and no selection, and is valid |
| ListBox.ListBox.LBoxGetSlot | controls/Listbox.c:1574-1599 | A free slot exists afterwards, for every count of items below the largest a 16-bit word can hold: a full table grows by a group, with the items still in their slots, and its own count may wrap to 0 at 65536 |
| ListBox.ListBox.FreeSlot | controls/Listbox.c:2440-2440 | The scan for a free slot, which tests no bound, stops inside the table |
| ListBox.ListBox.LBoxItemFromIndex | controls/Listbox.c:1615-1631 | The node at that index of the item sequence, or null beyond it |
| ListBox.ListBox.LBoxItemFromCommand | controls/Listbox.c:1634-1650 | The first node with that command and its index, or null and none |
| ListBox.ListBox.LBoxFindItem | controls/Listbox.c:2146-2229 | The first matching non-separator in cyclic order behind the start, LB_ERR exactly when there is none |
| ListBox.ListBox.LBoxAddItem | controls/Listbox.c:2421-2605 | The box stays valid if and only if the position is in range, -1 or an append; then the items are the old ones with the new one inserted at the specified index, which is returned, and the selection moves as specified |
| ListBox.InsertedBeyondEnd | controls/Listbox.c:2466-2507 | Inserting at position 5 of a box with one item: LB_ERR, and the box counts an item that is not in its chain |
| ListBox.ListBox.InsertItem | controls/Listbox.c:2466-2507 | LAF_INSERT links the item in at its position and returns it; out of range it returns LB_ERR with count and slot already taken |
| ListBox.ListBox.AppendItem | controls/Listbox.c:2509-2562 | LAF_APPEND puts the item last, or at its sorted place |
| ListBox.ListBox.LBoxDeletePosition | controls/Listbox.c:1976-2078 | The item at that position is removed and the new count returned, or LB_ERR and nothing changes |
| ListBox.ListBox.LBoxDeleteCommand | controls/Listbox.c:1976-2078 | The first item with that command is removed, or LB_ERR and nothing changes |
| ListBox.ListBox.Unlink | controls/Listbox.c:2020-2030 | The chain without the node; the tail moves back when the last node goes |
| ListBox.ListBox.LBoxResetContent | controls/Listbox.c:1890-1945 | Every node is released exactly once, in order, and the box is empty and valid |
| ListBox.ListBox.AddThenDelete | controls/Listbox.c:1976-2605 | Adding an item and deleting the index returned leaves the items as they were |
| SaveStack.FailedRestoreChangesNothing | graphics/GdiDC.c:625-701 | RestoreDC succeeds exactly for a non-zero number within the depth of the stack, in either direction, and otherwise changes nothing |
| SaveStack.RelativeIsAbsolute | graphics/GdiDC.c:639-659 | RestoreDC(-k) is RestoreDC(depth - k + 1) |
| SaveStack.BottomStays | graphics/GdiDC.c:573-701 | Operations that stay above a depth leave the copies below it alone |
| SaveStack.RestoreUndoesAll | graphics/GdiDC.c:573-701 | RestoreDC(id) gives back what is held by value (attributes, widths, metrics) as it was when SaveDC returned id, dwInvalid apart, the same pointers to the shared arrays, and the same stack, whatever was saved, changed and restored in between |
| SharedArrays.PointerIsGoodIff | graphics/GdiDC.c:582-697 | Of each of the four arrays that SaveDC shares (justification, palette index, path types, path points): the pointer that RestoreDC gives back is to an allocated array if and only if no call in between freed or moved the array then in use |
| SharedArrays.ContentsAreGoodIff | graphics/GdiDC.c:582-697 | Justification array, palette index and path types have the contents they were saved with if and only if no call in between freed, moved or overwrote them |
| SharedArrays.PathIsGoodIff | graphics/GdiDC.c:582-697 | The path is given back, both arrays allocated and as they were, if and only if no CloseFigure that closes, no FlattenPath that flattens and nothing that frees or moves them came in between |
| SharedArrays.SharedUntilFreed | graphics/GdiDC.c:582-613 | Until it is freed or moved, live context and copies above the depth share the allocated array, as it was until it is overwritten |
| SharedArrays.FreedOnceFreed | graphics/GdiDCAttr.c:1725-1729 | Once it is freed or moved it stays freed, whatever comes after |
| SharedArrays.SpoiledOnceTouched | graphics/GdiGraphics.c:2365-2499 | Once overwritten it never has its old contents again: CloseFigure and FlattenPath only ever advance the types |
| SharedArrays.StepKeepsSound | graphics/GdiDC.c:573-697 | Every operation keeps heap and pointers in order: no path no arrays, both arrays or none, and allocated ones hold all the entries |
| SharedArrays.NewArraysHold | graphics/GdiDCAttr.c:1731-1737 | After SetTextJustification and RealizePalette the live context points to a new array with what was handed out, and nothing else of it has changed |
| SharedArrays.BackedStepIff | graphics/GdiDC.c:582-697 | If every pointer held is null or to an allocated array, that stays so if and only if the operation frees or moves no array that a copy points to as well |
| SharedArrays.RunStaysBacked | graphics/GdiDC.c:582-697 | Over every run without such an operation nothing is freed twice and no pointer goes bad |
| SharedArrays.SharedIsFreedAgain | graphics/GdiDCAttr.c:1725-1729 | After such an operation there is a copy to restore after which one more call frees the array a second time |
| SharedArrays.AllHeldStepIff | graphics/GdiDC.c:662-695 | If every allocated array is pointed to, that stays so for every operation but a RestoreDC, and for that if and only if what the live context and the copies above point to is also pointed to from the restored one down |
| SharedArrays.DeletedLeavesNothingIff | graphics/GdiDC.c:353-379 | DeleteDC leaves no array allocated if and only if there is no justification array and no palette index or path but the first copy's |
| SharedArrays.ClosedInBetween | graphics/GdiGraphics.c:2365-2415 | BeginPath, MoveTo, LineTo, SaveDC, CloseFigure, RestoreDC(-1): the line restored closes its figure, the line saved did not |
| SharedArrays.JustifiedInBetween | graphics/GdiDCAttr.c:1718-1740 | With an array before SaveDC and one SetTextJustification before RestoreDC, the context restored points to a freed array |
| SharedArrays.RealizedInBetween | windows/DisplayGraphics.c:550-587 | One RealizePalette in between does the same to the palette index |
| SharedArrays.LostByRestoring | graphics/GdiDC.c:684-695 | SaveDC, SetTextJustification, RestoreDC(-1): the array stays allocated with no pointer to it |
| SharedArrays.LeftByDeleting | graphics/GdiDC.c:353-379 | A justified context leaves its array behind when it is deleted |
| GdiPath.CallKeepsOk | graphics/GdiGraphics.c:2230-2415 | Every call on a path leaves it, and every other path over the same memory, in order |
| GdiPath.StateReads | graphics/GdiGraphics.c:2230-2323 | A path is opened where there is none, closed once, and given up with its arrays freed by AbortPath or as a region; otherwise these calls change nothing |
| GdiPath.InsertReads | graphics/GdiGraphics.c:3618-3639 | Inserted entries are found between those before and those behind, in both arrays |
| GdiPath.FlattenReads | graphics/GdiGraphics.c:2417-2459 | Whether the arrays are moved or not, a flattened curve gives way to as many lines as there are points, the last closing its figure if the curve did, and the entries around it stay |
| GdiPath.WidenReads | graphics/GdiGraphics.c:2984-3060 | Widened entries are replaced by those that go in behind them |
| GdiPath.CloseReads | graphics/GdiGraphics.c:2389-2407 | CloseFigure sets the flag of the last line or curve, behind which there are only moves, and changes nothing else |
| GdiPath.CallTakes | graphics/GdiGraphics.c:3579-3640 | A call that frees or moves takes both arrays away, any other keeps them, and arrays at other addresses stay as they are |
| GdiPath.OverwriteAdvances | graphics/GdiGraphics.c:2389-2457 | What CloseFigure and FlattenPath write in place raises the first type that changes in rank: curves below lines, open below closed |
| GdiPath.AdvancedIsTransitive | graphics/GdiGraphics.c:2389-2457 | Such changes add up and never cancel |
| DeviceContext.Context.constructor | graphics/GdiDC.c:60-100 | A new context has an empty stack and owns nothing |
| DeviceContext.Context.NewCopy | graphics/GdiDC.c:584-613 | The copy holds what the live record does, widths and metrics in blocks of its own, each with exactly one owner; the pointers to the shared arrays are the same |
| DeviceContext.Context.SaveDC | graphics/GdiDC.c:573-623 | The linked stack refines Save: new top record with the live values, ids depth - 1 down to 0, number returned, records, widths and metrics all accounted for |
| DeviceContext.Context.FindSaved | graphics/GdiDC.c:639-661 | Both walks along the chain end at the record the number names, or at null |
| DeviceContext.Context.Discard | graphics/GdiDC.c:662-682 | A popped record is freed once with its blocks, and nothing else is |
| DeviceContext.Context.PopTo | graphics/GdiDC.c:662-682 | The pop loop ends with the named record on top and frees exactly those above it |
| DeviceContext.Context.Replace | graphics/GdiDC.c:684-695 | The live blocks are freed, the record's blocks pass to the live record, which gets its values with dwInvalid all set |
| DeviceContext.Context.RestoreDC | graphics/GdiDC.c:625-701 | Refines Restore; exactly the chain's records and the widths and metrics in use stay allocated, the shared arrays are left alone (what that loses or leaves dangling: AllHeldStepIff, BackedStepIff); a failure changes no field |
| DeviceContext.Context.DeleteDC | graphics/GdiDC.c:538-544 | The restore loop terminates with an empty stack; unless it is a metafile context, no record, width array, metrics block, palette index or path of the first copy stays allocated; justification arrays do |
| DeviceContext.Context.SelectFont | windows/DisplayText.c:424-458 | Selecting a font overwrites the live metrics in place and frees the live widths; no saved copy changes |
| DeviceContext.Context.LoadWidths | windows/DisplayText.c:122-151 | Character widths are loaded at most once into a block the live context owns; when the driver supplies none, the block taken is given back and nothing changes |
| DeviceContext.Context.SetTextJust | graphics/GdiDCAttr.c:1718-1740 | The array is freed through the live pointer and a new one taken if there are breaks; the result says whether the freed one was still allocated |
| DeviceContext.JustifiedThrice | graphics/GdiDCAttr.c:1725-1729 | SetTextJustification, SaveDC, SetTextJustification, RestoreDC(-1): the third SetTextJustification frees an array that has been freed |
| DeviceContext.Context.RealizePalette | windows/DisplayGraphics.c:550-587 | The palette index is moved and filled in |
| DeviceContext.Context.BeginPath | graphics/GdiGraphics.c:2230-2258 | A path is begun only where there is none |
| DeviceContext.Context.EndPath | graphics/GdiGraphics.c:2260-2288 | Only an open path is ended |
| DeviceContext.Context.AbortPath | graphics/GdiGraphics.c:2290-2323 | A path, open or ended, is given up and its arrays are freed |
| DeviceContext.Context.CloseFigure | graphics/GdiGraphics.c:2365-2415 | The loop backwards over the types closes the last line or curve in place, unless an end of a figure comes first, when it fails |
| DeviceContext.Context.MakeRoom | graphics/GdiGraphics.c:3618-3639 | InsertDeletePath moves both arrays and opens room for n entries, keeping those before and behind |
| DeviceContext.Context.CloseUp | graphics/GdiGraphics.c:3599-3616 | InsertDeletePath closes up over n entries in place; the arrays keep their length |
| DeviceContext.Context.AddEntries | graphics/GdiGraphics.c:239-256 | MoveTo, LineTo and PolyBezierTo add their entries at the end of an open path |
| DeviceContext.Context.FlattenBezier | graphics/GdiGraphics.c:2417-2459 | A curve becomes lines to the given points, in place when they are no more than three and moved otherwise; the last line closes if the curve did |
| DeviceContext.Context.PathToRegion | graphics/GdiGraphics.c:3353-3362 | A path that has become a region is freed |
| Breakpoints.SettingPatches | debugger/break.c:169-188 | Setting puts 0xCC under every enabled readable entry and changes no other byte |
| Breakpoints.RemovingRestores | debugger/break.c:169-188 | Removing puts the original byte back under each of them, however many entries share the address |
| Breakpoints.SetMakesRunning | debugger/break.c:169-188 | From a stopped state, setting gives a running one with 0xCC exactly under the enabled readable entries |
| Breakpoints.RemoveRestoresIff | debugger/break.c:169-188 | In every well-formed state, removing gives back the original memory byte for byte if and only if at each address the last enabled readable entry remembers the original byte, or there is none and the byte is in memory |
| Breakpoints.RemovingWritesLast | debugger/break.c:169-188 | Whatever the entries remember, removing writes what the last one at each address does |
| Breakpoints.RunningRestorableIff | debugger/break.c:169-188 | While a program runs whose entries remember the right bytes, that holds if and only if every patch is under an enabled readable entry |
| Breakpoints.StoreKeepsConsistentIff | debugger/break.c:216-305 | A store keeps table and memory consistent if and only if no user entry in use, enabled or not, and no enabled step-over entry remembers the byte there, or the byte stored is the one that is there anyway |
| Breakpoints.AddTakesAFreeEntry | debugger/break.c:216-263 | A breakpoint is added if and only if its address can be read and one of the 99 user entries is free, in the next unused one as long as there is one; it never replaces one in use and is found at its address |
| Breakpoints.AddedAndDeleted | debugger/break.c:216-290 | Deleting the entry that was added leaves what DEBUG_FindBreakpoint finds as it was, at every address |
| Breakpoints.EventKeepsConsistent | debugger/break.c:169-305 | Adding, deleting, enabling, hitting, restarting, trapping and every store that meets that condition keep table and memory consistent |
| Breakpoints.RunIsTransparent | debugger/break.c:169-665 | Over every run of the stop and patch protocol memory is, while stopped, what the program alone would have made it, and while running differs only under enabled entries, which hold 0xCC |
| Breakpoints.RestartRunsOwnInstruction | debugger/break.c:517-665 | Restarting at a breakpoint leaves all patches out, so that the instruction there is the program's own |
| Breakpoints.ContinuingSets | debugger/break.c:620-624 | Continuing from where no user entry is enabled leaves 0xCC at exactly the addresses of enabled readable entries and the program's byte everywhere else |
| Breakpoints.SteppingOverArms | debugger/break.c:643-659 | Stepping over leaves entry 0 active at the next instruction with the program's byte, and 0xCC there and at exactly the addresses of enabled readable user entries |
| Breakpoints.SteppedOver | debugger/break.c:169-659 | When the stop behind the call comes, memory is the program's again, entry 0 is off and the user's readable entries are as they were |
| Breakpoints.SingleSteppingKeeps | debugger/break.c:662-665 | A single step changes neither table nor memory |
| Breakpoints.CountIsKept | debugger/break.c:539-549 | Continuing from a user entry with a count leaves that count in the entry and changes nothing else; the breakpoint is then passed that many times less one |
| Breakpoints.HitSwitchesOff | debugger/break.c:398-440 | A stop switches entry 0 off and no other; on a false condition that is all, and the program goes on; at a user entry without a count it stops |
| Breakpoints.SwitchedIsFound | debugger/break.c:271-305 | An entry switched off or deleted is found nowhere; one switched on is found at its address unless an earlier one is, and its count is cleared |
| Breakpoints.StaleOpcode | debugger/break.c:296-305 | Every other store can be lost: after a store of another byte under a user entry, enabling that entry alone, setting and removing brings the old byte back, although every patch is reachable |
| Breakpoints.CountedContinue | debugger/break.c:398-440 | Continuing with a count from a breakpoint passes it that many times less one and then stops |
| BreakTable.Patcher.constructor | debugger/break.c:28-41 | An empty table, with memory as the program has it |
| BreakTable.Patcher.SetBreakpoints | debugger/break.c:169-188 | The loop over the table refines the specified setting and removing, unreadable entries being disabled |
| BreakTable.Patcher.FindBreakpoint | debugger/break.c:196-210 | The first enabled entry at exactly that segment and offset, or -1 |
| BreakTable.Patcher.AddBreakpoint | debugger/break.c:216-263 | The next unused entry, or the first free one when all have been used, takes address and opcode; a bad address or a full table changes nothing |
| BreakTable.Patcher.DelBreakpoint | debugger/break.c:271-290 | Only an entry of the user that is in use is deleted |
| BreakTable.Patcher.EnableBreakpoint | debugger/break.c:296-305 | Only an entry of the user that is in use is switched, and its count cleared |
| BreakTable.Patcher.HitBreakpoint | debugger/break.c:398-440 | Entry 0 is switched off; whether the program stops depends on entry, condition and count |
| BreakTable.Patcher.RestartExecution | debugger/break.c:517-665 | Refines the specified restart, of which ContinuingSets, SteppingOverArms, SingleSteppingKeeps and CountIsKept say what it leaves in table and memory |
| BreakTable.Patcher.StopAndContinue | debugger/break.c:169-665 | One stop and one start lead from a running state to a running state over the same original memory; if no user entry is enabled at the restart address, 0xCC is at exactly the addresses of enabled readable entries |
| SymbolIndex.ConsistentIff | debugger/hash.c:87-124 | The comparison gives opposite signs for exchanged arguments if and only if at most one symbol is invalid |
| SymbolIndex.TwoInvalidConfuse | debugger/hash.c:87-124 | Two invalid symbols are each before the other |
| SymbolIndex.OrderIsAddressOrderIff | debugger/hash.c:87-124 | A table sorted by the comparison is sorted by address if and only if the invalid symbols belong at its front |
| SymbolIndex.OneInvalidOrderIff | debugger/hash.c:87-166 | With one invalid symbol, or several at one address, the result of sorting is in address order if and only if, before sorting, no symbol is below an invalid one |
| SymbolIndex.InvalidGoesFirst | debugger/hash.c:87-124 | An invalid symbol at 9 is put before a valid one at 1 |
| SymbolIndex.HalveEndsIff | debugger/hash.c:533-589 | In any table, sorted or not, the halving loop ends on entry i if and only if every middle entry on the way to i is at or below the address exactly when it is not behind i |
| SymbolIndex.HalveFindsAllIff | debugger/hash.c:533-589 | In a table of distinct addresses the halving loop finds each of them if and only if the table is sorted |
| SymbolIndex.HalveSplits | debugger/hash.c:533-589 | In a sorted table the halving loop ends on the last entry at or below the address |
| SymbolIndex.PickSplits | debugger/hash.c:518-590 | The entry picked is at the greatest address not above the target and has line numbers if one of the last two there has, unless the search stopped at the end of the table |
| SymbolIndex.PreferLinesMeans | debugger/hash.c:541-570 | In any table the entry preferred is at the same address, at most one place away, and has line numbers if and only if it or a neighbour at that address has |
| SymbolIndex.PickFindsAllIff | debugger/hash.c:518-590 | In an index of distinct addresses every symbol is found at its own address if and only if the index is sorted |
| SymbolIndex.PickIsBest | debugger/hash.c:499-592 | On a table sorted by address the search finds what a look through all symbols in any order would |
| SymbolIndex.BestOfIsNearest | debugger/hash.c:465-592 | That look finds the greatest (seg, off) not above the target, or that there is none |
| SymbolIndex.MovedSortedIff | debugger/hash.c:192-221 | A sorted table in which some entries are given another address stays sorted if and only if that address is not below an entry that stays in front of one of them nor above one that stays behind |
| SymbolIndex.LineAtFindsIff | debugger/hash.c:1134-1146 | In any line table the halving loop ends on an entry that starts at the offset if and only if one does to which the entries looked at guide it |
| SymbolIndex.AtLineNumberIff | debugger/hash.c:1094-1148 | With any line table AT_LINENUMBER is returned if and only if the address passes the early exits and the range test, modulo 2^32, and the search is guided to a line that starts there |
| SymbolIndex.OtherStatusesIff | debugger/hash.c:1094-1148 | Each of the other three statuses is returned if and only if its condition on step-through and trampoline flag, line table, first instruction, source file and distance holds |
| SymbolIndex.AtLineNumberIfRising | debugger/hash.c:1094-1148 | With a rising line table, that is wherever some line starts |
| SymbolIndex.EveryLineFoundIff | debugger/hash.c:1134-1146 | In a line table of distinct offsets every line is found if and only if the table is rising |
| SymbolIndex.AtLineNumberIsSound | debugger/hash.c:1094-1148 | In any table, AT_LINENUMBER is returned only where a line starts |
| SymbolIndex.UnsortedLinesMiss | debugger/hash.c:1134-1146 | Lines at 100, 104 and 102: the one at 104 is missed |
| SymbolTable.NameHash | debugger/hash.c:65-85 | The loop computes the hash of the name, below 16384, with signed characters |
| SymbolTable.HashStepClears | debugger/hash.c:73-82 | The top four bits are clear after every round, so that the next shift loses nothing |
| SymbolTable.HashStepShifts | debugger/hash.c:73-82 | While the upper bits are clear, a character below 0x80 is taken in behind a shift by four |
| SymbolTable.HashStepFolds | debugger/hash.c:75-81 | Four bits that would be shifted out come in again at bits 4 to 7 |
| SymbolTable.HighForgets | debugger/hash.c:73-82 | A character from 0x80 on sets all the upper bits, whatever was hashed before |
| SymbolTable.HashOfTwo | debugger/hash.c:65-85 | The hash of two characters below 0x80, first one first |
| SymbolTable.Qsort | debugger/hash.c:165-166 | Sorting permutes the table and leaves every pair in the order of the comparison |
| SymbolTable.ValidAreOrdered | debugger/hash.c:131-169 | Without invalid symbols the sorted table is in address order |
| SymbolTable.Symbol.AddLineNumber | debugger/hash.c:925-946 | The line is added at the end, at the symbol's address plus the offset modulo 2^32, whether or not the table has to grow |
| SymbolTable.Symbol.Normalize | debugger/hash.c:299-326 | Spare entries are given back and the lines stay |
| SymbolTable.Symbol.LineSearch | debugger/hash.c:1134-1141 | The loop ends on the specified entry |
| SymbolTable.Symbol.StatusAt | debugger/hash.c:1096-1148 | Each of the four statuses is returned if and only if its condition on the symbol's own fields holds |
| SymbolTable.SymbolTable.constructor | debugger/hash.c:58-63 | No symbols, and the index out of use |
| SymbolTable.SymbolTable.CountSymbols | debugger/hash.c:139-147 | The count over all chains |
| SymbolTable.SymbolTable.CopySymbols | debugger/hash.c:156-163 | The table receives all chains, in order |
| SymbolTable.SymbolTable.ResortSymbols | debugger/hash.c:131-169 | The index becomes a sorted permutation of all chains; it is in address order if no symbol is invalid and, if the invalid ones share an address, exactly when no symbol is below it; without symbols it stays out of use |
| SymbolTable.SymbolTable.SearchTable | debugger/hash.c:518-590 | Both early exits, the halving loop and the look at the neighbours pick the specified entry, in any table |
| SymbolTable.SymbolTable.FindNearestSymbol | debugger/hash.c:499-592 | The index is rebuilt if it is out of use; when it is in address order the symbol found is the nearest one among all chains, or null when there is none |
| SymbolTable.SymbolTable.CheckLinenoStatus | debugger/hash.c:1007-1149 | Each of the four statuses is returned if and only if its condition on the fields of the nearest symbol holds; without one, FUNC_HAS_NO_LINES |
| SymbolTable.AskInside | debugger/hash.c:1007-1149 | With a function without lines at 100 and a call thunk at 200, FUNC_HAS_NO_LINES is answered at 110 and FUNC_IS_TRAMPOLINE at 210 |
| SymbolTable.ThunksAreTold | debugger/hash.c:268-292 | "if1632/call32.s" is a call thunk's source file, "mycall32.s" and "if1632/call32.c" are none |
| SymbolTable.SymbolTable.MoveAll | debugger/hash.c:192-200 | Every symbol of that name in the chain gets the address, no other |
| SymbolTable.SymbolTable.Update | debugger/hash.c:192-221 | The symbols that serve are moved and made valid, no other changes, and an index in address order stays so if and only if the new address is not below a symbol that stays in front of a moved one nor above one that stays behind |
| SymbolTable.SymbolTable.AddSymbol | debugger/hash.c:176-297 | The first symbol that serves is returned, moved and made valid, or a new one is linked in at the head of its chain and the index put out of use; an index in address order stays so if and only if the new address fits between the symbols that stay, read before the call |
| SymbolTable.SymbolTable.MissesIff | debugger/hash.c:204-221 | A new symbol is added if and only if, among all symbols there are, none of that name is there or, with a source file, none of that name that is invalid or at that address |
| SymbolTable.SymbolTable.SetSymbolValue | debugger/hash.c:441-462 | The named symbol, or the one with an underscore before the name, gets the address; of its flags only the invalid one stays; an index in address order stays so if and only if no such symbol is found or the new address fits between those around it |
| SymbolTable.SymbolTable.NamedIs | debugger/hash.c:446-457 | The symbol set is, among all there are, one of that name or, if there is none and the name does not begin with an underscore, one of that name after one; none is set if and only if there is neither |
| SymbolTable.SymbolTable.FixedIs | debugger/hash.c:459-461 | The offset stays, a missing segment becomes the data segment, a system selector 0, and any other address stays as it is |
| SymbolTable.SymbolTable.OrderedFindsAll | debugger/hash.c:499-592 | With distinct addresses an index is in address order if and only if a search for each symbol's address finds it |
| SymbolTable.MovedUnderIndex | debugger/hash.c:176-221 | Symbols added at 1, 2 and 3 and indexed; the second is added again at 9, and a search for 9 finds the third |
| LineDda.LineDDA | graphics/GdiMath.c:74-125 | The callbacks are, in order, the max(dx, dy) + 1 points of the ideal line, in all octants |
| LineDda.StepRounds | graphics/GdiMath.c:107-124 | The decision variable's two increments keep the minor coordinate rounded to nearest |
| LineDda.EndsMeet | graphics/GdiMath.c:74-125 | The first point is (x1, y1) and the last one (x2, y2) |
| LineDda.StepsByOne | graphics/GdiMath.c:74-125 | The major coordinate moves by one each time, the minor one by nothing or one, both towards the end |
| LineDda.WithinHalfAUnit | graphics/GdiMath.c:74-125 | Every point is within half a unit of the true line and inside the rectangle of its ends |
| ScrollBar.MulDivRounds | graphics/GdiMath.c:37-70 | For a positive divisor, 2*abs(r*d - a*b) <= d |
| ScrollBar.RoundsUnique | graphics/GdiMath.c:37-70 | No other integer is as near, ties apart |
| ScrollBar.MulDivNegativeIff | graphics/GdiMath.c:37-70 | For a negative divisor the result is a nearest integer exactly when the divisor is not -1 and the product is at most half of it or an odd multiple of half |
| ScrollBar.MinusOneMisses | graphics/GdiMath.c:37-70 | 3 times 1 over -1 comes out as -2 |
| ScrollBar.ScrollInfo.SetTrackingPos | controls/Scroll.c:943-969 | With x the offset before the call as a short: before the track the position is 0, from its end on the whole range, in between 2*abs(pos*track - x*range) <= track; and if asked for, 2*abs(thumb*range - pos*track) <= range; without a range or a track the position is 0 |
| ScrollBar.TrackingFollows | controls/Scroll.c:943-969 | The computed position and thumb offset satisfy that for every offset, range and track |
| ScrollBar.TracksMonotone | controls/Scroll.c:943-969 | From that alone, a larger offset never gives a smaller position |
| ScrollBar.OnTrackIs | controls/Scroll.c:952-956 | The offset is kept between the ends of the track |
| ScrollBar.HalfWay | controls/Scroll.c:958-963 | Half-way along a track of 200, a range of 100 is at 50 and nowhere else |
| ScrollBar.ScrollInfo.ReleaseAndGrab | controls/Scroll.c:384-394 | Letting the thumb go and grabbing it where it came to rest changes neither position nor offset |
| ScrollBar.SnapStable | controls/Scroll.c:943-969 | For a positive range and a track below 32768, tracking from the thumb offset that a position sets gives the same position and offset |
| ScrollBar.SnapBack | controls/Scroll.c:943-969 | Scaling to the longer ruler and back is the identity |
| ScrollBar.ScaledInRange | controls/Scroll.c:943-969 | Scaled positions stay on the ruler, and its ends go to its ends |
| ScrollBar.ScaledMonotone | controls/Scroll.c:943-969 | A larger offset never gives a smaller position |
| ScrollBar.TrackingFitsInt | controls/Scroll.c:943-969 | On such a bar no intermediate value leaves a 32-bit int |
| Justify.TextJustifyBresenham | graphics/GdiDCAttr.c:1941-1963 | On a zeroed array, each break gets its share, and the shares add up to the extra space, or to 0 when it is negative |
| Justify.SpreadRest | graphics/GdiDCAttr.c:1953-1962 | The strided loop hands out exactly the rest, one unit at every stride-th break, and is done before it leaves the array |
| Justify.StridesInside | graphics/GdiDCAttr.c:1953-1962 | Every strided place lies in the array |
| Justify.SharesAreEven | graphics/GdiDCAttr.c:1941-1963 | Every share is extra/count or one more |
| Justify.SharesAreSpread | graphics/GdiDCAttr.c:1953-1962 | The breaks that get one unit more begin with the first and are at least count/rest apart |
| Justify.SetTextJust | graphics/GdiDCAttr.c:1731-1737 | No array without breaks, otherwise a zeroed one filled in, adding up to the extra space if and only if that is not negative |
| Justify.NegativeSpaceIsLost | graphics/GdiDCAttr.c:1941-1963 | Minus 5 units over 2 breaks: both get nothing |

## Left out

- EditLines.TableIsLinesIff: speaks of wrapping switched off; a wrapped table is proved to be a table (`SplitIsTable`), not to be lines.
- EditLines.WordLeftAdvancesIff: reading the character before the text, which the word-break procedure does when only blanks precede, counts as reaching the start.
- EditControl.Control.ReformatFragments: called with texts of which every cut advances (`Ends`, and `AdvancesIff` for one cut); a word-break procedure that goes back behind the start of a fragment and still comes to an end is left out.
- EditControl.Control.Admit: like InsertChars, not called with a limit below the present length, which EM_LIMITTEXT allows; len is negative then.
- EditControl.Control.InsertChars: the buffer has one cell beyond memlen, because the shift loop starts one cell behind the NUL (controls/Edit.c:1507). The length limit is at least the present length; a lower one makes len negative. The width loop is modelled as stopping at no characters. Inserted strings hold no NUL.
- EditModel.StepKeepsGood: WM_SETTEXT and EM_SETHANDLE with a text beyond the limit, which they do not check; Control has no method for them. Messages that change width, font, tabs or word-break procedure change the style, which is fixed in a run.
- EditControl.Control.BackspaceKey: not called where its range would start before the text (`KeysStayInTextIff`); DeleteChars says that it relies on its callers for that.
- EditControl.Control.HandleDelete: not called where its range would end behind the text, likewise; Shift+Delete's copy to the clipboard is left out.
- EditControl.Control.Empty: a control created with text starts with one fragment for all of it until the first reformatting, which is not modelled.
- EditModel.RunKeepsGood: anchors set by EM_SETSEL beyond the text are not part of a run, and insertions in it fit (`InsertFaithfulIff` covers the others).
- Soft line breaks (ES_FORMATLINE, InsertRRN and DeleteRRN), Ctrl with the arrow keys, vertical caret movement, scrolling, painting and notifications of the edit control.
- Text extents, the word-break procedure and case conversion are functions given with the style; case conversion keeps NUL, CR and LF.
- A control of width zero, except that ReformatFragments then leaves the table alone.
- ListBox.ListBox.LBoxAddItem: more items than a 16-bit word counts, owner-draw and bitmap data, and the highlighting that LB_SETCURSEL does after the addition are not modelled.
- ListBox.ListBox.LBoxFindItem: matching is a predicate on the item's data; the selection that LB_SELECTSTRING makes afterwards is left out.
- ListBox.ListBox.LBoxDeletePosition: highlighting and the count of selected items, which deletion does not touch.
- DeviceContext.Context.SaveDC: the pen, brush, font and region fields are one value of any type; handles' reference counts and the driver's own data are left out.
- GdiPath.CallKeepsOk: WidenPath is a call on values only, and FlattenPath is a run of FlattenBezier calls; the floating-point curve itself is a parameter. Arrays are reached through the memory field by address; an allocation never returns an address used before, so that a pointer to a freed array never becomes good again by chance.
- DeviceContext.Context.CloseFigure: not called through pointers to freed arrays, like AddEntries and FlattenBezier; when that can come about is stated in SharedArrays.
- DeviceContext.Context.RestoreDC: the most negative 32-bit argument, whose negation overflows.
- DeviceContext.Context.DeleteDC: the cache of display contexts is left out.
- DeviceContext.Context.LoadWidths: the copy of the widths kept with the font.
- Breakpoints.RunIsTransparent: the protocol is an assumption, since the command loop is driven by the user: tables change only while stopped, nobody stores another byte where an entry remembers one (`StoreKeepsConsistentIff` says that no more can be allowed), and a page that holds a patch stays readable. A failing mprotect is left out.
- BreakTable.Patcher.RestartExecution: which mode applies (whether the instruction is a call, where the next one starts, what the line status is) is a parameter; register changes, among them the instruction pointer's step back over INT3, are left out.
- SymbolTable.SymbolTable.CheckLinenoStatus: requires a symbol, since the code reads the first entry of the index without testing for one.
- SymbolTable.SymbolTable.SetSymbolValue: the 256-character buffer for the name with the underscore; segment registers and the test for system selectors are parameters.
- SymbolTable.Qsort: an insertion sort in place of the C library's qsort; only its contract matters, and for more than one invalid symbol the C standard promises less (`ConsistentIff`).
- SymbolTable.SymbolTable.FindNearestSymbol: the text it formats (source line, argument list) and the copies of its search in two functions, modelled once.
- Types and local variables of symbols, the stabs and ELF readers, and loading entry points.
- LineDda.LineDDA: coordinates are unbounded integers; twice the extent of the line would have to fit 32 bits. The callback's own effect is left out.
- ScrollBar.MulDivRounds: products are unbounded integers; `TrackingFitsInt` shows that the scroll bar stays within 32 bits.
- ScrollBar.ScrollInfo.SetTrackingPos: the position counts from 0, as in the code, which does not add nMin.
- Failure of memory allocation everywhere.
- Buttons, combo boxes, statics, window messages, regions, brushes, printing and the 16-bit stubs.
