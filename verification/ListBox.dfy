/**
 The item store of a list box (controls/Listbox.c): a singly linked list with head, tail and
 count, and a table with a slot for every item.  Each method is proved against the sequence of
 items; Valid() is what every successful operation keeps.
 */
module ListBox {
  import opened ListOrder

  /** Slots are allocated in portions of this size. */
  const LPD_SLOTG: nat := 16

  /** Up to this count, one more item can be counted in a 16-bit word. */
  const MAX_ITEMS: nat := 0xffff

  class Item<T> {
    const entry: Entry<T>
    const slot: nat
    var next: Item?<T>

    constructor (entry: Entry<T>, slot: nat)
      ensures this.entry == entry && this.slot == slot && next == null
    {
      this.entry, this.slot, next := entry, slot, null;
    }
  }

  /** Every slot below k holds an item of nodes whose slot it is: then k <= |nodes|. */
  lemma {:induction false} SlotsAreItems<T>(slots: seq<Item?<T>>, nodes: seq<Item<T>>, k: nat)
    requires k <= |slots|
    requires forall s | 0 <= s < k :: slots[s] != null && slots[s] in nodes && slots[s].slot == s
    ensures k <= |nodes|
    decreases k
  {
    if k > 0 {
      var last := slots[k - 1];
      var at :| 0 <= at < |nodes| && nodes[at] == last;
      var rest := nodes[..at] + nodes[at + 1..];
      forall s | 0 <= s < k - 1 ensures slots[s] in rest {
        var i :| 0 <= i < |nodes| && nodes[i] == slots[s];
        assert i != at;
        assert rest[if i < at then i else i - 1] == nodes[i];
      }
      SlotsAreItems(slots, rest, k - 1);
    }
  }

  function Entries<T>(nodes: seq<Item<T>>): (s: seq<Entry<T>>)
    ensures |s| == |nodes|
    ensures forall i | 0 <= i < |s| :: s[i] == nodes[i].entry
  {
    seq(|nodes|, i requires 0 <= i < |nodes| => nodes[i].entry)
  }

  lemma EntriesSpliced<T>(was: seq<Item<T>>, k: nat, item: Item<T>)
    requires k <= |was|
    ensures Entries(InsertAt(was, k, item)) == InsertAt(Entries(was), k, item.entry)
  {
  }

  lemma EntriesCut<T>(was: seq<Item<T>>, k: nat)
    requires k < |was|
    ensures Entries(RemoveAt(was, k)) == RemoveAt(Entries(was), k)
  {
  }

  class ListBox<T(!new)> {
    var lpListHead: Item?<T>
    var lpListTail: Item?<T>
    var wItemCount: Word
    var wSlotCount: Word
    var lpItemList: array?<Item?<T>>
    var wSelection: Word
    const sorted: bool
    ghost var nodes: seq<Item<T>>

    /** The chain runs through nodes, which are all different. */
    ghost predicate Chained()
      reads this`nodes, this`lpListHead, this`lpListTail, nodes`next
    {
      && (forall i, j | 0 <= i < j < |nodes| :: nodes[i] != nodes[j])
      && lpListHead == (if nodes == [] then null else nodes[0])
      && (nodes != [] ==> lpListTail == nodes[|nodes| - 1])
      && (forall i {:trigger nodes[i].next} | 0 <= i < |nodes| ::
            nodes[i].next == if i + 1 < |nodes| then nodes[i + 1] else null)
    }

    /** The slot table grows in groups up to 65536 entries; its size is kept in a 16-bit word. */
    ghost predicate SlotTable()
      reads this`lpItemList, this`wSlotCount
    {
      lpItemList != null && lpItemList.Length <= 0x10000 && lpItemList.Length % LPD_SLOTG == 0
      && wSlotCount == lpItemList.Length % 0x10000
    }

    /** Every item sits in its own slot, and every other slot is empty. */
    ghost predicate Slotted()
      reads this, nodes, lpItemList
    {
      if lpItemList == null then nodes == []
      else
        && SlotTable() && wItemCount <= lpItemList.Length
        && (forall i | 0 <= i < |nodes| :: nodes[i].slot < lpItemList.Length && lpItemList[nodes[i].slot] == nodes[i])
        && (forall s | 0 <= s < lpItemList.Length && lpItemList[s] != null ::
              lpItemList[s] in nodes && lpItemList[s].slot == s)
    }

    ghost predicate Valid()
      reads this, nodes, lpItemList
    {
      |nodes| == wItemCount && Chained() && Slotted()
    }

    ghost function Items(): (s: seq<Entry<T>>)
      reads this`nodes
      ensures |s| == |nodes|
    {
      Entries(nodes)
    }

    constructor Empty(sorted: bool)
      ensures Valid() && Items() == [] && wSelection == NONE && this.sorted == sorted
      ensures nodes == [] && lpItemList == null
    {
      lpListHead, lpListTail, wItemCount, wSlotCount, lpItemList := null, null, 0, 0, null;
      wSelection, nodes := NONE, [];
      this.sorted := sorted;
    }

    /** Makes sure that a slot is free. */
    method LBoxGetSlot()
      requires Valid() && wItemCount < MAX_ITEMS
      modifies this`lpItemList, this`wSlotCount
      ensures Valid() && lpItemList != null && wItemCount < lpItemList.Length
      ensures lpItemList == old(lpItemList) || fresh(lpItemList)
    {
      if lpItemList == null {
        lpItemList := new Item?<T>[LPD_SLOTG](_ => null);
        wSlotCount := LPD_SLOTG;
      }
      if wSlotCount == wItemCount {
        GrowSlots();
      }
    }

    /** One more group of slots, for a full table or one of 65536 entries without items. */
    method GrowSlots()
      requires Valid() && lpItemList != null && wSlotCount == wItemCount < MAX_ITEMS
      modifies this`lpItemList, this`wSlotCount
      ensures Valid() && lpItemList != null && wItemCount < lpItemList.Length && fresh(lpItemList)
      ensures lpItemList.Length == wItemCount + LPD_SLOTG
    {
      hide Chained;
      var grown := new Item?<T>[wSlotCount + LPD_SLOTG](_ => null);
      forall s | 0 <= s < wSlotCount {
        grown[s] := lpItemList[s];
      }
      assert forall s | 0 <= s < wSlotCount :: grown[s] == lpItemList[s];
      assert forall s | wSlotCount <= s < grown.Length :: grown[s] == null;
      wSlotCount := (wSlotCount + LPD_SLOTG) % 0x10000;
      lpItemList := grown;
    }

    /** The scan for a free slot: it needs no bound of its own. */
    method FreeSlot() returns (uSlot: nat)
      requires Valid() && lpItemList != null && wItemCount < lpItemList.Length
      ensures uSlot < lpItemList.Length && lpItemList[uSlot] == null
    {
      uSlot := 0;
      SomeSlotFree(0);
      while lpItemList[uSlot] != null
        invariant uSlot < lpItemList.Length
        invariant forall s | 0 <= s < uSlot :: lpItemList[s] != null
        decreases lpItemList.Length - uSlot
      {
        uSlot := uSlot + 1;
        SomeSlotFree(uSlot);
      }
    }

    lemma SomeSlotFree(k: nat)
      requires Valid() && lpItemList != null && wItemCount < lpItemList.Length
      requires k <= lpItemList.Length && forall s | 0 <= s < k :: lpItemList[s] != null
      ensures k < lpItemList.Length
    {
      SlotsAreItems(lpItemList[..], nodes, k);
    }

    // -------------------------------------------------------------- looking up

    method LBoxItemFromIndex(wIndex: Word) returns (item: Item?<T>)
      requires Valid()
      ensures item == if wIndex < |nodes| then nodes[wIndex] else null
    {
      if wIndex >= wItemCount {
        return null;
      }
      if wIndex == 0 {
        return lpListHead;
      }
      if wIndex == wItemCount - 1 {
        return lpListTail;
      }
      var nCount, lpCurrent := 0, lpListHead;
      while nCount < wIndex
        invariant nCount <= wIndex && lpCurrent == nodes[nCount]
      {
        nCount, lpCurrent := nCount + 1, lpCurrent.next;
      }
      return lpCurrent;
    }

    /** The first item with the given command id. */
    method LBoxItemFromCommand(command: Word) returns (item: Item?<T>, wIndex: int)
      requires Valid()
      ensures item == null <==> forall i | 0 <= i < |nodes| :: nodes[i].entry.command != command
      ensures item != null ==>
                && 0 <= wIndex < |nodes| && nodes[wIndex] == item && item.entry.command == command
                && forall i | 0 <= i < wIndex :: nodes[i].entry.command != command
    {
      item, wIndex := lpListHead, 0;
      while item != null
        invariant 0 <= wIndex <= |nodes| && item == if wIndex < |nodes| then nodes[wIndex] else null
        invariant forall i | 0 <= i < wIndex :: nodes[i].entry.command != command
        decreases |nodes| - wIndex
      {
        if item.entry.command == command {
          return;
        }
        item, wIndex := item.next, wIndex + 1;
      }
    }

    method LBoxFindItem(wIndexStart: Word, matches: T -> bool) returns (r: int)
      requires Valid()
      ensures IsCyclicFind(Items(), matches, wIndexStart, r)
    {
      hide IsCyclicFind;
      if wIndexStart == NONE {
        r := FindToEnd(lpListHead, 0, matches);
        TwoPartFind(Items(), matches, wIndexStart, 0, r, LB_ERR);
        return;
      }
      var item := LBoxItemFromIndex(wIndexStart);
      r := LB_ERR;
      if item != null {
        r := FindToEnd(item.next, wIndexStart + 1, matches);
      }
      ghost var behind := r;
      if r == LB_ERR {
        r := FindUpTo(wIndexStart, matches);
      }
      TwoPartFind(Items(), matches, wIndexStart, if wIndexStart < |nodes| then wIndexStart + 1 else 0,
                  behind, if behind == LB_ERR then r else LB_ERR);
    }

    /** The first loop of LBoxFindItem: from the item at index first to the tail. */
    method FindToEnd(start: Item?<T>, first: nat, matches: T -> bool) returns (r: int)
      requires Valid() && first <= |nodes| && start == if first < |nodes| then nodes[first] else null
      ensures FirstFound(Items(), matches, first, |nodes|, r)
    {
      var item, wIndex := start, first;
      while item != null
        invariant first <= wIndex <= |nodes| && item == if wIndex < |nodes| then nodes[wIndex] else null
        invariant forall i | first <= i < wIndex :: !Found(matches, nodes[i].entry)
        decreases |nodes| - wIndex
      {
        if !item.entry.separator {
          if matches(item.entry.data) {
            return wIndex;
          }
        }
        wIndex, item := wIndex + 1, item.next;
      }
      return LB_ERR;
    }

    /** The second loop of LBoxFindItem: from the head to the item the search started behind. */
    method FindUpTo(wIndexStart: Word, matches: T -> bool) returns (r: int)
      requires Valid()
      ensures FirstFound(Items(), matches, 0, if wIndexStart < |nodes| then wIndexStart + 1 else |nodes|, r)
    {
      var wIndex, item := 0, lpListHead;
      while wIndex <= wIndexStart
        invariant 0 <= wIndex <= |nodes| && wIndex <= wIndexStart + 1
        invariant item == if wIndex < |nodes| then nodes[wIndex] else null
        invariant forall i | 0 <= i < wIndex :: !Found(matches, nodes[i].entry)
        decreases |nodes| - wIndex
      {
        if item == null {
          return -1;
        }
        if !item.entry.separator {
          if matches(item.entry.data) {
            return wIndex;
          }
        }
        wIndex, item := wIndex + 1, item.next;
      }
      return LB_ERR;
    }

    // -------------------------------------------------------------- adding

    /** Links item in front of the head. */
    method LinkHead(item: Item<T>)
      requires Chained() && nodes != [] && item !in nodes
      modifies this`lpListHead, this`nodes, item`next
      ensures Chained() && nodes == [item] + old(nodes)
    {
      item.next := lpListHead;
      lpListHead := item;
      nodes := [item] + nodes;
    }

    /** Links item behind the tail. */
    method LinkTail(item: Item<T>)
      requires Chained() && nodes != [] && item !in nodes && item.next == null
      modifies this`lpListTail, this`nodes, lpListTail`next
      ensures Chained() && nodes == old(nodes) + [item]
    {
      lpListTail.next := item;
      lpListTail := item;
      nodes := nodes + [item];
    }

    /** Links item behind the item at index k - 1, which is not the tail. */
    method LinkAfter(after: Item<T>, item: Item<T>, ghost k: nat)
      requires Chained() && item !in nodes && 0 < k <= |nodes| && after == nodes[k - 1]
      modifies this`lpListTail, this`nodes, after`next, item`next
      ensures Chained() && nodes == InsertAt(old(nodes), k, item)
    {
      item.next := after.next;
      if after.next == null {
        lpListTail := item;
      }
      after.next := item;
      nodes := InsertAt(nodes, k, item);
    }

    /** The slot table of a list of the nodes was and one item more, which is counted already. */
    ghost predicate SlotsHold(was: seq<Item<T>>, item: Item<T>)
      reads this`lpItemList, this`wSlotCount, this`wItemCount, lpItemList
    {
      && wItemCount == |was| + 1 && item !in was
      && SlotTable() && wItemCount <= lpItemList.Length
      && item.slot < lpItemList.Length && lpItemList[item.slot] == item
      && (forall i | 0 <= i < |was| :: was[i].slot < lpItemList.Length && lpItemList[was[i].slot] == was[i])
      && (forall s | 0 <= s < lpItemList.Length && lpItemList[s] != null ::
            (lpItemList[s] == item || lpItemList[s] in was) && lpItemList[s].slot == s)
    }

    /** The new item has its slot and is counted, but not linked yet. */
    ghost predicate Pending(item: Item<T>)
      reads this, lpItemList
    {
      SlotsHold(nodes, item)
    }

    lemma TailIsNode()
      requires Chained() && nodes != []
      ensures lpListTail in nodes
    {
    }

    lemma PendingCount(item: Item<T>)
      requires Pending(item)
      ensures |nodes| == wItemCount - 1 && item !in nodes
    {
    }

    /** The common start of LBoxAddItem: a slot is found and the item counted. */
    method NewItem(entry: Entry<T>) returns (item: Item<T>)
      requires Valid() && wItemCount < MAX_ITEMS
      modifies this`lpItemList, this`wSlotCount, this`wItemCount, lpItemList
      ensures Chained() && Pending(item) && fresh(item) && item.entry == entry && item.next == null
      ensures wItemCount == old(wItemCount) + 1
      ensures lpItemList == old(lpItemList) || fresh(lpItemList)
    {
      LBoxGetSlot();
      var uSlot := FreeSlot();
      item := new Item<T>(entry, uSlot);
      lpItemList[uSlot] := item;
      wItemCount := wItemCount + 1;
    }

    /** A pending item that has been linked. */
    lemma LinkedIsValid(item: Item<T>, was: seq<Item<T>>, k: nat)
      requires Chained() && k <= |was| && nodes == InsertAt(was, k, item)
      requires SlotsHold(was, item)
      ensures Valid()
    {
      forall n | n in was ensures n in nodes {
        var i :| 0 <= i < |was| && was[i] == n;
        assert nodes[if i < k then i else i + 1] == n;
      }
      assert nodes[k] == item;
    }

    /** LBoxAddItem.  An addition that is not accepted leaves the item in its slot and counted,
        but in no chain. */
    method LBoxAddItem(cmp: Compare<T>, wFunc: AddFunc, wPosition: Word, entry: Entry<T>) returns (r: int)
      requires Valid() && wItemCount < MAX_ITEMS
      modifies this, lpItemList, nodes
      ensures lpItemList == old(lpItemList) || fresh(lpItemList)
      ensures forall n | n in nodes :: n in old(nodes) || fresh(n)
      ensures Valid() <==> Accepts(|old(nodes)|, wFunc, wPosition)
      ensures Accepts(|old(nodes)|, wFunc, wPosition) ==>
                var k := PlaceOf(cmp, sorted, old(Items()), wFunc, wPosition, entry.data);
                && r == k
                && Items() == InsertAt(old(Items()), k, entry)
                && wSelection == SelectionAfter(|old(nodes)|, wFunc, sorted, k, old(wSelection))
      ensures !Accepts(|old(nodes)|, wFunc, wPosition) ==>
                r == LB_ERR && nodes == old(nodes) && Items() == old(Items()) && wItemCount == old(wItemCount) + 1
    {
      hide Chained, SlotsHold, Entries;
      ghost var items := Items();
      var item := NewItem(entry);
      HeadOfNone();
      assert Items() == items;
      if lpListHead == null {
        LinkFirst(item);
        assert Items() == InsertAt(items, 0, entry);
        return 0;
      }
      match wFunc
      case Insert => r := InsertItem(cmp, item, wPosition);
      case Append => r := AppendItem(cmp, item);
      case OtherFunc =>
        PendingCount(item);
        r := LB_ERR;
    }

    lemma HeadOfNone()
      requires Chained()
      ensures lpListHead == null <==> nodes == []
    {
    }

    method LinkFirst(item: Item<T>)
      requires Chained() && Pending(item) && nodes == [] && item.next == null
      modifies this`lpListHead, this`lpListTail, this`nodes
      ensures Valid() && nodes == [item]
    {
      ghost var was := nodes;
      lpListHead, lpListTail := item, item;
      nodes := [item];
      LinkedIsValid(item, was, 0);
    }

    /** LAF_INSERT into a list that is not empty. */
    method InsertItem(ghost cmp: Compare<T>, item: Item<T>, wPosition: Word) returns (r: int)
      requires Chained() && Pending(item) && nodes != [] && item.next == null
      modifies this`lpListHead, this`lpListTail, this`nodes, this`wSelection, nodes, item
      ensures Valid() <==> Accepts(|old(nodes)|, Insert, wPosition)
      ensures forall n | n in nodes :: n in old(nodes) || n == item
      ensures Accepts(|old(nodes)|, Insert, wPosition) ==>
                var k := PlaceOf(cmp, sorted, old(Items()), Insert, wPosition, item.entry.data);
                && r == k
                && Items() == InsertAt(old(Items()), k, item.entry)
                && wSelection == SelectionAfter(|old(nodes)|, Insert, sorted, k, old(wSelection))
      ensures !Accepts(|old(nodes)|, Insert, wPosition) ==> r == LB_ERR && nodes == old(nodes)
    {
      ghost var was, items := nodes, Items();
      if wPosition != NONE && wPosition > wItemCount - 1 {
        return LB_ERR;
      }
      r := InsertLink(item, wPosition);
      if 0 < wPosition < wItemCount - 1 && wPosition <= wSelection {
        wSelection := Bump(wSelection);
      }
      hide Chained, SlotsHold, Valid, Entries, InsertAt;
      InsertAtMembers(was, r, item);
      LinkedIsValid(item, was, r);
      EntriesSpliced(was, r, item);
    }

    /** Links an item at a position that is in range. */
    method InsertLink(item: Item<T>, wPosition: Word) returns (r: nat)
      requires Chained() && nodes != [] && item !in nodes && item.next == null
      requires wItemCount == |nodes| + 1 && (wPosition == NONE || wPosition <= |nodes|)
      modifies this`lpListHead, this`lpListTail, this`nodes, nodes, item
      ensures r == if wPosition == NONE then |old(nodes)| else wPosition
      ensures Chained() && nodes == InsertAt(old(nodes), r, item)
    {
      if wPosition == 0 {
        LinkHead(item);
        return 0;
      }
      if wPosition == NONE || wPosition == wItemCount - 1 {
        LinkTail(item);
        return wItemCount - 1;
      }
      var after := Before(wPosition);
      LinkAfter(after, item, wPosition);
      return wPosition;
    }

    /** The walk of LAF_INSERT: the item in front of a position inside the list. */
    method Before(wPosition: Word) returns (after: Item<T>)
      requires Chained() && 0 < wPosition < |nodes|
      ensures after == nodes[wPosition - 1]
    {
      var wItemIndex := 1;
      var current := lpListHead.next;
      after := lpListHead;
      while wItemIndex < wPosition
        invariant 1 <= wItemIndex <= wPosition && current == nodes[wItemIndex] && after == nodes[wItemIndex - 1]
      {
        wItemIndex, after, current := wItemIndex + 1, current, current.next;
      }
    }

    /** LAF_APPEND to a list that is not empty. */
    method AppendItem(cmp: Compare<T>, item: Item<T>) returns (r: int)
      requires Chained() && Pending(item) && nodes != [] && item.next == null
      modifies this`lpListHead, this`lpListTail, this`nodes, this`wSelection, nodes, item
      ensures Valid()
      ensures forall n | n in nodes :: n in old(nodes) || n == item
      ensures var k := if sorted then SortedPos(cmp, old(Items()), item.entry.data, 0) else |old(nodes)|;
              && r == k
              && Items() == InsertAt(old(Items()), k, item.entry)
              && wSelection == SelectionAfter(|old(nodes)|, Append, sorted, k, old(wSelection))
    {
      hide Chained, SlotsHold, Valid, Entries, InsertAt;
      ghost var was := nodes;
      assert |was| == wItemCount - 1 && item !in was by { PendingCount(item); }
      var k := wItemCount - 1;
      if !sorted {
        TailIsNode();
        LinkTail(item);
        AppendIsInsertAt(was, item);
      } else {
        k := SortedLink(cmp, item);
        if wSelection != NONE && k <= wSelection {
          wSelection := Bump(wSelection);
        }
      }
      InsertAtMembers(was, k, item);
      LinkedIsValid(item, was, k);
      EntriesSpliced(was, k, item);
      return k;
    }

    /** Links an item where the scan of a sorted addition stops. */
    method SortedLink(cmp: Compare<T>, item: Item<T>) returns (k: nat)
      requires Chained() && nodes != [] && item !in nodes
      modifies this`lpListHead, this`lpListTail, this`nodes, nodes, item
      ensures k == SortedPos(cmp, old(Items()), item.entry.data, 0)
      ensures Chained() && nodes == InsertAt(old(nodes), k, item)
    {
      var after;
      after, k := SortedScan(cmp, item.entry.data);
      if after != null {
        LinkAfter(after, item, k);
      } else {
        LinkHead(item);
      }
    }

    /** The scan of a sorted addition: the item to link behind, or null for the head. */
    method SortedScan(cmp: Compare<T>, x: T) returns (after: Item?<T>, wItemIndex: nat)
      requires Chained()
      ensures wItemIndex == SortedPos(cmp, Items(), x, 0)
      ensures after == if wItemIndex == 0 then null else nodes[wItemIndex - 1]
    {
      var current, nCompPrev := lpListHead, 1;
      after, wItemIndex := null, 0;
      while current != null
        invariant 0 <= wItemIndex <= |nodes| && nCompPrev > 0
        invariant current == if wItemIndex < |nodes| then nodes[wItemIndex] else null
        invariant after == if wItemIndex == 0 then null else nodes[wItemIndex - 1]
        invariant SortedPos(cmp, Items(), x, 0) == SortedPos(cmp, Items(), x, wItemIndex)
        decreases |nodes| - wItemIndex
      {
        var nCompAfter := cmp(x, current.entry.data);
        if nCompPrev > 0 && nCompAfter <= 0 {
          break;
        }
        nCompPrev := nCompAfter;
        after, current, wItemIndex := current, current.next, wItemIndex + 1;
      }
    }

    // -------------------------------------------------------------- deleting

    /** LBoxDeleteItem with LIF_BYPOSITION. */
    method LBoxDeletePosition(wPosition: Word) returns (r: int)
      requires Valid()
      modifies this, lpItemList, nodes
      ensures Valid()
      ensures wPosition >= |old(nodes)| ==> r == LB_ERR && unchanged(this) && Items() == old(Items())
      ensures wPosition < |old(nodes)| ==>
                r == wItemCount && Items() == RemoveAt(old(Items()), wPosition) && wSelection == NONE
    {
      var item := LBoxItemFromIndex(wPosition);
      if item == null {
        return LB_ERR;
      }
      r := RemoveItem(item, wPosition);
    }

    /** LBoxDeleteItem by command id. */
    method LBoxDeleteCommand(command: Word) returns (r: int)
      requires Valid()
      modifies this, lpItemList, nodes
      ensures Valid()
      ensures (forall i | 0 <= i < |old(Items())| :: old(Items())[i].command != command) ==>
                r == LB_ERR && unchanged(this) && Items() == old(Items())
      ensures forall k | 0 <= k < |old(Items())| && old(Items())[k].command == command
                         && (forall i | 0 <= i < k :: old(Items())[i].command != command) ::
                r == wItemCount && Items() == RemoveAt(old(Items()), k) && wSelection == NONE
    {
      ghost var items := Items();
      var item, wIndex := LBoxItemFromCommand(command);
      if item == null {
        return LB_ERR;
      }
      assert items[wIndex].command == command;
      r := RemoveItem(item, wIndex);
    }

    /** What LBoxDeleteItem does once the item is found. */
    method RemoveItem(item: Item<T>, ghost k: nat) returns (r: int)
      requires Valid() && k < |nodes| && item == nodes[k]
      modifies this, lpItemList, nodes
      ensures Valid() && lpItemList == old(lpItemList)
      ensures r == wItemCount && Items() == RemoveAt(old(Items()), k) && wSelection == NONE
    {
      hide Valid, Slotted, Chained, Emptied, Entries, RemoveAt;
      ghost var was := nodes;
      EmptySlot(item, k);
      RemoveAtMembers(nodes, k);
      Unlink(item, k);
      wItemCount := wItemCount - 1;
      wSelection := NONE;
      RemovedIsValid(was, k);
      EntriesCut(was, k);
      return wItemCount;
    }

    method EmptySlot(item: Item<T>, ghost k: nat)
      requires Valid() && k < |nodes| && item == nodes[k]
      modifies lpItemList
      ensures Chained() && Emptied(nodes, k) && |nodes| == wItemCount <= lpItemList.Length
    {
      lpItemList[item.slot] := null;
    }

    /** Takes an item out of the chain.  The tail is corrected only when the item has a
        predecessor: after the last item is gone, it is left as it was. */
    method Unlink(item: Item<T>, ghost k: nat)
      requires Chained() && k < |nodes| && item == nodes[k]
      modifies this`lpListHead, this`lpListTail, this`nodes, nodes
      ensures Chained() && nodes == RemoveAt(old(nodes), k)
    {
      ghost var was := nodes;
      RemoveAtMembers(was, k);
      if item == lpListHead {
        lpListHead := item.next;
        nodes := RemoveAt(was, k);
        return;
      }
      hide RemoveAt;
      var prev := Predecessor(item, k);
      if prev != null {
        prev.next := item.next;
      }
      if item == lpListTail {
        lpListTail := prev;
      }
      nodes := RemoveAt(was, k);
    }

    method Predecessor(item: Item<T>, ghost k: nat) returns (prev: Item?<T>)
      requires Chained() && 0 < k < |nodes| && item == nodes[k]
      ensures prev == nodes[k - 1]
    {
      prev := lpListHead;
      ghost var j := 0;
      while prev != null && prev.next != item
        invariant 0 <= j < k && prev == nodes[j]
        decreases k - j
      {
        prev := prev.next;
        j := j + 1;
      }
    }

    /** The slot table of the nodes was, with the slot of the one at k emptied. */
    ghost predicate Emptied(was: seq<Item<T>>, k: nat)
      reads this`lpItemList, this`wSlotCount, lpItemList
    {
      && k < |was| && (forall i, j | 0 <= i < j < |was| :: was[i] != was[j])
      && SlotTable()
      && was[k].slot < lpItemList.Length && lpItemList[was[k].slot] == null
      && (forall i | 0 <= i < |was| && i != k :: was[i].slot < lpItemList.Length && lpItemList[was[i].slot] == was[i])
      && (forall s | 0 <= s < lpItemList.Length && lpItemList[s] != null ::
            lpItemList[s] in was && lpItemList[s].slot == s)
    }

    lemma RemovedIsValid(was: seq<Item<T>>, k: nat)
      requires Chained() && Emptied(was, k) && nodes == RemoveAt(was, k) && wItemCount == |nodes| <= lpItemList.Length
      ensures Valid()
    {
      forall s | 0 <= s < lpItemList.Length && lpItemList[s] != null ensures lpItemList[s] in nodes {
        var i :| 0 <= i < |was| && was[i] == lpItemList[s];
        assert i != k;
        assert nodes[if i < k then i else i - 1] == was[i];
      }
    }

    /** LBoxResetContent: with bDeleteData every item is released, otherwise the items stay. */
    method LBoxResetContent(bDeleteData: bool) returns (ghost released: seq<Item<T>>)
      requires Valid()
      modifies this
      ensures Valid()
      ensures wSelection == if old(nodes) == [] then old(wSelection) else NONE
      ensures Items() == if bDeleteData then [] else old(Items())
      ensures bDeleteData ==> released == old(nodes)
    {
      released := [];
      if wItemCount == 0 {
        return;
      }
      var item := lpListHead;
      while item != null
        invariant |released| <= |nodes| && item == if |released| < |nodes| then nodes[|released|] else null
        invariant bDeleteData ==> released == nodes[..|released|]
        invariant unchanged(this)
        decreases |nodes| - |released|
      {
        released := released + [item];
        item := item.next;
      }
      if bDeleteData {
        lpListHead, lpListTail, lpItemList := null, null, null;
        wItemCount, nodes := 0, [];
      }
      wSelection := NONE;
    }

    /** Deleting the item that was just added gives the list back. */
    method AddThenDelete(cmp: Compare<T>, wFunc: AddFunc, wPosition: Word, entry: Entry<T>)
      requires Valid() && wItemCount < MAX_ITEMS && Accepts(wItemCount, wFunc, wPosition)
      modifies this, lpItemList, nodes
      ensures Valid() && Items() == old(Items()) && wSelection == NONE
    {
      hide Entries;
      ghost var items, slots, was := Items(), lpItemList, nodes;
      var k := LBoxAddItem(cmp, wFunc, wPosition, entry);
      RemoveInserted(items, k, entry);
      InsertAtMembers(items, k, entry);
      assert lpItemList == slots || fresh(lpItemList);
      assert forall n | n in nodes :: n in was || fresh(n);
      var _ := LBoxDeletePosition(k);
    }
  }

  /** A box with one item: inserting another at position 5 fails and leaves the box damaged. */
  method InsertedBeyondEnd() returns (box: ListBox<int>, r: int)
    ensures r == LB_ERR && !box.Valid() && |box.nodes| == 1 && box.wItemCount == 2
  {
    box := new ListBox.Empty(false);
    var cmp: Compare<int> := (a, b) => a - b;
    var first := box.LBoxAddItem(cmp, Append, NONE, Entry(7, false, 0));
    r := box.LBoxAddItem(cmp, Insert, 5, Entry(8, false, 0));
  }
}
