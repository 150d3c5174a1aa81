/**
 The save stack of a device context in the heap (graphics/GdiDC.c): whole-state copies of the
 live record, linked from the most recent one down, each with its own copies of the character
 widths and text metrics.  Of records, widths and metrics every allocation is accounted for: none is
 freed twice, none that is still reachable is freed, and nothing else stays allocated.

 Of the arrays that records share (justification, palette index, path) only pointers are copied.
 They are in heap, and that they are freed twice or lost is ruled out only under the conditions
 proved in SharedArrays.dfy.
 */
module DeviceContext {
  import opened GdiPath
  import opened SaveStack
  import opened SharedArrays

  /** An array of character widths, filled in when it is allocated. */
  class Widths {
    const values: seq<int>
    constructor (values: seq<int>)
      ensures this.values == values
    {
      this.values := values;
    }
  }

  /** A text metrics block, overwritten in place when another font is selected. */
  class Metrics {
    var values: seq<int>
    constructor (values: seq<int>)
      ensures this.values == values
    {
      this.values := values;
    }
  }

  /** DCINFO: the plain attributes as one value, and the fields that saving treats specially. */
  class DcInfo<A> {
    var attrs: A
    var dwInvalid: nat
    var lpCharWidths: Widths?
    var lpNTM: Metrics?
    var shared: Shared                                // lpExtraSpace, lpSystemPaletteIndex, the path
    var lpSavedDC: DcInfo?<A>
    var nSavedID: int

    constructor (attrs: A)
      ensures this.attrs == attrs && dwInvalid == 0 && shared == NOTHING_SHARED
      ensures lpCharWidths == null && lpNTM == null && lpSavedDC == null && nSavedID == 0
    {
      this.attrs := attrs;
      dwInvalid, shared, lpCharWidths, lpNTM, lpSavedDC, nSavedID := 0, NOTHING_SHARED, null, null, null, 0;
    }

    /** The block of d that can be written to. */
    ghost function Block(): set<Metrics>
      reads `lpNTM
    {
      if lpNTM == null then {} else {lpNTM}
    }

    /** What the record holds, links apart. */
    ghost function Value(): Record<A>
      reads `attrs, `dwInvalid, `lpCharWidths, `lpNTM, `shared, Block()`values
    {
      Record(attrs, dwInvalid,
             if lpCharWidths == null then Null else Data(lpCharWidths.values),
             if lpNTM == null then Null else Data(lpNTM.values),
             shared)
    }

    twostate lemma Kept()
      requires attrs == old(attrs) && dwInvalid == old(dwInvalid) && shared == old(shared)
      requires lpCharWidths == old(lpCharWidths) && lpNTM == old(lpNTM)
      requires lpNTM != null ==> lpNTM.values == old(lpNTM.values)
      ensures Value() == old(Value())
    {
    }

    /** memcpy of a whole DCINFO. */
    method CopyFrom(other: DcInfo<A>)
      modifies this
      ensures attrs == other.attrs && dwInvalid == other.dwInvalid && shared == other.shared
      ensures lpCharWidths == other.lpCharWidths && lpNTM == other.lpNTM
      ensures lpSavedDC == other.lpSavedDC && nSavedID == other.nSavedID
    {
      attrs, dwInvalid, shared := other.attrs, other.dwInvalid, other.shared;
      lpCharWidths, lpNTM := other.lpCharWidths, other.lpNTM;
      lpSavedDC, nSavedID := other.lpSavedDC, other.nSavedID;
    }
  }

  /** The links from first run through chain and end, and the ids count down to 0. */
  ghost predicate Chain<A>(first: DcInfo?<A>, chain: seq<DcInfo<A>>)
    reads chain`lpSavedDC, chain`nSavedID
  {
    if chain == [] then first == null
    else
      && first == chain[0] && chain[0] !in chain[1..] && chain[0].nSavedID == |chain| - 1
      && Chain(chain[0].lpSavedDC, chain[1..])
  }

  class Context<A> {
    const live: DcInfo<A>
    ghost var saved: seq<DcInfo<A>>                   // the chain, most recent first
    ghost var copies: seq<Record<A>>                  // what its records hold
    ghost var records: set<DcInfo<A>>                 // the saved records that are allocated
    ghost var widths: map<Widths, DcInfo<A>>          // the width arrays allocated, with their owners
    ghost var metrics: map<Metrics, DcInfo<A>>        // the metrics allocated, with their owners
    var heap: Heap                                    // the shared arrays allocated

    ghost predicate Linked()
      reads this`saved, live`lpSavedDC, saved`lpSavedDC, saved`nSavedID
    {
      Chain(live.lpSavedDC, saved) && live !in saved
    }

    /** The saved records from number k on hold the copies. */
    ghost predicate Held(k: nat)
      reads this`saved, this`copies, (set d, m | d in saved && m in d.Block() :: m)`values
      reads saved`attrs, saved`dwInvalid, saved`lpCharWidths, saved`lpNTM, saved`shared
    {
      |copies| == |saved| && forall i | k <= i < |saved| :: saved[i].Value() == copies[i]
    }

    lemma OneCopyEach()
      requires Held(0)
      ensures |copies| == |saved|
    {
    }

    twostate lemma StillHeld(k: nat)
      requires old(Held(k)) && saved == old(saved) && copies == old(copies)
      requires forall i {:trigger saved[i]} | k <= i < |saved| ::
                 var d := saved[i];
                 && d.attrs == old(d.attrs) && d.dwInvalid == old(d.dwInvalid) && d.shared == old(d.shared)
                 && d.lpCharWidths == old(d.lpCharWidths) && d.lpNTM == old(d.lpNTM)
                 && (d.lpNTM != null ==> d.lpNTM.values == old(d.lpNTM.values))
      ensures Held(k)
    {
      forall i | k <= i < |saved| ensures saved[i].Value() == copies[i] {
        saved[i].Kept();
      }
    }

    /** Exactly the records of the chain are allocated. */
    ghost predicate Listed()
      reads this`saved, this`records
    {
      (forall i | 0 <= i < |saved| :: saved[i] in records) && (forall d | d in records :: d in saved)
    }

    /** The blocks of d are allocated and owned by d. */
    ghost predicate OwnsBlocks(d: DcInfo<A>)
      reads this`widths, this`metrics, d`lpCharWidths, d`lpNTM
    {
      && (d.lpCharWidths != null ==> d.lpCharWidths in widths && widths[d.lpCharWidths] == d)
      && (d.lpNTM != null ==> d.lpNTM in metrics && metrics[d.lpNTM] == d)
    }

    /** Every record among owners owns its blocks, and every allocated block is in use by the one
        of them that owns it. */
    ghost predicate Accounted(owners: set<DcInfo<A>>)
      reads this`widths, this`metrics, owners`lpCharWidths, owners`lpNTM
    {
      && (forall d | d in owners :: OwnsBlocks(d))
      && (forall w | w in widths :: widths[w] in owners && widths[w].lpCharWidths == w)
      && (forall m | m in metrics :: metrics[m] in owners && metrics[m].lpNTM == m)
    }

    ghost predicate Valid()
      reads this, live, saved, records, (set d, m | d in saved && m in d.Block() :: m)`values
    {
      && Linked() && Held(0) && Listed() && Accounted(records + {live}) && live.nSavedID == |saved|
      && Arrayed()
    }

    /** The shared arrays are in good order. */
    ghost predicate Arrayed()
      reads this`copies, this`heap, live`shared
    {
      HeapOk(heap) && SharedOk(live.shared, heap) && forall i | 0 <= i < |copies| :: SharedOk(copies[i].shared, heap)
    }

    ghost function Abs(): State<A>
      reads this`copies, this`heap, live, live.Block()`values
    {
      State(live.Value(), copies, heap)
    }

    lemma ArrayedIsSound()
      ensures Arrayed() <==> Sound(Abs())
    {
    }

    constructor (attrs: A)
      ensures Valid() && fresh(live) && saved == []
      ensures Abs() == New(attrs)
    {
      live := new DcInfo(attrs);
      saved, copies, records, widths, metrics := [], [], {}, map[], map[];
      heap := Heap(map[], map[], map[], map[], 1);
    }

    // -------------------------------------------------------------- allocation

    method NewWidths(values: seq<int>, owner: DcInfo<A>) returns (w: Widths)
      modifies this`widths
      ensures fresh(w) && w.values == values && widths == old(widths)[w := owner]
    {
      w := new Widths(values);
      widths := widths[w := owner];
    }

    method NewMetrics(values: seq<int>, owner: DcInfo<A>) returns (m: Metrics)
      modifies this`metrics
      ensures fresh(m) && m.values == values && metrics == old(metrics)[m := owner]
    {
      m := new Metrics(values);
      metrics := metrics[m := owner];
    }

    /** WinFree of a block, which must be allocated. */
    method FreeWidths(w: Widths)
      requires w in widths
      modifies this`widths
      ensures widths == old(widths) - {w}
    {
      widths := widths - {w};
    }

    method FreeMetrics(m: Metrics)
      requires m in metrics
      modifies this`metrics
      ensures metrics == old(metrics) - {m}
    {
      metrics := metrics - {m};
    }

    method FreeRecord(d: DcInfo<A>)
      requires d in records
      modifies this`records
      ensures records == old(records) - {d}
    {
      records := records - {d};
    }

    method FreeWidthsOf(d: DcInfo<A>, ghost owners: set<DcInfo<A>>)
      requires Accounted(owners) && d in owners
      modifies this`widths, d`lpCharWidths
      ensures Accounted(owners) && d.lpCharWidths == null
    {
      if d.lpCharWidths != null {
        FreeWidths(d.lpCharWidths);
        d.lpCharWidths := null;
      }
    }

    /** Frees the blocks of a record and forgets them. */
    method FreeBlocks(d: DcInfo<A>, ghost owners: set<DcInfo<A>>)
      requires Accounted(owners) && d in owners
      modifies this`widths, this`metrics, d`lpCharWidths, d`lpNTM
      ensures Accounted(owners) && d.lpCharWidths == null && d.lpNTM == null
    {
      FreeWidthsOf(d, owners);
      if d.lpNTM != null {
        FreeMetrics(d.lpNTM);
        d.lpNTM := null;
      }
    }

    // -------------------------------------------------------------- saving

    /** Gives d, which has no blocks yet, widths of its own with the contents of the live record's. */
    method CopyWidths(d: DcInfo<A>, ghost owners: set<DcInfo<A>>)
      requires Accounted(owners) && live in owners && d !in owners && d.lpCharWidths == null && d.lpNTM == null
      modifies this`widths, d`lpCharWidths
      ensures Accounted(owners + {d}) && d.Value().widths == live.Value().widths
    {
      if live.lpCharWidths != null {
        var w := NewWidths(live.lpCharWidths.values, d);
        d.lpCharWidths := w;
      }
    }

    /** The same for the metrics. */
    method CopyMetrics(d: DcInfo<A>, ghost owners: set<DcInfo<A>>)
      requires Accounted(owners) && live in owners && d in owners && d != live && d.lpNTM == null
      modifies this`metrics, d`lpNTM
      ensures Accounted(owners) && (d.lpNTM != null ==> fresh(d.lpNTM))
      ensures d.Value().metrics == live.Value().metrics
    {
      if live.lpNTM != null {
        var m := NewMetrics(live.lpNTM.values, d);
        d.lpNTM := m;
      }
    }

    /** A new record that holds what the live one does and links to where it links. */
    method NewCopy(ghost owners: set<DcInfo<A>>) returns (copy: DcInfo<A>)
      requires Accounted(owners) && live in owners
      modifies this`widths, this`metrics
      ensures fresh(copy) && copy.Value() == live.Value() && copy.lpSavedDC == live.lpSavedDC
      ensures Accounted(owners + {copy})
    {
      copy := new DcInfo<A>(live.attrs);
      copy.CopyFrom(live);
      // Private copies of the fields that must be allocated for every record.
      copy.lpCharWidths, copy.lpNTM := null, null;
      CopyWidths(copy, owners);
      CopyMetrics(copy, owners + {copy});
    }

    method SaveDC() returns (rc: int)
      requires Valid()
      modifies this`saved, this`copies, this`records, this`widths, this`metrics, live`lpSavedDC, live`nSavedID
      ensures Valid() && |saved| > 0 && saved == [saved[0]] + old(saved) && fresh(saved[0])
      ensures (Abs(), rc) == Save(old(Abs()))
    {
      hide Linked, Listed, OwnsBlocks, Accounted, DcInfo.Value, Arrayed, Sound;
      ghost var s := Abs();
      ArrayedIsSound();
      StepKeepsSound(s, OpSave);
      ghost var owners := records + {live};
      var copy := NewCopy(owners);
      live.Kept();
      StillHeld(0);
      Push(copy);
      assert records + {live} == owners + {copy};
      assert Abs() == Step(s, OpSave);
      ArrayedIsSound();
      return copy.nSavedID + 1;
    }

    /** Links a copy of the live record in as the most recent one. */
    method Push(copy: DcInfo<A>)
      requires Linked() && Held(0) && Listed() && live.nSavedID == |saved|
      requires copy != live && copy !in saved && copy.Value() == live.Value() && copy.lpSavedDC == live.lpSavedDC
      modifies this`saved, this`copies, this`records, live`lpSavedDC, live`nSavedID, copy`nSavedID
      ensures Linked() && Held(0) && Listed() && live.nSavedID == |saved|
      ensures records == old(records) + {copy} && saved == [copy] + old(saved) && copy.nSavedID == |old(saved)|
      ensures live.Value() == old(live.Value()) && copies == [live.Value()] + old(copies)
    {
      hide DcInfo.Value, Held, Listed, Linked;
      LinkOn(copy);
      live.Kept();
      copy.Kept();
      StillHeld(0);
      StackOn(copy);
    }

    /** The link to it, and the two numbers. */
    method LinkOn(copy: DcInfo<A>)
      requires Linked() && live.nSavedID == |saved|
      requires copy != live && copy !in saved && copy.lpSavedDC == live.lpSavedDC
      modifies live`lpSavedDC, live`nSavedID, copy`nSavedID
      ensures Chain(live.lpSavedDC, [copy] + saved) && live !in [copy] + saved
      ensures live.nSavedID == |saved| + 1 && copy.nSavedID == |saved|
    {
      live.lpSavedDC := copy;
      copy.nSavedID := live.nSavedID;
      live.nSavedID := live.nSavedID + 1;
      assert Chain(copy.lpSavedDC, saved);
      assert ([copy] + saved)[1..] == saved;
    }

    /** And the accounts. */
    ghost method StackOn(copy: DcInfo<A>)
      requires Chain(live.lpSavedDC, [copy] + saved) && live !in [copy] + saved && Held(0) && Listed()
      modifies this`saved, this`copies, this`records
      ensures Linked() && Held(0) && Listed()
      ensures records == old(records) + {copy} && saved == [copy] + old(saved)
      ensures copies == [copy.Value()] + old(copies)
    {
      hide DcInfo.Value;
      saved := [copy] + saved;
      copies := [copy.Value()] + copies;
      records := records + {copy};
    }

    // -------------------------------------------------------------- restoring

    /** The saved record that RestoreDC(n) names: the walks along the chain. */
    method FindSaved(nSavedDC: int) returns (found: DcInfo?<A>)
      requires Valid() && nSavedDC != 0
      ensures Valid() && Abs() == old(Abs())
      ensures var k := Target(|saved|, nSavedDC); found == if k == -1 then null else saved[k]
    {
      if nSavedDC < 0 {
        found := FindBack(-nSavedDC - 1);
      } else {
        found := FindId(nSavedDC - 1);
      }
    }

    method FindBack(count: nat) returns (found: DcInfo?<A>)
      requires Valid()
      ensures Valid() && Abs() == old(Abs())
      ensures found == if count < |saved| then saved[count] else null
    {
      found := live.lpSavedDC;
      var numToPop := count;
      ghost var j := 0;
      while numToPop > 0 && found != null
        invariant 0 <= numToPop <= count && j == count - numToPop <= |saved|
        invariant Chain(found, saved[j..])
      {
        assert saved[j..][1..] == saved[j + 1..];
        numToPop := numToPop - 1;
        found := found.lpSavedDC;
        j := j + 1;
      }
    }

    method FindId(id: nat) returns (found: DcInfo?<A>)
      requires Valid()
      ensures Valid() && Abs() == old(Abs())
      ensures found == if id < |saved| then saved[|saved| - 1 - id] else null
    {
      found := live.lpSavedDC;
      ghost var j := 0;
      while found != null && found.nSavedID != id
        invariant 0 <= j <= |saved| && Chain(found, saved[j..])
        invariant id < |saved| ==> j <= |saved| - 1 - id
        decreases |saved| - j
      {
        assert saved[j..][1..] == saved[j + 1..];
        found := found.lpSavedDC;
        j := j + 1;
      }
    }

    /** The chain and what it holds, with the accounts settled; all of Valid but the live id. */
    ghost predicate Stacked()
      reads this, live, saved, records, (set d, m | d in saved && m in d.Block() :: m)`values
    {
      Linked() && Held(0) && Listed() && Accounted(records + {live})
    }

    /** Frees the most recent saved record itself. */
    method FreeTop(d: DcInfo<A>)
      requires Held(1) && Listed() && saved != [] && d == saved[0] && d !in saved[1..]
      modifies this`saved, this`copies, this`records
      ensures Held(0) && Listed() && records == old(records) - {d}
      ensures old(saved) == [d] + saved && copies == old(copies[1..])
    {
      hide DcInfo.Value;
      FreeRecord(d);
      ghost var chain := saved;
      saved, copies := saved[1..], copies[1..];
      forall i | 0 <= i < |saved| ensures saved[i].Value() == copies[i] {
        chain[i + 1].Kept();
      }
    }

    lemma NoLongerOwner(d: DcInfo<A>, owners: set<DcInfo<A>>)
      requires Accounted(owners) && d.lpCharWidths == null && d.lpNTM == null
      ensures Accounted(owners - {d})
    {
    }

    /** Pops the most recent saved record and frees it with its blocks. */
    method Discard(d: DcInfo<A>)
      requires Stacked() && d == live.lpSavedDC
      modifies this`saved, this`copies, this`records, this`widths, this`metrics
      modifies live`lpSavedDC, d`lpCharWidths, d`lpNTM
      ensures Stacked() && old(saved) == [d] + saved && copies == old(copies)[1..]
      ensures live.Value() == old(live.Value())
    {
      hide DcInfo.Value, OwnsBlocks, Accounted;
      ghost var owners := records + {live};
      assert d == saved[0] && d in owners;
      hide Listed;
      live.lpSavedDC := d.lpSavedDC;
      FreeBlocks(d, owners);
      StillHeld(1);
      NoLongerOwner(d, owners);
      FreeTop(d);
      assert records + {live} == owners - {d};
      live.Kept();
    }

    /** The live record becomes what d is, blocks and links included, and d is no longer used. */
    method TakeOver(d: DcInfo<A>, ghost owners: set<DcInfo<A>>)
      requires Accounted(owners) && d in owners && live in owners && d != live
      requires live.lpCharWidths == null && live.lpNTM == null
      modifies this`widths, this`metrics, live
      ensures Accounted(owners - {d}) && live.Value() == d.Value()
      ensures live.lpSavedDC == d.lpSavedDC && live.nSavedID == d.nSavedID
    {
      live.CopyFrom(d);
      if d.lpCharWidths != null {
        widths := widths[d.lpCharWidths := live];
      }
      if d.lpNTM != null {
        metrics := metrics[d.lpNTM := live];
      }
    }

    /** The most recent saved record replaces the live one, which is told that everything in it
        is new to the driver. */
    method Replace(d: DcInfo<A>, ghost owners: set<DcInfo<A>>)
      requires Linked() && Held(0) && Accounted(owners) && d == live.lpSavedDC && d in owners && live in owners
      modifies this`widths, this`metrics, live, d`dwInvalid
      ensures Chain(live.lpSavedDC, saved[1..]) && Held(1) && Accounted(owners - {d})
      ensures live.nSavedID == |saved| - 1 && live.Value() == copies[0].(invalid := IM_INVALID)
    {
      hide OwnsBlocks, Accounted;
      d.dwInvalid := IM_INVALID;
      label Marked:
      FreeBlocks(live, owners);
      d.Kept@Marked();
      TakeOver(d, owners);
      if live.lpSavedDC == null {
        live.nSavedID := 0;
      }
      StillHeld(1);
    }

    method Adopt(d: DcInfo<A>)
      requires Stacked() && d == live.lpSavedDC
      modifies this`saved, this`copies, this`records, this`widths, this`metrics, live, d`dwInvalid
      ensures Stacked() && live.nSavedID == |saved| && old(saved) == [d] + saved && copies == old(copies)[1..]
      ensures live.Value() == old(copies[0]).(invalid := IM_INVALID)
    {
      hide OwnsBlocks, DcInfo.Value;
      ghost var owners := records + {live};
      Replace(d, owners);
      label Replaced:
      FreeTop(d);
      assert records + {live} == owners - {d};
      live.Kept@Replaced();
    }

    /** A restore that fails changes nothing; one that succeeds pops the records above the one it
        names, frees each with its blocks, and puts that one in force. */
    method RestoreDC(nSavedDC: int) returns (ok: bool)
      requires Valid()
      modifies this`saved, this`copies, this`records, this`widths, this`metrics, live, saved
      ensures Valid() && (Abs(), ok) == Restore(old(Abs()), nSavedDC)
      ensures saved == old(saved)[if ok then Target(|old(saved)|, nSavedDC) + 1 else 0..]
      ensures !ok ==> unchanged(this) && unchanged(live) && unchanged(old(saved))
    {
      hide Linked, Held, Listed, Accounted, DcInfo.Value, DcInfo.Block, Arrayed, Sound;
      ghost var s := Abs();
      ArrayedIsSound();
      StepKeepsSound(s, OpRestore(nSavedDC));
      OneCopyEach();
      if nSavedDC == 0 {
        return false;
      }
      var found := FindSaved(nSavedDC);
      if found == null {
        return false;
      }
      RestoreTo(found, Target(|saved|, nSavedDC));
      assert Abs() == Step(s, OpRestore(nSavedDC));
      ArrayedIsSound();
      return true;
    }

    /** Puts saved record k in force. */
    method RestoreTo(found: DcInfo<A>, ghost k: nat)
      requires Stacked() && |copies| == |saved| && k < |saved| && found == saved[k]
      modifies this`saved, this`copies, this`records, this`widths, this`metrics, live, saved
      ensures Stacked() && live.nSavedID == |saved|
      ensures saved == old(saved)[k + 1..] && copies == old(copies)[k + 1..]
      ensures live.Value() == old(copies)[k].(invalid := IM_INVALID)
    {
      hide Stacked, DcInfo.Value, DcInfo.Block;
      PopTo(found, k);
      assert saved[0] == old(saved)[k] && copies[0] == old(copies)[k];
      Adopt(found);
    }

    /** Frees the records above found. */
    method PopTo(found: DcInfo<A>, ghost k: nat)
      requires Stacked() && k < |saved| && found == saved[k]
      modifies this`saved, this`copies, this`records, this`widths, this`metrics, live`lpSavedDC, saved
      ensures Stacked() && found == live.lpSavedDC && saved == old(saved[k..]) && copies == old(copies[k..])
      ensures live.Value() == old(live.Value())
    {
      hide Held, Listed, Accounted, DcInfo.Value, DcInfo.Block;
      var temp := live.lpSavedDC;
      ghost var j := 0;
      OneCopyEach();
      while temp != null && temp != found
        invariant Stacked() && temp == live.lpSavedDC
        invariant 0 <= j <= k && saved == old(saved)[j..] && copies == old(copies)[j..]
        invariant live.Value() == old(live.Value())
        decreases |saved|
      {
        Discard(temp);
        temp := live.lpSavedDC;
        j := j + 1;
      }
    }

    /** What DeleteDC does to the stack, the blocks and the shared arrays.  A metafile context is
        spared the clean-up. */
    method DeleteDC(metafile: bool)
      requires Valid()
      modifies this`saved, this`copies, this`records, this`widths, this`metrics, this`heap, live, saved
      ensures saved == [] && live.lpSavedDC == null && records == {} && Accounted({live})
      ensures !metafile ==> widths == map[] && metrics == map[]
      ensures heap == Deleted(old(Abs()), metafile)
    {
      Unwind();
      Alone();
      if !metafile {
        CleanUp();
      }
    }

    /** RestoreDC(-1) until nothing is saved. */
    method Unwind()
      requires Valid()
      modifies this`saved, this`copies, this`records, this`widths, this`metrics, live, saved
      ensures Valid() && saved == [] && Bottom(Abs()) == Bottom(old(Abs()))
    {
      hide Valid, Abs, Bottom;
      ghost var j := 0;
      StackIs();
      while live.lpSavedDC != null
        invariant Valid() && 0 <= j <= |old(saved)| && saved == old(saved)[j..]
        invariant |Abs().stack| == |saved| && (live.lpSavedDC == null <==> saved == [])
        invariant Bottom(Abs()) == Bottom(old(Abs()))
        decreases |saved|
      {
        BottomIsKept(Abs());
        assert forall i | 0 <= i < |saved| :: saved[i] == old(saved)[j + i];
        var ok := RestoreDC(-1);
        j := j + 1;
        StackIs();
        if !ok {
          break;
        }
      }
    }

    lemma StackIs()
      requires Valid()
      ensures |Abs().stack| == |saved| && (live.lpSavedDC == null <==> saved == [])
    {
      hide Held, Listed, Accounted, Arrayed;
      OneCopyEach();
    }

    /** With nothing saved, the live record is alone. */
    lemma Alone()
      requires Valid() && saved == []
      ensures live.lpSavedDC == null && records == {} && Accounted({live})
      ensures HeapOk(heap) && Bottom(Abs()) == live.shared && Abs().heap == heap
    {
      hide OwnsBlocks, SharedOk, HeapOk;
      OneCopyEach();
      assert records + {live} == {live};
    }

    /** GdiCleanupDC, as far as it frees. */
    method CleanUp()
      requires Accounted({live}) && HeapOk(heap)
      modifies this`widths, this`metrics, this`heap, live`shared, live`lpCharWidths, live`lpNTM
      ensures Accounted({live}) && widths == map[] && metrics == map[]
      ensures var p, h := old(live.shared), old(heap);
              heap == h.(palettes := h.palettes - {p.palette},
                         types := h.types - {p.path.types}, points := h.points - {p.path.points})
    {
      if live.shared.palette != 0 {
        heap := heap.(palettes := heap.palettes - {live.shared.palette});
        live.shared := live.shared.(palette := 0);
      }
      FreeBlocks(live, {live});
      var p := live.shared.path;
      heap := heap.(types := heap.types - {p.types}, points := heap.points - {p.points});
      live.shared := live.shared.(path := p.(types := 0, points := 0));
      assert heap.palettes == old(heap).palettes - {old(live.shared).palette};
    }

    // -------------------------------------------------------------- other calls on the live record

    /** The live record's metrics block, taken if there is none, gets new contents. */
    method PutMetrics(values: seq<int>, ghost owners: set<DcInfo<A>>)
      requires Accounted(owners) && live in owners
      modifies this`metrics, live`lpNTM, live.Block()`values
      ensures Accounted(owners) && live.lpNTM != null && live.lpNTM.values == values
      ensures forall d | d in owners && d != live && d.lpNTM != null :: d.lpNTM.values == old(d.lpNTM.values)
    {
      if live.lpNTM == null {
        var m := NewMetrics(values, live);
        live.lpNTM := m;
      } else {
        live.lpNTM.values := values;
      }
    }

    /** The part of DisplayValidateFont that touches the blocks; font is the font's own metrics. */
    method SelectFont(attrs: A, invalid: nat, font: Buffer)
      requires Valid()
      modifies this`widths, this`metrics, live`attrs, live`dwInvalid, live`lpCharWidths, live`lpNTM
      modifies live.Block()`values
      ensures Valid()
      ensures Abs() == Change(old(Abs()), attrs, invalid, Null,
                              if font.Data? then font else old(live.Value()).metrics)
    {
      hide OwnsBlocks, Accounted, Chain, Arrayed;
      live.attrs, live.dwInvalid := attrs, invalid;
      NewFontBlocks(font, records + {live});
      StillHeld(0);
    }

    /** The widths go, and the font's metrics come in. */
    method NewFontBlocks(font: Buffer, ghost owners: set<DcInfo<A>>)
      requires Accounted(owners) && live in owners
      modifies this`widths, this`metrics, live`lpCharWidths, live`lpNTM, live.Block()`values
      ensures Accounted(owners) && live.Value().widths == Null
      ensures live.Value().metrics == if font.Data? then font else old(live.Value()).metrics
      ensures forall d | d in owners && d != live && d.lpNTM != null :: d.lpNTM.values == old(d.lpNTM.values)
    {
      hide OwnsBlocks, Accounted;
      FreeWidthsOf(live, owners);
      if font.Data? {
        PutMetrics(font.values, owners);
      }
    }

    /** The driver's widths go into a new array, which is given back if there are none (Null). */
    method TakeWidths(supplied: Buffer, ghost owners: set<DcInfo<A>>)
      requires Accounted(owners) && live in owners && live.lpCharWidths == null
      modifies this`widths, live`lpCharWidths
      ensures Accounted(owners) && live.Value().widths == supplied
    {
      var w := NewWidths(if supplied.Data? then supplied.values else [], live);
      live.lpCharWidths := w;
      if supplied.Null? {
        FreeWidthsOf(live, owners);
      }
    }

    /** Getting the character widths, which are loaded once for a font. */
    method LoadWidths(supplied: Buffer)
      requires Valid()
      modifies this`widths, live`lpCharWidths
      ensures Valid()
      ensures var s := old(Abs());
              Abs() == Change(s, s.live.attrs, s.live.invalid,
                              if s.live.widths.Data? then s.live.widths else supplied, s.live.metrics)
    {
      hide OwnsBlocks, Accounted, Chain, Listed, Arrayed;
      if live.lpCharWidths == null {
        TakeWidths(supplied, records + {live});
      }
      StillHeld(0);
    }

    // -------------------------------------------------------------- the shared arrays

    lemma StepIsSound(op: Op<A>)
      requires Valid()
      ensures Sound(Step(Abs(), op)) && Abs().live.shared == live.shared && Abs().heap == heap
      ensures HeapOk(heap) && SharedOk(live.shared, heap)
    {
      ArrayedIsSound();
      StepKeepsSound(Abs(), op);
    }

    /** When nothing has changed but the arrays and the live record's pointers to them. */
    twostate lemma Repointed()
      requires old(Valid()) && Sound(Repoint(old(Abs()), live.shared, heap))
      requires unchanged(this`saved, this`copies, this`records, this`widths, this`metrics)
      requires unchanged(live`attrs, live`dwInvalid, live`lpCharWidths, live`lpNTM, live`lpSavedDC, live`nSavedID)
      requires forall i {:trigger saved[i]} | 0 <= i < |saved| && saved[i] != live ::
                 unchanged(saved[i]) && (saved[i].lpNTM != null ==> unchanged(saved[i].lpNTM))
      requires live.lpNTM != null ==> unchanged(live.lpNTM)
      ensures Valid() && Abs() == Repoint(old(Abs()), live.shared, heap)
    {
      hide OwnsBlocks, Accounted, SharedOk;
      StillHeld(0);
      assert Accounted(records + {live}) && Linked();
      assert Abs() == Repoint(old(Abs()), live.shared, heap);
      assert Arrayed() by {
        hide HeapOk;
        ArrayedIsSound();
      }
    }

    /** LSD_DA_TEXTJUST: the array is freed through whatever pointer the live record has; sound says
        whether it was still allocated. */
    method SetTextJust(shares: Buffer) returns (ghost sound: bool)
      requires Valid()
      modifies this`heap, live`shared
      ensures Valid() && Abs() == Justify(old(Abs()), shares)
      ensures sound <==> old(BackedAt(live.shared, heap, Spaces))
    {
      hide Valid, Abs, Sound, SharedOk;
      ghost var s := Abs();
      StepIsSound(OpJustify(shares));
      sound := BackedAt(live.shared, heap, Spaces);
      if live.shared.space != 0 {
        heap := heap.(spaces := heap.spaces - {live.shared.space});
        live.shared := live.shared.(space := 0);
      }
      if shares.Data? {
        live.shared := live.shared.(space := heap.next);
        heap := heap.(spaces := heap.spaces[heap.next := shares.values], next := heap.next + 1);
      }
      assert heap == Justify(s, shares).heap;
      Repointed();
    }

    /** lsd_display_realizepal: the index is moved and filled in. */
    method RealizePalette(index: seq<int>)
      requires Valid()
      modifies this`heap, live`shared
      ensures Valid() && Abs() == Realize(old(Abs()), index)
    {
      hide Valid, Abs, Sound, SharedOk;
      ghost var s := Abs();
      StepIsSound(OpRealize(index));
      heap := heap.(palettes := (heap.palettes - {live.shared.palette})[heap.next := index], next := heap.next + 1);
      live.shared := live.shared.(palette := heap.next - 1);
      assert heap == Realize(s, index).heap;
      Repointed();
    }

    // -------------------------------------------------------------- the path

    /** The path of the live record and the memory are what the call makes of them. */
    twostate predicate Called(op: PathOp)
      reads this`heap, live`shared
    {
      && live.shared == old(live.shared).(path := live.shared.path)
      && (live.shared.path, heap) == old(Call(live.shared.path, heap, op))
    }

    method BeginPath() returns (ok: bool)
      requires Valid()
      modifies this`heap, live`shared
      ensures Valid() && Abs() == CallPath(old(Abs()), Begin)
      ensures ok <==> old(live.shared.path.state) == NO_PATH
    {
      hide Valid, Abs, Sound, SharedOk;
      StepIsSound(OpPath(Begin));
      ok := live.shared.path.state == NO_PATH;
      if ok {
        live.shared := live.shared.(path := Path(OPENED, 0, 0, 0));
      }
      assert Called(Begin);
      Repointed();
    }

    method EndPath() returns (ok: bool)
      requires Valid()
      modifies this`heap, live`shared
      ensures Valid() && Abs() == CallPath(old(Abs()), End)
      ensures ok <==> old(live.shared.path.state) == OPENED
    {
      hide Valid, Abs, Sound, SharedOk;
      StepIsSound(OpPath(End));
      ok := live.shared.path.state == OPENED;
      if ok {
        live.shared := live.shared.(path := live.shared.path.(state := CLOSED));
      }
      assert Called(End);
      Repointed();
    }

    /** Frees the arrays, and the path with them. */
    method DropPath()
      requires HeapOk(heap)
      modifies this`heap, live`shared
      ensures live.shared == old(live.shared).(path := live.shared.path)
      ensures (live.shared.path, heap) == old(Discarded(live.shared.path, heap))
    {
      var p := live.shared.path;
      live.shared := live.shared.(path := EMPTY_PATH);
      if p.types != 0 {
        heap := heap.(types := heap.types - {p.types});
      }
      if p.points != 0 {
        heap := heap.(points := heap.points - {p.points});
      }
      assert heap == old(Discarded(live.shared.path, heap)).1;
    }

    method AbortPath() returns (ok: bool)
      requires Valid()
      modifies this`heap, live`shared
      ensures Valid() && Abs() == CallPath(old(Abs()), Abort)
      ensures ok <==> old(live.shared.path.state) in {OPENED, CLOSED}
    {
      hide Valid, Abs, Sound, SharedOk, Discarded;
      StepIsSound(OpPath(Abort));
      ok := live.shared.path.state == OPENED || live.shared.path.state == CLOSED;
      if ok {
        DropPath();
      }
      assert Called(Abort);
      Repointed();
    }

    /** PathToRegion, once it is known whether the path made a region. */
    method PathToRegion(found: bool)
      requires Valid()
      modifies this`heap, live`shared
      ensures Valid() && Abs() == CallPath(old(Abs()), ToRegion(found))
    {
      hide Valid, Abs, Sound, SharedOk, Discarded;
      StepIsSound(OpPath(ToRegion(found)));
      if live.shared.path.state == CLOSED && found {
        DropPath();
      }
      assert Called(ToRegion(found));
      Repointed();
    }

    /** CloseFigure: back to the last line or curve.  Pointers to freed arrays are not followed. */
    method CloseFigure() returns (ok: bool)
      requires Valid()
      requires live.shared.path.state == OPENED && live.shared.path.size > 0 ==> Usable(live.shared.path, heap)
      modifies this`heap, live`shared
      ensures Valid() && Abs() == CallPath(old(Abs()), CloseIt)
      ensures var p := old(live.shared.path);
              ok <==> p.state == OPENED && (p.size > 0 ==> old(LastOpen(Types(p, heap), p.size)) != -2)
    {
      hide Valid, Abs, Sound, SharedOk;
      StepIsSound(OpPath(CloseIt));
      ok := live.shared.path.state == OPENED;
      if ok {
        ok := CloseLast();
      }
      assert Called(CloseIt);
      Repointed();
    }

    method CloseLast() returns (ok: bool)
      requires live.shared.path.state == OPENED
      requires live.shared.path.size > 0 ==> Usable(live.shared.path, heap)
      modifies this`heap
      ensures Called(CloseIt)
      ensures var p := live.shared.path; ok <==> (p.size > 0 ==> old(LastOpen(Types(p, heap), p.size)) != -2)
    {
      var p := live.shared.path;
      var i := p.size;
      ok := true;
      while i > 0
        invariant 0 <= i <= p.size && heap == old(heap) && ok
        invariant p.size > 0 ==> LastOpen(Types(p, heap), p.size) == LastOpen(Types(p, heap), i)
      {
        i := i - 1;
        var t: seq<PathType> := heap.types[p.types];
        if Flagged(t[i]) {
          ok := false;
          break;
        } else if t[i] == PT_LINETO || t[i] == PT_BEZIERTO {
          heap := heap.(types := heap.types[p.types := t[i := Close(t[i])]]);
          break;
        }
      }
    }

    /** InsertDeletePath with a positive n: the arrays are moved, and n entries from i on are room for
        new ones.  What is in them is left over or accidental. */
    method MakeRoom(i: nat, n: nat) returns (ghost ts: seq<PathType>, ghost ps: seq<Point>)
      requires HeapOk(heap) && live.shared.path.state != NO_PATH && n > 0 && i <= live.shared.path.size
      requires live.shared.path.size > 0 ==> Usable(live.shared.path, heap)
      modifies this`heap, live`shared
      ensures |ts| == |ps| == n && old(Inserts(live.shared.path, heap, Insert(i, ts, ps)))
      ensures live.shared == old(live.shared).(path := live.shared.path)
      ensures (live.shared.path, heap) == old(InsertIn(live.shared.path, heap, Insert(i, ts, ps)))
    {
      var p := live.shared.path;
      ghost var h := heap;
      var t: seq<PathType>, q: seq<Point> := [], [];
      if p.size > 0 {
        t, q := heap.types[p.types][..p.size], heap.points[p.points][..p.size];
      }
      hide Usable, HeapOk, InsertIn;
      var newTypes: seq<PathType>, newPoints: seq<Point> := t + seq(n, _ => 0), q + seq(n, _ => Point(0, 0));
      // What is behind the room slides up.
      newTypes, newPoints := newTypes[..i + n] + t[i..], newPoints[..i + n] + q[i..];
      ts, ps := newTypes[i..i + n], newPoints[i..i + n];
      assert newTypes == t[..i] + ts + t[i..] && newPoints == q[..i] + ps + q[i..];
      heap := heap.(types := (heap.types - {p.types})[heap.next := newTypes],
                    points := (heap.points - {p.points})[heap.next + 1 := newPoints],
                    next := heap.next + 2);
      live.shared := live.shared.(path := p.(size := p.size + n, types := heap.next - 2, points := heap.next - 1));
      InsertMoves(p, h, i, t, q, ts, ps);
    }

    /** Writes n entries from i on into the arrays. */
    method Fill(i: nat, types: seq<PathType>, points: seq<Point>)
      requires Usable(live.shared.path, heap) && |types| == |points| && i + |types| <= live.shared.path.size
      modifies this`heap
      ensures heap == Filled(live.shared.path, old(heap), i, types, points)
    {
      hide Filled;
      var p := live.shared.path;
      FilledNone(p, heap, i);
      for k := 0 to |types|
        invariant heap == Filled(p, old(heap), i, types[..k], points[..k]) && Usable(p, heap)
      {
        FilledOne(p, old(heap), i, types, points, k);
        heap := heap.(types := heap.types[p.types := heap.types[p.types][i + k := types[k]]],
                      points := heap.points[p.points := heap.points[p.points][i + k := points[k]]]);
      }
      assert types[..|types|] == types && points[..|points|] == points;
    }

    /** What MoveTo, LineTo and PolyBezierTo add to an open path: entries of one type at its end. */
    method AddEntries(t: PathType, points: seq<Point>)
      requires Valid() && live.shared.path.state == OPENED
      requires live.shared.path.size > 0 ==> Usable(live.shared.path, heap)
      modifies this`heap, live`shared
      ensures Valid()
      ensures Abs() == CallPath(old(Abs()), Insert(old(live.shared.path.size), seq(|points|, _ => t), points))
    {
      hide Valid, Abs, Sound, SharedOk;
      var types: seq<PathType> := seq(|points|, _ => t);
      ghost var op := Insert(live.shared.path.size, types, points);
      StepIsSound(OpPath(op));
      if points != [] {
        var i := live.shared.path.size;
        ghost var ts, ps := MakeRoom(i, |points|);
        Fill(i, types, points);
        FilledRoom(old(live.shared.path), old(heap), i, ts, ps, types, points);
      }
      assert Called(op);
      Repointed();
    }

    /** FlattenBezier: the curve from entry i on becomes lines to the given points. */
    method FlattenBezier(i: nat, points: seq<Point>)
      requires Valid() && Flattens(live.shared.path, heap, Flatten(i, points))
      modifies this`heap, live`shared
      ensures Valid() && Abs() == CallPath(old(Abs()), Flatten(i, points))
    {
      hide Valid, Abs, Sound, SharedOk, Filled, InsertIn, FlattenIn, ShrunkIn;
      StepIsSound(OpPath(Flatten(i, points)));
      var p, n := live.shared.path, |points|;
      var lines := Lines(n, Flagged(heap.types[p.types][i + 2]));
      if n > 3 {
        ghost var ts, ps := MakeRoom(i, n - 3);
        FlattenedRoom(p, old(heap), i, ts, ps, points);
      } else {
        CloseUp(i, 3 - n);
        FlattenedShrunk(p, old(heap), i, points);
      }
      Fill(i, lines, points);
      assert Called(Flatten(i, points));
      Repointed();
    }

    /** InsertDeletePath with a negative n. */
    method CloseUp(i: nat, n: nat)
      requires Usable(live.shared.path, heap) && i + n <= live.shared.path.size
      modifies this`heap, live`shared
      ensures live.shared == old(live.shared).(path := live.shared.path)
      ensures (live.shared.path, heap) == old(ShrunkIn(live.shared.path, heap, i, n))
    {
      var p := live.shared.path;
      var t: seq<PathType>, q := heap.types[p.types], heap.points[p.points];
      // The rest slides down; behind it the array stays as it was.
      heap := heap.(types := heap.types[p.types := t[..i] + t[i + n..p.size] + t[p.size - n..]],
                    points := heap.points[p.points := q[..i] + q[i + n..p.size] + q[p.size - n..]]);
      live.shared := live.shared.(path := p.(size := p.size - n));
    }
  }

  /** Justified, saved, justified and restored: the array that a third call frees is not allocated any
      more. */
  method JustifiedThrice(attrs: int) returns (dc: Context<int>, ghost sound: bool)
    ensures dc.Valid() && !sound
  {
    hide Context.Valid;
    dc := new Context(attrs);
    ghost var s := dc.Abs();
    var first := dc.SetTextJust(Data([1]));
    var id := dc.SaveDC();
    var second := dc.SetTextJust(Data([1]));
    var ok := dc.RestoreDC(-1);
    assert dc.Abs() == Restore(Justify(Save(Justify(s, Data([1]))).0, Data([1])), -1).0;
    sound := dc.SetTextJust(Data([1]));
  }
}
