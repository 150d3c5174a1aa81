/**
 The debugger's symbols in the heap (debugger/hash.c): hash chains of symbols, each with a growing
 line table, and an index sorted by address that is rebuilt when it is needed and out of date.
 */
module SymbolTable {
  import opened SymbolIndex

  /** A C string without its terminator. */
  type Name = seq<bv8>

  const NR_NAME_HASH: nat := 16384

  // ---------------------------------------------------------------- hashing names

  /** One round of name_hash; a plain char is sign-extended. */
  function HashStep(hash: bv32, c: bv8): bv32 {
    Fold((hash << 4) | (if c < 0x80 then c as bv32 else (c as bv32) | 0xffff_ff00))
  }

  function Fold(x: bv32): bv32 {
    var tmp := x & 0xf000_0000;
    (if tmp != 0 then x ^ (tmp >> 24) else x) & !tmp
  }

  /** The top four bits are clear after every round, so that the next shift loses nothing. */
  lemma HashStepClears(hash: bv32, c: bv8)
    ensures HashStep(hash, c) & 0xf000_0000 == 0
  {
    FoldClears((hash << 4) | (if c < 0x80 then c as bv32 else (c as bv32) | 0xffff_ff00));
    hide Fold;
  }

  lemma FoldClears(x: bv32)
    ensures Fold(x) & 0xf000_0000 == 0
  {
  }

  /** As long as the upper bits are clear, a character below 0x80 is taken in behind a shift by four. */
  lemma HashStepShifts(hash: bv32, c: bv8)
    requires hash & 0xff00_0000 == 0 && c < 0x80
    ensures HashStep(hash, c) == (hash << 4) | c as bv32
  {
  }

  /** Four bits that would be shifted out come in again at bits 4 to 7. */
  lemma HashStepFolds(n: bv32)
    requires n & 0xffff_fff0 == 0
    ensures HashStep(n << 24, 0) == n << 4
  {
  }

  /** A character from 0x80 on, being sign-extended, sets all the upper bits whatever was hashed before:
      of that, only the low four bits are still felt. */
  lemma HighForgets(hash: bv32, c: bv8)
    requires c >= 0x80
    ensures HashStep(hash, c) & 0xffff_ff00 == 0x0fff_ff00
  {
    hide Fold;
    HighFolds(hash << 4, c as bv32);
  }

  lemma HighFolds(h: bv32, c: bv32)
    ensures Fold(h | (c | 0xffff_ff00)) & 0xffff_ff00 == 0x0fff_ff00
  {
  }

  function HashFrom(name: Name): bv32 {
    if name == [] then 0 else HashStep(HashFrom(name[..|name| - 1]), name[|name| - 1])
  }

  /** The hash of two characters below 0x80. */
  lemma HashOfTwo(a: bv8, b: bv8)
    requires a < 0x80 && b < 0x80
    ensures HashFrom([a, b]) == (a as bv32 << 4) | b as bv32
  {
    assert [a, b][..1] == [a] && [a][..0] == [] && [a, b][1] == b && [a][0] == a;
    hide HashStep;
    assert HashFrom([a]) == HashStep(HashFrom([]), a) && HashFrom([]) == 0;
    assert HashFrom([a, b]) == HashStep(HashFrom([a]), b);
    TwoSteps(a, b);
  }

  lemma TwoSteps(a: bv8, b: bv8)
    requires a < 0x80 && b < 0x80
    ensures HashStep(HashStep(0, a), b) == (a as bv32 << 4) | b as bv32
  {
  }

  function Bucket(name: Name): (b: nat)
    ensures b < NR_NAME_HASH
  {
    HashFrom(name) as nat % NR_NAME_HASH
  }

  method NameHash(name: Name) returns (b: nat)
    ensures b == Bucket(name) < NR_NAME_HASH
  {
    var hash: bv32 := 0;
    var i := 0;
    while i < |name|
      invariant 0 <= i <= |name| && hash == HashFrom(name[..i])
    {
      assert name[..i + 1][..i] == name[..i];
      hash := HashStep(hash, name[i]);
      i := i + 1;
    }
    assert name[..i] == name;
    return hash as nat % NR_NAME_HASH;
  }

  // ---------------------------------------------------------------- symbols

  class Symbol {
    const name: Name
    const hasSource: bool
    var addr: Addr
    var invalid: bool
    var trampoline: bool
    var stepThrough: bool
    var nLines: nat
    var linesAlloc: nat
    var linetab: array?<Line>

    constructor (name: Name, hasSource: bool, addr: Addr, invalid: bool, trampoline: bool, stepThrough: bool)
      ensures Valid() && Lines() == []
      ensures this.name == name && this.hasSource == hasSource && this.addr == addr
      ensures this.invalid == invalid && this.trampoline == trampoline && this.stepThrough == stepThrough
    {
      this.name, this.hasSource, this.addr := name, hasSource, addr;
      this.invalid, this.trampoline, this.stepThrough := invalid, trampoline, stepThrough;
      nLines, linesAlloc, linetab := 0, 0, null;
    }

    /** There is a line table if and only if there are lines in it. */
    ghost predicate Valid()
      reads this
    {
      if linetab == null then nLines == 0 && linesAlloc == 0
      else linetab.Length == linesAlloc && 0 < nLines <= linesAlloc
    }

    ghost function Lines(): (lines: seq<Line>)
      requires Valid()
      reads this, linetab
      ensures |lines| == nLines && (lines == [] <==> linetab == null)
    {
      if linetab == null then [] else linetab[..nLines]
    }

    function AsEntry(): Entry
      reads `addr, `invalid, `linetab
    {
      Entry(addr, invalid, linetab != null)
    }

    ghost function AsFunc(): Func
      requires Valid()
      reads this, linetab
    {
      Func(addr, stepThrough, trampoline, hasSource, Lines())
    }

    /** xrealloc of the line table. */
    method Resize(alloc: nat)
      requires Valid() && nLines <= alloc && 0 < alloc
      modifies `linetab, `linesAlloc
      ensures linetab != null && fresh(linetab) && linetab.Length == linesAlloc == alloc
      ensures linetab[..nLines] == old(Lines())
    {
      var t := new Line[alloc](_ => Line(0, Addr(0, 0)));
      var i := 0;
      while i < nLines
        invariant 0 <= i <= nLines && linetab == old(linetab)
        invariant linetab != null ==> t[..i] == linetab[..i]
        modifies t
      {
        t[i] := linetab[i];
        i := i + 1;
      }
      linetab, linesAlloc := t, alloc;
    }

    /** Lines are added at the end, 64 more being allocated when the table would become full. */
    method AddLineNumber(number: nat, offset: nat)
      requires Valid()
      modifies `linetab, `linesAlloc, `nLines, linetab
      ensures Valid()
      ensures Lines() == old(Lines()) + [Line(number, Addr(addr.seg, (addr.off + offset) % DWORD))]
    {
      if nLines + 1 >= linesAlloc {
        Resize(linesAlloc + 64);
      }
      linetab[nLines] := Line(number, Addr(addr.seg, (addr.off + offset) % DWORD));
      nLines := nLines + 1;
    }

    /** Gives spare entries back. */
    method Normalize()
      requires Valid()
      modifies `linetab, `linesAlloc
      ensures Valid() && Lines() == old(Lines()) && linesAlloc == nLines
    {
      if nLines != linesAlloc {
        Resize(nLines);
      }
    }

    /** The search of the line table. */
    method LineSearch(off: nat) returns (k: nat)
      requires Valid() && linetab != null
      ensures k == LineAt(Lines(), off)
    {
      ghost var s, a := Starts(Lines()), Addr(0, off);
      var low, high := 0, nLines;
      while high - low > 1
        invariant 0 <= low < high <= nLines
        invariant Halve(s, a, low, high) == Halve(s, a, 0, nLines)
        decreases high - low
      {
        var mid := (high + low) / 2;
        if off < linetab[mid].pc.off {
          high := mid;
        } else {
          low := mid;
        }
      }
      return low;
    }

    /** The address is on the first instruction of several lines. */
    ghost predicate First(a: Addr)
      reads this
    {
      addr.off == a.off && nLines > 1
    }

    /** The address is less than 0x100000 bytes behind the start, modulo 2^32, and the source known. */
    ghost predicate Near(a: Addr)
      reads this
    {
      hasSource && (a.off - addr.off) % DWORD < 0x10_0000
    }

    /** When each of the four statuses is the answer for address a in this symbol. */
    ghost predicate Says(a: Addr, status: Status)
      requires Valid()
      reads this, linetab
    {
      && (status == FuncIsTrampoline <==> !stepThrough && trampoline)
      && (status == FuncHasNoLines <==> !stepThrough && !trampoline && (linetab == null || (!First(a) && !Near(a))))
      && (status == AtLineNumber <==>
            !stepThrough && !trampoline && linetab != null && !First(a) && Near(a) && Reached(Lines(), a.off))
      && (status == NotOnLineNumber <==>
            stepThrough || (!trampoline && linetab != null && (First(a) || (Near(a) && !Reached(Lines(), a.off)))))
    }

    /** DEBUG_CheckLinenoStatus, once the nearest symbol is known. */
    method StatusAt(a: Addr) returns (status: Status)
      requires Valid()
      ensures status == StatusIn(AsFunc(), a) && Says(a, status)
    {
      OtherStatusesIff(AsFunc(), a);
      AtLineNumberIff(AsFunc(), a);
      hide Reached, LineAt, Starts;
      if stepThrough {
        return NotOnLineNumber;
      }
      if trampoline {
        return FuncIsTrampoline;
      }
      if linetab == null {
        return FuncHasNoLines;
      }
      if addr.off == a.off && nLines > 1 {
        return NotOnLineNumber;
      }
      if hasSource && (a.off - addr.off) % DWORD < 0x10_0000 {
        var k := LineSearch(a.off);
        return if linetab[k].pc.off == a.off then AtLineNumber else NotOnLineNumber;
      }
      return FuncHasNoLines;
    }
  }

  // ---------------------------------------------------------------- sequences of symbols

  function Flatten<T>(chains: seq<seq<T>>): seq<T> {
    if chains == [] then [] else Flatten(chains[..|chains| - 1]) + chains[|chains| - 1]
  }

  lemma {:induction false} InFlatten<T>(chains: seq<seq<T>>, x: T)
    ensures x in Flatten(chains) <==> exists i | 0 <= i < |chains| :: x in chains[i]
  {
    if chains != [] {
      var front := chains[..|chains| - 1];
      InFlatten(front, x);
      if i :| 0 <= i < |front| && x in front[i] {
        assert x in chains[i];
      }
    }
  }

  lemma {:induction false} FlattenPrefix<T>(chains: seq<seq<T>>, i: nat)
    requires i <= |chains|
    ensures Flatten(chains[..i]) <= Flatten(chains)
    decreases |chains|
  {
    if i < |chains| {
      var front := chains[..|chains| - 1];
      FlattenPrefix(front, i);
      assert front[..i] == chains[..i];
    } else {
      assert chains[..i] == chains;
    }
  }

  /** One more at the head of a chain is one more in all. */
  lemma {:induction false} FlattenInsert<T>(chains: seq<seq<T>>, b: nat, x: T)
    requires b < |chains|
    ensures multiset(Flatten(chains[b := [x] + chains[b]])) == multiset(Flatten(chains)) + multiset{x}
  {
    var n := |chains| - 1;
    var u := chains[b := [x] + chains[b]];
    if b < n {
      FlattenInsert(chains[..n], b, x);
      assert u[..n] == chains[..n][b := [x] + chains[b]];
    } else {
      assert u[..n] == chains[..n];
    }
  }

  ghost function Entries(t: seq<Symbol>): (s: seq<Entry>)
    reads t`addr, t`invalid, t`linetab
    ensures |s| == |t| && forall i | 0 <= i < |t| :: s[i] == t[i].AsEntry()
  {
    if t == [] then [] else Entries(t[..|t| - 1]) + [t[|t| - 1].AsEntry()]
  }

  ghost function Addresses(t: seq<Symbol>): (s: seq<Addr>)
    reads t`addr
    ensures |s| == |t| && forall i | 0 <= i < |t| :: s[i] == t[i].addr
  {
    if t == [] then [] else Addresses(t[..|t| - 1]) + [t[|t| - 1].addr]
  }

  // ---------------------------------------------------------------- sorting

  /** The first n entries are in order but for the one at hole, which may be out of place downwards. */
  ghost predicate InOrderBut(t: seq<Entry>, n: nat, hole: nat) {
    n <= |t| && forall i, j | 0 <= i < j < n && j != hole :: Compare(t[i], t[j]) <= 0
  }

  lemma Sink(t: seq<Entry>, n: nat, hole: nat)
    requires 0 < hole < n && InOrderBut(t, n, hole) && Compare(t[hole - 1], t[hole]) > 0
    ensures InOrderBut(t[hole - 1 := t[hole]][hole := t[hole - 1]], n, hole - 1)
  {
  }

  lemma Settle(t: seq<Entry>, n: nat, hole: nat)
    requires hole < n && InOrderBut(t, n, hole) && (hole > 0 ==> Compare(t[hole - 1], t[hole]) <= 0)
    ensures InOrderBut(t, n, n)
  {
    forall i | 0 <= i < hole ensures Compare(t[i], t[hole]) <= 0 {
      if i < hole - 1 {
        CompareTransitive(t[i], t[hole - 1], t[hole]);
      }
    }
  }

  method SwapBack(a: array<Symbol>, j: nat)
    requires 0 < j < a.Length
    modifies a
    ensures multiset(a[..]) == multiset(old(a[..]))
    ensures var t := old(Entries(a[..])); Entries(a[..]) == t[j - 1 := t[j]][j := t[j - 1]]
  {
    hide Entries;
    a[j - 1], a[j] := a[j], a[j - 1];
  }

  method SiftDown(a: array<Symbol>, i: nat)
    requires i < a.Length && InOrderBut(Entries(a[..]), i, i)
    modifies a
    ensures multiset(a[..]) == multiset(old(a[..])) && InOrderBut(Entries(a[..]), i + 1, i + 1)
  {
    hide Compare, Entries;
    var j := i;
    while j > 0 && Compare(a[j - 1].AsEntry(), a[j].AsEntry()) > 0
      invariant 0 <= j <= i && multiset(a[..]) == multiset(old(a[..]))
      invariant InOrderBut(Entries(a[..]), i + 1, j)
    {
      hide InOrderBut;
      Sink(Entries(a[..]), i + 1, j);
      SwapBack(a, j);
      j := j - 1;
    }
    Settle(Entries(a[..]), i + 1, j);
  }

  /** Stands for qsort with DEBUG_cmp_sym. */
  method Qsort(a: array<Symbol>)
    modifies a
    ensures multiset(a[..]) == multiset(old(a[..])) && InOrder(Entries(a[..]))
  {
    hide Compare, Entries;
    var i := 0;
    while i < a.Length
      invariant 0 <= i <= a.Length && multiset(a[..]) == multiset(old(a[..]))
      invariant InOrderBut(Entries(a[..]), i, i)
    {
      SiftDown(a, i);
      i := i + 1;
    }
  }

  // ---------------------------------------------------------------- the table

  predicate EndsWith(s: string, t: string) {
    |t| <= |s| && s[|s| - |t|..] == t
  }

  /** Machine generated call thunks, told by the name of their source file. */
  predicate IsTrampoline(source: string) {
    EndsWith(source, "/callfrom16.s") || EndsWith(source, "/callto16.s") || EndsWith(source, "/call32.s")
  }

  datatype Option<T> = None | Some(value: T)

  /** Adding (name, addr) returns s instead of a new symbol: any will do, or s is invalid, or it is
      at that address already. */
  ghost predicate Serves(s: Symbol, name: Name, addr: Addr, any: bool)
    reads s`addr, s`invalid
  {
    s.name == name && (any || s.invalid || s.addr == addr)
  }

  /** The first symbol in the chain that serves, or -1. */
  ghost function Hit(chain: seq<Symbol>, name: Name, addr: Addr, any: bool): (k: int)
    reads chain`addr, chain`invalid
    ensures -1 <= k < |chain|
    ensures k != -1 ==> Serves(chain[k], name, addr, any)
    ensures forall j | 0 <= j < if k == -1 then |chain| else k :: !Serves(chain[j], name, addr, any)
  {
    if chain == [] then -1
    else if Serves(chain[0], name, addr, any) then 0
    else
      var k := Hit(chain[1..], name, addr, any);
      if k == -1 then -1 else k + 1
  }

  /** Sorting a table without invalid symbols sorts it by address. */
  lemma ValidAreOrdered(t: seq<Symbol>, all: seq<Symbol>)
    requires InOrder(Entries(t)) && multiset(t) == multiset(all) && forall s | s in all :: !s.invalid
    ensures Sorted(Addresses(t))
  {
    SortedIffLowest(t, all);
  }

  /** Sorting a table with one invalid symbol, or with several at one address, sorts it by address
      if and only if no symbol is below that one. */
  lemma SortedIffLowest(t: seq<Symbol>, all: seq<Symbol>)
    requires InOrder(Entries(t)) && multiset(t) == multiset(all) && InvalidTogether(Entries(all))
    ensures Sorted(Addresses(t)) <==> InvalidAreLowest(Entries(all))
  {
    hide Entries, InOrder, InvalidTogether, InvalidAreLowest;
    assert Addrs(Entries(t)) == Addresses(t);
    SeenAlike(t, all);
    SeenAlike(all, t);
    OneInvalidOrderIff(Entries(all), Entries(t));
  }

  lemma SeenAlike(s: seq<Symbol>, t: seq<Symbol>)
    requires multiset(s) == multiset(t)
    ensures forall x | x in Entries(s) :: x in Entries(t)
  {
    hide Entries;
    forall i | 0 <= i < |s| ensures Entries(s)[i] in Entries(t) {
      assert s[i] in multiset(t);
      var j :| 0 <= j < |t| && t[j] == s[i];
      assert Entries(t)[j] == Entries(s)[i];
    }
  }

  /** Which symbols adding name moves: those of that name, or the one that is returned. */
  function Marks(t: seq<Symbol>, name: Name, any: bool, hit: Symbol?): (m: seq<bool>)
    ensures |m| == |t| && forall i | 0 <= i < |t| :: m[i] <==> t[i].name == name && (any || t[i] == hit)
  {
    seq(|t|, i requires 0 <= i < |t| => t[i].name == name && (any || t[i] == hit))
  }

  lemma NothingMoved(s: seq<Addr>, m: seq<bool>, a: Addr)
    requires |m| == |s| && forall i | 0 <= i < |m| :: !m[i]
    ensures FitsBetween(s, m, a)
  {
  }

  class SymbolTable {
    const nameHashTable: array<seq<Symbol>>
    var addrSorttab: array?<Symbol>
    var sortlistValid: bool

    ghost function All(): seq<Symbol>
      reads nameHashTable
    {
      Flatten(nameHashTable[..])
    }

    /** Symbols are in the chains of their names, and an index that is in use holds all of them. */
    ghost predicate Valid()
      reads this, nameHashTable, addrSorttab
    {
      && nameHashTable.Length == NR_NAME_HASH
      && (forall b, j | 0 <= b < NR_NAME_HASH && 0 <= j < |nameHashTable[b]| ::
            Bucket(nameHashTable[b][j].name) == b)
      && (sortlistValid ==>
            addrSorttab != null && addrSorttab.Length > 0 && multiset(addrSorttab[..]) == multiset(All()))
    }

    /** An index in use is in the order of the addresses. */
    ghost predicate Ordered()
      reads this, addrSorttab, (if addrSorttab == null then {} else set s | s in addrSorttab[..])`addr
    {
      sortlistValid && addrSorttab != null ==> Sorted(Addresses(addrSorttab[..]))
    }

    constructor ()
      ensures Valid() && All() == [] && !sortlistValid && fresh(nameHashTable)
    {
      nameHashTable := new seq<Symbol>[NR_NAME_HASH](_ => []);
      addrSorttab, sortlistValid := null, false;
      new;
      if Flatten(nameHashTable[..]) != [] {
        InFlatten(nameHashTable[..], Flatten(nameHashTable[..])[0]);
      }
    }

    // -------------------------------------------------------------- the index

    method CountSymbols() returns (nsym: nat, any: Symbol?)
      requires Valid()
      ensures nsym == |All()| && (any == null <==> nsym == 0)
    {
      nsym, any := 0, null;
      for i := 0 to NR_NAME_HASH
        invariant nsym == |Flatten(nameHashTable[..i])| && (any == null <==> nsym == 0)
      {
        assert nameHashTable[..i + 1][..i] == nameHashTable[..i];
        for k := 0 to |nameHashTable[i]|
          invariant nsym == |Flatten(nameHashTable[..i])| + k && (any == null <==> nsym == 0)
        {
          nsym, any := nsym + 1, nameHashTable[i][k];
        }
      }
      assert nameHashTable[..NR_NAME_HASH] == nameHashTable[..];
    }

    static method CopyChain(t: array<Symbol>, start: nat, chain: seq<Symbol>) returns (nsym: nat)
      requires start + |chain| <= t.Length
      modifies t
      ensures nsym == start + |chain| && t[..nsym] == old(t[..start]) + chain
    {
      nsym := start;
      for k := 0 to |chain|
        invariant nsym == start + k && t[..nsym] == old(t[..start]) + chain[..k]
      {
        t[nsym] := chain[k];
        nsym := nsym + 1;
      }
    }

    method CopySymbols(t: array<Symbol>)
      requires Valid() && t.Length == |All()|
      modifies t
      ensures t[..] == All()
    {
      ghost var chains := nameHashTable[..];
      var nsym := 0;
      for i := 0 to NR_NAME_HASH
        invariant nameHashTable[..] == chains
        invariant nsym == |Flatten(chains[..i])| <= t.Length && t[..nsym] == Flatten(chains[..i])
      {
        FlattenPrefix(chains, i + 1);
        assert chains[..i + 1][..i] == chains[..i];
        nsym := CopyChain(t, nsym, nameHashTable[i]);
      }
      assert chains[..NR_NAME_HASH] == chains;
    }

    method SortedTable(nsym: nat, any: Symbol) returns (t: array<Symbol>)
      requires Valid() && nsym == |All()|
      ensures Valid() && fresh(t) && t.Length == nsym
      ensures multiset(t[..]) == multiset(All()) && InOrder(Entries(t[..]))
    {
      hide InOrder, Entries, Flatten;
      // The memory is not initialised: each entry is written by CopySymbols.
      t := new Symbol[nsym](_ => any);
      CopySymbols(t);
      Qsort(t);
    }

    lemma Unused()
      requires All() == [] && !sortlistValid
      ensures Ordered() && InvalidAreLowest(Entries(All()))
    {
    }

    /** Builds the index from all the chains; with no symbols at all it stays out of use. */
    method ResortSymbols()
      requires Valid() && !sortlistValid
      modifies `addrSorttab, `sortlistValid
      ensures Valid() && (sortlistValid <==> All() != [])
      ensures sortlistValid ==> fresh(addrSorttab) && InOrder(Entries(addrSorttab[..]))
      ensures InvalidTogether(Entries(All())) ==> (Ordered() <==> InvalidAreLowest(Entries(All())))
      ensures (forall s | s in All() :: !s.invalid) ==> Ordered()
    {
      hide InOrder, Entries, Flatten, Ordered, InvalidTogether, InvalidAreLowest;
      var nsym, any := CountSymbols();
      if nsym == 0 {
        Unused();
        return;
      }
      var t := SortedTable(nsym, any);
      addrSorttab, sortlistValid := t, true;
      SortedIndex();
    }

    lemma SortedIndex()
      requires Valid() && sortlistValid && InOrder(Entries(addrSorttab[..]))
      ensures InvalidTogether(Entries(All())) ==> (Ordered() <==> InvalidAreLowest(Entries(All())))
      ensures (forall s | s in All() :: !s.invalid) ==> Ordered()
    {
      hide InOrder, Entries, Flatten, Sorted, Addresses, InvalidTogether, InvalidAreLowest;
      if InvalidTogether(Entries(All())) {
        SortedIffLowest(addrSorttab[..], All());
      }
      if forall s | s in All() :: !s.invalid {
        ValidAreOrdered(addrSorttab[..], All());
      }
    }

    // -------------------------------------------------------------- searching

    /** The halving loop of DEBUG_FindNearestSymbol, and what it does for line numbers. */
    method SearchTable(t: array<Symbol>, addr: Addr) returns (k: int)
      requires t.Length > 0
      ensures k == Pick(Entries(t[..]), addr) && Entries(t[..]) == old(Entries(t[..]))
    {
      hide Entries, PreferLines;
      ghost var e := Entries(t[..]);
      ghost var s := Addrs(e);
      var low, high := 0, t.Length;
      if !AtOrBelow(t[0].addr, addr) {
        return -1;
      }
      if AtOrBelow(t[high - 1].addr, addr) && t[high - 1].addr != addr {
        return high - 1;
      }
      var mid := (high + low) / 2;
      while mid != low
        invariant 0 <= low < high <= t.Length && mid == (high + low) / 2
        invariant Halve(s, addr, low, high) == Halve(s, addr, 0, t.Length)
        decreases high - low
      {
        if AtOrBelow(t[mid].addr, addr) {
          low := mid;
        } else {
          high := mid;
        }
        mid := (high + low) / 2;
      }
      k := WithLines(t, mid);
    }

    /** Of symbols at one address, one with line numbers is taken if it is next to entry i. */
    method WithLines(t: array<Symbol>, i: nat) returns (k: nat)
      requires i < t.Length
      ensures k == PreferLines(Entries(t[..]), i)
    {
      hide Entries;
      k := i;
      if k > 0 && t[k].linetab == null && t[k - 1].addr == t[k].addr && t[k - 1].linetab != null {
        k := k - 1;
      }
      if k < t.Length - 1 && t[k].linetab == null && t[k + 1].addr == t[k].addr && t[k + 1].linetab != null {
        k := k + 1;
      }
    }

    /** What a look through all the chains finds nearest at or below addr. */
    ghost predicate IsBest(r: Symbol?, addr: Addr)
      reads nameHashTable, All()`addr, {r}`addr
    {
      && (r != null ==> r in All())
      && BestOf(Addresses(All()), addr) == if r == null then [] else [r.addr]
    }

    lemma SearchIsBest(addr: Addr)
      requires Valid() && sortlistValid && Ordered()
      ensures var k := Pick(Entries(addrSorttab[..]), addr);
              IsBest(if k == -1 then null else addrSorttab[k], addr)
    {
      var t, all := addrSorttab[..], All();
      assert Addrs(Entries(t)) == Addresses(t);
      var e, s := Entries(t), Addresses(all);
      forall y ensures y in Addrs(e) <==> y in s {
        if y in s {
          var i :| 0 <= i < |all| && s[i] == y;
          assert all[i] in multiset(t);
          var j :| 0 <= j < |t| && t[j] == all[i];
          assert Addrs(e)[j] == y;
        }
        if y in Addrs(e) {
          var j :| 0 <= j < |e| && Addrs(e)[j] == y;
          assert t[j] in multiset(all);
          var i :| 0 <= i < |all| && all[i] == t[j];
          assert s[i] == y;
        }
      }
      PickIsBest(e, s, addr);
      var k := Pick(e, addr);
      if k != -1 {
        assert t[k] in multiset(all);
      }
    }

    /** Brings an index that is out of use up to date. */
    method UseIndex()
      requires Valid()
      modifies `addrSorttab, `sortlistValid
      ensures Valid() && (sortlistValid <==> old(sortlistValid) || All() != [])
      ensures old(sortlistValid) ==> addrSorttab == old(addrSorttab)
      ensures !old(sortlistValid) && (forall s | s in All() :: !s.invalid) ==> Ordered()
    {
      if !sortlistValid {
        ResortSymbols();
      }
    }

    /** The symbol nearest at or below addr, or null. */
    method FindNearestSymbol(addr: Addr) returns (nearest: Symbol?)
      requires Valid()
      modifies `addrSorttab, `sortlistValid
      ensures Valid() && (sortlistValid <==> old(sortlistValid) || All() != [])
      ensures Ordered() ==> IsBest(nearest, addr)
      ensures old(sortlistValid) ==> addrSorttab == old(addrSorttab)
      ensures !old(sortlistValid) && (forall s | s in All() :: !s.invalid) ==> Ordered()
      ensures nearest != null ==> nearest in All()
      ensures if !sortlistValid then nearest == null
              else var k := Pick(Entries(addrSorttab[..]), addr); nearest == if k == -1 then null else addrSorttab[k]
    {
      hide Entries, InOrder, Flatten, Sorted, Addrs, Addresses, Pick;
      UseIndex();
      if !sortlistValid {
        return null;
      }
      assert allocated(All());
      var k := SearchTable(addrSorttab, addr);
      nearest := if k == -1 then null else addrSorttab[k];
      assert k != -1 ==> nearest in multiset(addrSorttab[..]);
      if Ordered() {
        SearchIsBest(addr);
      }
    }

    /** Whether addr is where a line starts, as single stepping asks; nearest is the symbol that
        was consulted. */
    method CheckLinenoStatus(addr: Addr) returns (status: Status, nearest: Symbol?)
      requires Valid() && All() != [] && forall s | s in All() :: s.Valid()
      modifies `addrSorttab, `sortlistValid
      ensures Valid() && sortlistValid && (Ordered() ==> IsBest(nearest, addr))
      ensures old(sortlistValid) ==> addrSorttab == old(addrSorttab)
      ensures !old(sortlistValid) && (forall s | s in All() :: !s.invalid) ==> Ordered()
      ensures nearest != null ==> nearest in All() && nearest.Valid()
      ensures if nearest == null then status == FuncHasNoLines else nearest.Says(addr, status)
    {
      hide Entries, InOrder, Flatten, Sorted, Addrs, Addresses, IsBest, StatusIn, Pick, Symbol.Says;
      assert allocated(All());
      nearest := FindNearestSymbol(addr);
      if nearest == null {
        status := FuncHasNoLines;
      } else {
        assert allocated(All()) && allocated(addrSorttab[..]);
        status := nearest.StatusAt(addr);
      }
    }

    lemma NotInUse()
      requires !sortlistValid
      ensures Ordered()
    {
    }

    /** The symbols in a chain are among all symbols. */
    lemma ChainInAll(name: Name)
      requires Valid()
      ensures forall s | s in nameHashTable[Bucket(name)] :: s in All()
    {
      forall s | s in nameHashTable[Bucket(name)] ensures s in All() {
        assert s in nameHashTable[..][Bucket(name)];
        InFlatten(nameHashTable[..], s);
      }
    }

    /** When no two symbols share an address, an index in use is in address order if and only if
        looking for each symbol at its own address finds it. */
    lemma OrderedFindsAll()
      requires Valid() && sortlistValid && Distinct(Addresses(addrSorttab[..]))
      ensures Ordered() <==>
              forall i | 0 <= i < addrSorttab.Length :: Pick(Entries(addrSorttab[..]), addrSorttab[i].addr) == i
    {
      hide Entries, Addresses, Pick;
      var t := addrSorttab[..];
      assert Addrs(Entries(t)) == Addresses(t);
      PickFindsAllIff(Entries(t));
      forall i | 0 <= i < |t| ensures Entries(t)[i].addr == addrSorttab[i].addr {
      }
    }

    // -------------------------------------------------------------- changing symbols

    /** When the symbols marked in an ordered index have been moved to addr. */
    twostate lemma MovedOrderIff(new m: seq<bool>, new addr: Addr)
      requires old(Ordered()) && old(sortlistValid) && sortlistValid
      requires addrSorttab != null && addrSorttab == old(addrSorttab) && addrSorttab[..] == old(addrSorttab[..])
      requires |m| == addrSorttab.Length
      requires forall i | 0 <= i < |m| :: addrSorttab[i].addr == if m[i] then addr else old(addrSorttab[i].addr)
      ensures Ordered() <==> FitsBetween(old(Addresses(addrSorttab[..])), m, addr)
    {
      ghost var s := old(Addresses(addrSorttab[..]));
      MovedSortedIff(s, m, addr);
      assert Addresses(addrSorttab[..]) == Moved(s, m, addr);
    }

    /** In the index, addr is on the right side of every symbol that adding (name, addr) leaves where
        it is: not below one in front of a symbol that is moved, nor above one behind. */
    ghost predicate FitsIndex(name: Name, addr: Addr, any: bool)
      requires nameHashTable.Length == NR_NAME_HASH
      reads this, nameHashTable, addrSorttab, nameHashTable[Bucket(name)]`addr, nameHashTable[Bucket(name)]`invalid
      reads (if addrSorttab == null then {} else set s | s in addrSorttab[..])`addr
    {
      sortlistValid && addrSorttab != null ==>
        FitsBetween(Addresses(addrSorttab[..]), Marks(addrSorttab[..], name, any, Served(name, addr, any)), addr)
    }

    /** The symbol that adding (name, addr) returns, if there is one already. */
    ghost function Served(name: Name, addr: Addr, any: bool): Symbol?
      requires nameHashTable.Length == NR_NAME_HASH
      reads this, nameHashTable, addrSorttab, nameHashTable[Bucket(name)]`addr, nameHashTable[Bucket(name)]`invalid
    {
      var k := Hit(nameHashTable[Bucket(name)], name, addr, any);
      if k == -1 then null else nameHashTable[Bucket(name)][k]
    }

    /** Without a source file, every symbol of that name is moved first. */
    method MoveAll(chain: seq<Symbol>, name: Name, addr: Addr)
      modifies chain`addr
      ensures forall s | s in chain :: s.addr == if s.name == name then addr else old(s.addr)
    {
      for i := 0 to |chain|
        invariant forall s | s in chain ::
                    s.addr == if s.name == name && s in chain[..i] then addr else old(s.addr)
      {
        if chain[i].name == name {
          chain[i].addr := addr;
        }
      }
    }

    method FindServing(chain: seq<Symbol>, name: Name, addr: Addr, ghost any: bool) returns (k: int)
      requires any ==> forall s | s in chain && s.name == name :: s.addr == addr
      ensures k == Hit(chain, name, addr, any)
    {
      k := 0;
      while k < |chain|
        invariant 0 <= k <= |chain| && forall j | 0 <= j < k :: !Serves(chain[j], name, addr, any)
      {
        if chain[k].name == name && (chain[k].invalid || chain[k].addr == addr) {
          return;
        }
        k := k + 1;
      }
      return -1;
    }

    /** Looks for a symbol that serves, moving symbols on the way. */
    method LookUp(chain: seq<Symbol>, name: Name, addr: Addr, any: bool) returns (k: int)
      modifies chain`addr, chain`invalid
      ensures k == old(Hit(chain, name, addr, any))
      ensures forall s | s in chain ::
                && s.addr == (if s.name == name && (any || (k != -1 && s == chain[k])) then addr else old(s.addr))
                && s.invalid == (if k != -1 && s == chain[k] then false else old(s.invalid))
    {
      if any {
        MoveAll(chain, name, addr);
      }
      k := FindServing(chain, name, addr, any);
      if k != -1 && chain[k].invalid {
        chain[k].addr, chain[k].invalid := addr, false;
      }
    }

    /** Links a new symbol in at the head of its chain; the index has to be rebuilt. */
    method Insert(r: Symbol)
      requires Valid()
      modifies `sortlistValid, nameHashTable
      ensures Valid() && !sortlistValid && multiset(All()) == old(multiset(All())) + multiset{r}
      ensures nameHashTable[..] == old(nameHashTable[..])[Bucket(r.name) := [r] + old(nameHashTable[Bucket(r.name)])]
    {
      hide Flatten, HashFrom;
      var hash := Bucket(r.name);
      FlattenInsert(nameHashTable[..], hash, r);
      nameHashTable[hash] := [r] + nameHashTable[hash];
      sortlistValid := false;
    }

    /** An ordered index stays ordered if and only if the new address fits into it. */
    method Update(name: Name, addr: Addr, any: bool) returns (k: int)
      requires Valid() && name != []
      modifies nameHashTable[Bucket(name)]`addr, nameHashTable[Bucket(name)]`invalid
      ensures var chain := nameHashTable[Bucket(name)];
              && k == old(Hit(chain, name, addr, any))
              && (forall s | s in chain ::
                    && s.addr == (if s.name == name && (any || (k != -1 && s == chain[k])) then addr else old(s.addr))
                    && s.invalid == (if k != -1 && s == chain[k] then false else old(s.invalid)))
      ensures old(Ordered()) ==> (Ordered() <==> old(FitsIndex(name, addr, any)))
      ensures k == -1 ==> old(FitsIndex(name, addr, any))
    {
      hide Hit, Flatten, HashFrom, Addresses, Sorted, FitsBetween;
      var hash := NameHash(name);
      var chain := nameHashTable[hash];
      ghost var m := [];
      if sortlistValid {
        m := Marks(addrSorttab[..], name, any, Served(name, addr, any));
        forall i | 0 <= i < addrSorttab.Length && addrSorttab[i].name == name ensures addrSorttab[i] in chain {
          assert addrSorttab[i] in multiset(addrSorttab[..]);
          InItsChain(addrSorttab[i]);
        }
        if Served(name, addr, any) == null {
          NothingMoved(Addresses(addrSorttab[..]), m, addr);
        }
      }
      k := LookUp(chain, name, addr, any);
      if sortlistValid && old(Ordered()) {
        MovedOrderIff(m, addr);
      }
    }

    /** Symbols are in the chains of their names. */
    lemma InItsChain(s: Symbol)
      requires Valid() && s in All()
      ensures s in nameHashTable[Bucket(s.name)]
    {
      InFlatten(nameHashTable[..], s);
      var b :| 0 <= b < NR_NAME_HASH && s in nameHashTable[..][b];
      var j :| 0 <= j < |nameHashTable[b]| && nameHashTable[b][j] == s;
    }

    static method NewSymbol(name: Name, addr: Addr, source: Option<string>,
                            invalid: bool, trampoline: bool, stepThrough: bool)
      returns (r: Symbol)
      ensures fresh(r) && r.Valid() && r.Lines() == [] && r.name == name && r.addr == addr && r.invalid == invalid
      ensures r.hasSource == source.Some? && r.stepThrough == stepThrough
      ensures r.trampoline == (trampoline || (source.Some? && IsTrampoline(source.value)))
    {
      r := new Symbol(name, source.Some?, addr, invalid, trampoline, stepThrough);
      if source.Some? && IsTrampoline(source.value) {
        r.trampoline := true;
      }
    }

    /** The symbol for name at addr, new unless one serves. */
    method AddSymbol(name: Name, addr: Addr, source: Option<string>,
                     invalid: bool, trampoline: bool, stepThrough: bool)
      returns (r: Symbol?)
      requires Valid()
      modifies `sortlistValid, nameHashTable
      modifies nameHashTable[Bucket(name)]`addr, nameHashTable[Bucket(name)]`invalid
      ensures Valid() && (r == null <==> name == [])
      ensures r != null ==> r.name == name && r.addr == addr
      ensures var chain := old(nameHashTable[Bucket(name)]);
              var k := old(Hit(nameHashTable[Bucket(name)], name, addr, source.None?));
              && (name != [] && k == -1 ==>
                    && fresh(r) && r.Valid() && r.Lines() == [] && r.invalid == invalid && !sortlistValid
                    && r.hasSource == source.Some? && r.stepThrough == stepThrough
                    && r.trampoline == (trampoline || (source.Some? && IsTrampoline(source.value)))
                    && nameHashTable[..] == old(nameHashTable[..])[Bucket(name) := [r] + chain]
                    && multiset(All()) == old(multiset(All())) + multiset{r})
              && (name == [] || k != -1 ==>
                    sortlistValid == old(sortlistValid) && nameHashTable[..] == old(nameHashTable[..]))
              && (name != [] && k != -1 ==> r == chain[k] && !r.invalid)
      ensures name != [] ==> (fresh(r) <==> old(Lacks(name, addr, source.None?)))
      ensures forall s | s in old(nameHashTable[Bucket(name)]) ::
                && s.addr == (if name != [] && s.name == name && (source.None? || s == r) then addr else old(s.addr))
                && s.invalid == (if s == r then false else old(s.invalid))
      ensures old(Ordered()) ==> (Ordered() <==> name == [] || old(FitsIndex(name, addr, source.None?)))
    {
      hide Hit, Flatten, HashFrom, IsTrampoline, FitsIndex, Ordered, Lacks, Symbol.Valid, Symbol.Lines;
      r := null;
      if name == [] {
        return;
      }
      MissesIff(name, addr, source.None?);
      var chain := nameHashTable[Bucket(name)];
      var k := Update(name, addr, source.None?);
      if k != -1 {
        return chain[k];
      }
      r := AddFresh(name, addr, source, invalid, trampoline, stepThrough);
      NotInUse();
    }

    /** A new symbol, linked in. */
    method AddFresh(name: Name, addr: Addr, source: Option<string>,
                    invalid: bool, trampoline: bool, stepThrough: bool)
      returns (r: Symbol)
      requires Valid()
      modifies `sortlistValid, nameHashTable
      ensures Valid() && !sortlistValid && fresh(r) && r.Valid() && r.Lines() == []
      ensures r.name == name && r.addr == addr && r.invalid == invalid
      ensures r.hasSource == source.Some? && r.stepThrough == stepThrough
      ensures r.trampoline == (trampoline || (source.Some? && IsTrampoline(source.value)))
      ensures nameHashTable[..] == old(nameHashTable[..])[Bucket(name) := [r] + old(nameHashTable[Bucket(name)])]
      ensures multiset(All()) == old(multiset(All())) + multiset{r}
    {
      hide Flatten, HashFrom, IsTrampoline;
      r := NewSymbol(name, addr, source, invalid, trampoline, stepThrough);
      Insert(r);
    }

    method FindByName(name: Name) returns (r: Symbol?)
      requires Valid()
      ensures var chain := nameHashTable[Bucket(name)];
              var k := Hit(chain, name, Addr(0, 0), true);
              r == if k == -1 then null else chain[k]
    {
      var hash := NameHash(name);
      var k := 0;
      while k < |nameHashTable[hash]|
        invariant 0 <= k <= |nameHashTable[hash]|
        invariant forall j | 0 <= j < k :: nameHashTable[hash][j].name != name
      {
        if nameHashTable[hash][k].name == name {
          return nameHashTable[hash][k];
        }
        k := k + 1;
      }
      return null;
    }

    /** The symbol that gets name's value: one of that name, or else one of that name after an
        underscore. */
    ghost function Named(name: Name): (r: Symbol?)
      requires Valid()
      reads this, nameHashTable, addrSorttab, nameHashTable[Bucket(name)], nameHashTable[Bucket([0x5f] + name)]
    {
      var chain, other := nameHashTable[Bucket(name)], nameHashTable[Bucket([0x5f] + name)];
      var k, j := Hit(chain, name, Addr(0, 0), true), Hit(other, [0x5f] + name, Addr(0, 0), true);
      if k != -1 then chain[k]
      else if (name == [] || name[0] != 0x5f) && j != -1 then other[j]
      else null
    }

    /** In the index, addr is on the right side of every other symbol for r to be moved there. */
    ghost predicate FitsFor(r: Symbol, addr: Addr)
      reads this, addrSorttab, (if addrSorttab == null then {} else set s | s in addrSorttab[..])`addr
    {
      sortlistValid && addrSorttab != null ==>
        FitsBetween(Addresses(addrSorttab[..]), Marks(addrSorttab[..], r.name, false, r), addr)
    }

    /** Which symbol that is, among all there are: one of that name, or, if there is none and the name
        does not begin with an underscore, one of that name after one. */
    lemma NamedIs(name: Name)
      requires Valid()
      ensures var r := Named(name);
              && (r != null ==> r in All())
              && (r != null && r.name != name ==>
                    && r.name == [0x5f] + name && (name == [] || name[0] != 0x5f)
                    && forall s | s in All() :: s.name != name)
      ensures Named(name) == null <==>
                forall s | s in All() :: s.name != name && (s.name == [0x5f] + name ==> name != [] && name[0] == 0x5f)
    {
      hide HashFrom, Flatten;
      ChainInAll(name);
      ChainInAll([0x5f] + name);
      forall s | s in All() ensures s in nameHashTable[Bucket(s.name)] {
        InItsChain(s);
      }
    }

    /** No symbol of that name is there, or, where any does not do, none of that name that is invalid
        or at that address. */
    ghost predicate Lacks(name: Name, addr: Addr, any: bool)
      reads nameHashTable, All()`addr, All()`invalid
    {
      forall s | s in All() && s.name == name :: !any && !s.invalid && s.addr != addr
    }

    /** Only then is a new symbol added. */
    lemma MissesIff(name: Name, addr: Addr, any: bool)
      requires Valid()
      ensures Hit(nameHashTable[Bucket(name)], name, addr, any) == -1 <==>
                Lacks(name, addr, any)
    {
      hide HashFrom, Flatten;
      ChainInAll(name);
      forall s | s in All() && s.name == name ensures s in nameHashTable[Bucket(name)] {
        InItsChain(s);
      }
    }

    method SetValue(r: Symbol, addr: Addr)
      requires Valid()
      modifies r`addr, r`trampoline, r`stepThrough
      ensures Valid() && r.addr == addr && !r.trampoline && !r.stepThrough
      ensures old(Ordered()) ==> (Ordered() <==> old(FitsFor(r, addr)))
    {
      hide Sorted, Addresses, Flatten, FitsBetween;
      r.addr := addr;
      r.trampoline, r.stepThrough := false, false;
      if sortlistValid && old(Ordered()) {
        MovedOrderIff(Marks(addrSorttab[..], r.name, false, r), addr);
      }
    }

    /** The address that DBG_FIX_ADDR_SEG makes of addr. */
    function Fixed(addr: Addr, dataSeg: nat, isSystem: nat -> bool): Addr {
      var seg := if addr.seg == 0xffff_ffff then dataSeg else addr.seg;
      Addr(if isSystem(seg) then 0 else seg, addr.off)
    }

    /** The offset stays; a missing segment is the data segment; system selectors become 0; any other
        address stays as it is. */
    lemma FixedIs(addr: Addr, dataSeg: nat, isSystem: nat -> bool)
      ensures var r := Fixed(addr, dataSeg, isSystem);
              && r.off == addr.off && (r.seg == 0 || !isSystem(r.seg))
              && (addr.seg != 0xffff_ffff && !isSystem(addr.seg) ==> r == addr)
              && (addr.seg != 0xffff_ffff && isSystem(addr.seg) ==> r.seg == 0)
              && (addr.seg == 0xffff_ffff && !isSystem(dataSeg) ==> r.seg == dataSeg)
              && (addr.seg == 0xffff_ffff && isSystem(dataSeg) ==> r.seg == 0)
    {
    }

    /** Sets the address of a named symbol, without a word to the index.  Of the flags, only the
        one that says the symbol is invalid stays. */
    method SetSymbolValue(name: Name, addr: Addr, dataSeg: nat, isSystem: nat -> bool) returns (found: bool)
      requires Valid()
      modifies Named(name)
      ensures found <==> old(Named(name)) != null
      ensures var r := old(Named(name));
              r != null ==>
                && r.addr == Fixed(addr, dataSeg, isSystem)
                && r.invalid == old(r.invalid) && !r.trampoline && !r.stepThrough
                && r.nLines == old(r.nLines) && r.linetab == old(r.linetab) && r.linesAlloc == old(r.linesAlloc)
      ensures Valid()
      ensures old(Ordered()) ==>
                (Ordered() <==> (found ==> old(FitsFor(Named(name), Fixed(addr, dataSeg, isSystem)))))
    {
      hide Hit, HashFrom, Flatten, Sorted, Addresses, FitsFor, Fixed, Ordered;
      var r := FindByName(name);
      if r == null && (name == [] || name[0] != 0x5f) {
        r := FindByName([0x5f] + name);
      }
      if r == null {
        return false;
      }
      SetValue(r, Fixed(addr, dataSeg, isSystem));
      return true;
    }
  }

  // ---------------------------------------------------------------- a symbol moved under the index

  lemma ThreeInOrder(t: seq<Symbol>, a: Symbol, b: Symbol, c: Symbol)
    requires multiset(t) == multiset{a, b, c} && Sorted(Addresses(t))
    requires a.addr == Addr(0, 1) && b.addr == Addr(0, 2) && c.addr == Addr(0, 3)
    ensures t == [a, b, c]
  {
    assert |t| == |multiset(t)| == 3;
    var s := Addresses(t);
    assert t[0] in multiset(t) && t[1] in multiset(t) && t[2] in multiset(t);
    assert t == [t[0], t[1], t[2]];
    assert AtOrBelow(s[0], s[1]) && AtOrBelow(s[1], s[2]);
  }

  /** A new name is added as a new symbol. */
  method AddNew(table: SymbolTable, ghost known: set<Symbol>, name: Name, addr: Addr, source: Option<string>)
    returns (r: Symbol)
    requires table.Valid() && name != [] && forall s | s in table.All() :: s in known && s.name != name
    modifies table, table.nameHashTable, known`addr, known`invalid
    ensures table.Valid() && !table.sortlistValid && multiset(table.All()) == old(multiset(table.All())) + multiset{r}
    ensures fresh(r) && r.Valid() && r.Lines() == [] && r.name == name && r.addr == addr && !r.invalid
    ensures !r.stepThrough && r.trampoline == (source.Some? && IsTrampoline(source.value))
    ensures forall s | s in known :: s.addr == old(s.addr) && s.invalid == old(s.invalid)
  {
    hide HashFrom, Flatten, Hit, IsTrampoline;
    table.ChainInAll(name);
    r := table.AddSymbol(name, addr, source, false, false, false);
  }

  /** Symbols a, b and c at 1, 2 and 3, indexed. */
  method ThreeSymbols() returns (table: SymbolTable, a: Symbol, b: Symbol, c: Symbol)
    ensures fresh(table) && fresh(table.nameHashTable) && fresh(a) && fresh(b) && fresh(c)
    ensures table.Valid() && table.sortlistValid
    ensures multiset(table.All()) == multiset{a, b, c} && table.addrSorttab[..] == [a, b, c]
    ensures a.name == [0x61] && b.name == [0x62] && c.name == [0x63]
    ensures a.addr == Addr(0, 1) && b.addr == Addr(0, 2) && c.addr == Addr(0, 3)
  {
    hide HashFrom, Flatten, Entries, Addresses, Sorted;
    table := new SymbolTable();
    a := AddNew(table, {}, [0x61], Addr(0, 1), None);
    InMultiset(table.All(), multiset{a});
    b := AddNew(table, {a}, [0x62], Addr(0, 2), None);
    InMultiset(table.All(), multiset{a, b});
    c := AddNew(table, {a, b}, [0x63], Addr(0, 3), None);
    InMultiset(table.All(), multiset{a, b, c});
    table.UseIndex();
    ThreeInOrder(table.addrSorttab[..], a, b, c);
  }

  lemma InMultiset(s: seq<Symbol>, m: multiset<Symbol>)
    requires multiset(s) == m
    ensures forall x | x in s :: x in m
  {
    assert forall x | x in s :: x in multiset(s);
  }

  /** A symbol of a name of its own is added again: it moves, and the index is not rebuilt. */
  method AddAgain(table: SymbolTable, ghost known: set<Symbol>, b: Symbol, addr: Addr)
    requires table.Valid() && b.name != [] && b in table.All()
    requires forall s | s in table.All() :: s in known && (s.name == b.name ==> s == b)
    modifies table, table.nameHashTable, known`addr, known`invalid
    ensures table.Valid() && table.nameHashTable[..] == old(table.nameHashTable[..]) && b.addr == addr
    ensures table.sortlistValid == old(table.sortlistValid) && table.addrSorttab == old(table.addrSorttab)
    ensures forall s | s in known && s != b :: s.addr == old(s.addr)
  {
    hide HashFrom, Flatten;
    table.ChainInAll(b.name);
    table.InItsChain(b);
    var again := table.AddSymbol(b.name, addr, None, false, false, false);
  }

  /** When b is added again at 9, looking for 9 finds c. */
  method MovedUnderIndex() returns (table: SymbolTable, moved: Symbol, found: Symbol?)
    ensures table.Valid() && moved in table.All() && moved.addr == Addr(0, 9)
    ensures found != null && found != moved && found.addr == Addr(0, 3)
  {
    hide HashFrom, Flatten, Addresses, Entries, Pick, Sorted, BestOf;
    var a, c;
    table, a, moved, c := ThreeSymbols();
    InMultiset(table.All(), multiset{a, moved, c});
    assert moved in multiset(table.All());
    AddAgain(table, {a, moved, c}, moved, Addr(0, 9));
    found := LookForNine(table, a, moved, c);
  }

  method LookForNine(table: SymbolTable, a: Symbol, b: Symbol, c: Symbol) returns (found: Symbol?)
    requires table.Valid() && table.sortlistValid && table.addrSorttab[..] == [a, b, c]
    requires a.addr == Addr(0, 1) && b.addr == Addr(0, 9) && c.addr == Addr(0, 3)
    modifies table`addrSorttab, table`sortlistValid
    ensures table.Valid() && found == c
  {
    hide HashFrom, Flatten, Addresses, Entries, Pick, Sorted, BestOf;
    NineIsMissed(Entries([a, b, c]));
    found := table.FindNearestSymbol(Addr(0, 9));
  }

  // ---------------------------------------------------------------- a function and a trampoline

  /** Call thunks are told by the last part of the name of their source file. */
  lemma ThunksAreTold()
    ensures IsTrampoline("x/callfrom16.s") && IsTrampoline("x/callto16.s")
    ensures IsTrampoline("if1632/call32.s") && !IsTrampoline("mycall32.s") && !IsTrampoline("if1632/call32.c")
  {
    assert "x/callfrom16.s"[1..] == "/callfrom16.s" && "x/callto16.s"[1..] == "/callto16.s";
    assert "if1632/call32.s"[6..] == "/call32.s";
    assert "mycall32.s"[1..] == "ycall32.s" && "ycall32.s"[0] == 'y' && "/call32.s"[0] == '/';
    assert "if1632/call32.c"[|"if1632/call32.c"| - 1] == 'c';
    forall t | t in ["/callfrom16.s", "/callto16.s", "/call32.s"]
      ensures !EndsWith("mycall32.s", t) && !EndsWith("if1632/call32.c", t)
    {
      assert t[|t| - 1] == 's' && t[0] == '/';
    }
  }

  /** A function without lines at 100 and a call thunk at 200, indexed. */
  method FunctionAndThunk() returns (table: SymbolTable, f: Symbol, t: Symbol)
    ensures fresh(table) && table.Valid() && table.sortlistValid && table.Ordered()
    ensures multiset(table.All()) == multiset{f, t} && f.Valid() && t.Valid()
    ensures f.addr == Addr(0, 100) && f.linetab == null && !f.stepThrough && !f.trampoline
    ensures t.addr == Addr(0, 200) && !t.stepThrough && t.trampoline
  {
    hide HashFrom, Flatten, Entries, Addresses, Sorted, IsTrampoline;
    ThunksAreTold();
    table := new SymbolTable();
    f := AddNew(table, {}, [0x66], Addr(0, 100), None);
    InMultiset(table.All(), multiset{f});
    t := AddNew(table, {f}, [0x74], Addr(0, 200), Some("if1632/call32.s"));
    InMultiset(table.All(), multiset{f, t});
    table.UseIndex();
  }

  /** What is answered inside each of them. */
  method AskInside() returns (inFunction: Status, inThunk: Status)
    ensures inFunction == FuncHasNoLines && inThunk == FuncIsTrampoline
  {
    hide HashFrom, Flatten, Entries, Addresses, Sorted, SymbolTable.Ordered, SymbolTable.IsBest;
    var table, f, t := FunctionAndThunk();
    InMultiset(table.All(), multiset{f, t});
    var nearest;
    inFunction, nearest := table.CheckLinenoStatus(Addr(0, 110));
    NearestOfTwo(table, f, t, nearest, Addr(0, 110));
    inThunk, nearest := table.CheckLinenoStatus(Addr(0, 210));
    NearestOfTwo(table, f, t, nearest, Addr(0, 210));
  }

  lemma NearestOfTwo(table: SymbolTable, f: Symbol, t: Symbol, r: Symbol?, a: Addr)
    requires multiset(table.All()) == multiset{f, t} && f.addr == Addr(0, 100) && t.addr == Addr(0, 200)
    requires a == Addr(0, 110) || a == Addr(0, 210)
    requires table.IsBest(r, a)
    ensures r == if a == Addr(0, 110) then f else t
  {
    hide Flatten, BestOf;
    InMultiset(table.All(), multiset{f, t});
    assert f in multiset(table.All()) && t in multiset(table.All());
    var s := Addresses(table.All());
    BestOfIsNearest(s, a);
    var i :| 0 <= i < |table.All()| && table.All()[i] == f;
    var j :| 0 <= j < |table.All()| && table.All()[j] == t;
    assert s[i] == f.addr && s[j] == t.addr && s[i] in s && s[j] in s;
    assert AtOrBelow(s[i], a) && (AtOrBelow(s[j], a) <==> a == Addr(0, 210)) && !AtOrBelow(s[j], s[i]);
  }

  lemma NineIsMissed(t: seq<Entry>)
    requires |t| == 3 && t[0].addr == Addr(0, 1) && t[1].addr == Addr(0, 9) && t[2].addr == Addr(0, 3)
    ensures Pick(t, Addr(0, 9)) == 2
  {
  }
}
