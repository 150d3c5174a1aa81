/**
 The address index of the debugger's symbols (debugger/hash.c), on values: the comparison that
 sorts it, the search for the symbol nearest below an address, and the search of a function's
 line table.  SymbolTable.dfy holds the symbols themselves.
 */
module SymbolIndex {

  const DWORD: nat := 0x1_0000_0000

  datatype Addr = Addr(seg: nat, off: nat)

  /** What the index sees of a symbol. */
  datatype Entry = Entry(addr: Addr, invalid: bool, lined: bool)

  predicate AtOrBelow(a: Addr, b: Addr) {
    a.seg < b.seg || (a.seg == b.seg && a.off <= b.off)
  }

  predicate Sorted(t: seq<Addr>) {
    forall i, j | 0 <= i < j < |t| :: AtOrBelow(t[i], t[j])
  }

  function Addrs(t: seq<Entry>): (s: seq<Addr>)
    ensures |s| == |t| && forall i | 0 <= i < |t| :: s[i] == t[i].addr
  {
    seq(|t|, i requires 0 <= i < |t| => t[i].addr)
  }

  // ---------------------------------------------------------------- the comparison

  /** DEBUG_cmp_sym. */
  function Compare(x: Entry, y: Entry): int {
    if x.invalid then -1
    else if y.invalid then 1
    else if x.addr.seg > y.addr.seg then 1
    else if x.addr.seg < y.addr.seg then -1
    else if x.addr.off > y.addr.off then 1
    else if x.addr.off < y.addr.off then -1
    else 0
  }

  /** What sorting with the comparison gives. */
  predicate InOrder(t: seq<Entry>) {
    forall i, j | 0 <= i < j < |t| :: Compare(t[i], t[j]) <= 0
  }

  lemma CompareTransitive(x: Entry, y: Entry, z: Entry)
    requires Compare(x, y) <= 0 && Compare(y, z) <= 0
    ensures Compare(x, z) <= 0
  {
  }

  predicate Distinguishable(t: seq<Entry>, i: int, j: int)
    requires 0 <= i < |t| && 0 <= j < |t|
  {
    Compare(t[i], t[j]) == -Compare(t[j], t[i])
  }

  /** The comparison is one that qsort can work with if and only if at most one entry is invalid. */
  lemma ConsistentIff(t: seq<Entry>)
    ensures (forall i, j | 0 <= i < |t| && 0 <= j < |t| && i != j :: Distinguishable(t, i, j))
       <==> (forall i, j | 0 <= i < j < |t| :: !(t[i].invalid && t[j].invalid))
  {
    if i, j :| 0 <= i < j < |t| && t[i].invalid && t[j].invalid {
      assert !Distinguishable(t, i, j);
    }
  }

  /** Sorting puts invalid entries first whatever their addresses, so the result is sorted by
      address if and only if they happen to belong there: they are in order among themselves and
      none is above a valid one. */
  lemma OrderIsAddressOrderIff(t: seq<Entry>)
    requires InOrder(t)
    ensures Sorted(Addrs(t))
       <==> forall i, j | 0 <= i < j < |t| && t[i].invalid :: AtOrBelow(t[i].addr, t[j].addr)
  {
    var s := Addrs(t);
    if forall i, j | 0 <= i < j < |t| && t[i].invalid :: AtOrBelow(t[i].addr, t[j].addr) {
      forall i, j | 0 <= i < j < |t| ensures AtOrBelow(s[i], s[j]) {
        assert Compare(t[i], t[j]) <= 0;
      }
    } else {
      var i, j :| 0 <= i < j < |t| && t[i].invalid && !AtOrBelow(t[i].addr, t[j].addr);
      assert !AtOrBelow(s[i], s[j]);
    }
  }

  /** Two invalid symbols are each before the other. */
  lemma TwoInvalidConfuse()
    ensures var x, y := Entry(Addr(0, 1), true, false), Entry(Addr(0, 2), true, false);
            Compare(x, y) < 0 && Compare(y, x) < 0 && !Distinguishable([x, y], 0, 1)
  {
  }

  /** The invalid symbols, if there are several, are at one address. */
  predicate InvalidTogether(t: seq<Entry>) {
    forall i, j | 0 <= i < |t| && 0 <= j < |t| && t[i].invalid && t[j].invalid :: t[i].addr == t[j].addr
  }

  /** No symbol is below an invalid one. */
  predicate InvalidAreLowest(t: seq<Entry>) {
    forall i, j | 0 <= i < |t| && 0 <= j < |t| && t[i].invalid :: AtOrBelow(t[i].addr, t[j].addr)
  }

  /** With one invalid symbol, or several at one address, it can be told before sorting whether the
      result t of sorting s will be sorted by address: if and only if no symbol is below it. */
  lemma OneInvalidOrderIff(s: seq<Entry>, t: seq<Entry>)
    requires InvalidTogether(s) && InOrder(t) && forall x :: x in s <==> x in t
    ensures Sorted(Addrs(t)) <==> InvalidAreLowest(s)
  {
    OrderIsAddressOrderIff(t);
    if Sorted(Addrs(t)) {
      forall i, j | 0 <= i < |s| && 0 <= j < |s| && s[i].invalid ensures AtOrBelow(s[i].addr, s[j].addr) {
        assert s[i] in t && s[j] in t;
        var k :| 0 <= k < |t| && t[k] == s[i];
        var l :| 0 <= l < |t| && t[l] == s[j];
        if l < k {
          assert Compare(t[l], t[k]) <= 0;
        }
      }
    } else if InvalidAreLowest(s) {
      forall k, l | 0 <= k < l < |t| && t[k].invalid ensures AtOrBelow(t[k].addr, t[l].addr) {
        assert t[k] in s && t[l] in s;
      }
    }
  }

  /** An invalid symbol at 9 and a valid one at 1: the comparison puts the invalid one first. */
  lemma InvalidGoesFirst()
    ensures var t := [Entry(Addr(0, 9), true, false), Entry(Addr(0, 1), false, false)];
            InOrder(t) && InvalidTogether(t) && !InvalidAreLowest(t) && !Sorted(Addrs(t))
  {
    var t := [Entry(Addr(0, 9), true, false), Entry(Addr(0, 1), false, false)];
    assert !AtOrBelow(t[0].addr, t[1].addr) && !AtOrBelow(Addrs(t)[0], Addrs(t)[1]);
  }

  // ---------------------------------------------------------------- halving

  /** The entry the halving loops of both searches end on, from the entries low to high. */
  function Halve(s: seq<Addr>, a: Addr, low: nat, high: nat): (k: nat)
    requires low < high <= |s|
    ensures low <= k < high
    decreases high - low
  {
    var mid := (high + low) / 2;
    if mid == low then low
    else if AtOrBelow(s[mid], a) then Halve(s, a, mid, high)
    else Halve(s, a, low, mid)
  }

  /** The middle entries looked at on the way to entry i; they depend on the positions alone. */
  function Probes(i: nat, low: nat, high: nat): (m: seq<nat>)
    requires low <= i < high
    ensures forall k | k in m :: low < k < high
    decreases high - low
  {
    var mid := (high + low) / 2;
    if mid == low then []
    else if i < mid then [mid] + Probes(i, low, mid)
    else [mid] + Probes(i, mid, high)
  }

  /** Each entry looked at on the way to i sends the search towards i. */
  predicate Guided(s: seq<Addr>, a: Addr, i: nat, low: nat, high: nat)
    requires low <= i < high <= |s|
  {
    forall m | m in Probes(i, low, high) :: AtOrBelow(s[m], a) <==> m <= i
  }

  /** Being guided, one entry at a time. */
  lemma GuidedStep(s: seq<Addr>, a: Addr, i: nat, low: nat, high: nat, mid: nat, l: nat, h: nat)
    requires low <= i < high <= |s| && mid == (high + low) / 2 != low
    requires l == (if i < mid then low else mid) && h == (if i < mid then mid else high)
    ensures Guided(s, a, i, low, high) <==> (AtOrBelow(s[mid], a) <==> mid <= i) && Guided(s, a, i, l, h)
  {
    var p, q := Probes(i, low, high), Probes(i, l, h);
    assert p == [mid] + q;
    hide Probes, AtOrBelow;
    assert mid in p && forall m | m in q :: m in p;
  }

  /** The loop ends on i if and only if it turns towards i and then ends there. */
  lemma HalveStep(s: seq<Addr>, a: Addr, i: nat, low: nat, high: nat, mid: nat, l: nat, h: nat)
    requires low <= i < high <= |s| && mid == (high + low) / 2 != low
    requires l == (if i < mid then low else mid) && h == (if i < mid then mid else high)
    ensures Halve(s, a, low, high) == i <==> (AtOrBelow(s[mid], a) <==> mid <= i) && Halve(s, a, l, h) == i
  {
    hide AtOrBelow;
  }

  /** In any table, sorted or not, the loop ends on entry i if and only if it is guided there. */
  lemma {:induction false} HalveEndsIff(s: seq<Addr>, a: Addr, i: nat, low: nat, high: nat)
    requires low <= i < high <= |s|
    ensures Halve(s, a, low, high) == i <==> Guided(s, a, i, low, high)
    decreases high - low
  {
    var mid := (high + low) / 2;
    if mid != low {
      hide Guided, AtOrBelow, Probes, Halve;
      var l, h := if i < mid then low else mid, if i < mid then mid else high;
      GuidedStep(s, a, i, low, high, mid, l, h);
      HalveStep(s, a, i, low, high, mid, l, h);
      HalveEndsIff(s, a, i, l, h);
    }
  }

  /** In a sorted table the loop ends on the last entry at or below a. */
  lemma {:induction false} HalveSplits(s: seq<Addr>, a: Addr, low: nat, high: nat)
    requires Sorted(s) && low < high <= |s|
    requires AtOrBelow(s[low], a) && (high < |s| ==> !AtOrBelow(s[high], a))
    ensures var k := Halve(s, a, low, high);
            forall i | 0 <= i < |s| :: AtOrBelow(s[i], a) <==> i <= k
    decreases high - low
  {
    var mid := (high + low) / 2;
    if mid == low {
      forall i | 0 <= i < |s| ensures AtOrBelow(s[i], a) <==> i <= low {
        assert i < low ==> AtOrBelow(s[i], s[low]);
        assert high < i ==> AtOrBelow(s[high], s[i]);
      }
    } else if AtOrBelow(s[mid], a) {
      HalveSplits(s, a, mid, high);
    } else {
      HalveSplits(s, a, low, mid);
    }
  }

  predicate Distinct(s: seq<Addr>) {
    forall i, j | 0 <= i < j < |s| :: s[i] != s[j]
  }

  predicate SortedIn(s: seq<Addr>, low: nat, high: nat)
    requires low <= high <= |s|
  {
    forall i, j | low <= i < j < high :: AtOrBelow(s[i], s[j])
  }

  /** Looking for each entry from low to high - 1 among those finds it. */
  predicate FindsAll(s: seq<Addr>, low: nat, high: nat)
    requires low < high <= |s|
  {
    forall i | low <= i < high :: Halve(s, s[i], low, high) == i
  }

  /** The entries in front of mid are below it and those behind it are not. */
  predicate Parts(s: seq<Addr>, low: nat, mid: nat, high: nat)
    requires low < mid < high <= |s|
  {
    forall i | low <= i < high :: AtOrBelow(s[mid], s[i]) <==> mid <= i
  }

  lemma FindsAllStep(s: seq<Addr>, low: nat, high: nat, mid: nat)
    requires low < high <= |s| && mid == (high + low) / 2 != low
    ensures FindsAll(s, low, high) <==> Parts(s, low, mid, high) && FindsAll(s, low, mid) && FindsAll(s, mid, high)
  {
    hide AtOrBelow;
    forall i | low <= i < high
      ensures Halve(s, s[i], low, high) == i <==>
                if i < mid then !AtOrBelow(s[mid], s[i]) && Halve(s, s[i], low, mid) == i
                else AtOrBelow(s[mid], s[i]) && Halve(s, s[i], mid, high) == i
    {
    }
  }

  lemma SortedInStep(s: seq<Addr>, low: nat, high: nat, mid: nat)
    requires Distinct(s) && low < mid < high <= |s|
    ensures SortedIn(s, low, high) <==> Parts(s, low, mid, high) && SortedIn(s, low, mid) && SortedIn(s, mid, high)
  {
    if SortedIn(s, low, high) {
      forall i | low <= i < high ensures AtOrBelow(s[mid], s[i]) <==> mid <= i {
        assert i < mid ==> AtOrBelow(s[i], s[mid]) && s[i] != s[mid];
        assert mid < i ==> AtOrBelow(s[mid], s[i]);
      }
    }
  }

  /** When no two entries are equal, looking for each entry finds it if and only if the table is
      sorted. */
  lemma {:induction false} HalveFindsAllIff(s: seq<Addr>, low: nat, high: nat)
    requires Distinct(s) && low < high <= |s|
    ensures FindsAll(s, low, high) <==> SortedIn(s, low, high)
    decreases high - low
  {
    var mid := (high + low) / 2;
    if mid != low {
      hide FindsAll, SortedIn, Parts, Distinct;
      FindsAllStep(s, low, high, mid);
      SortedInStep(s, low, high, mid);
      HalveFindsAllIff(s, low, mid);
      HalveFindsAllIff(s, mid, high);
    }
  }

  // ---------------------------------------------------------------- the nearest symbol

  predicate LinedTwin(t: seq<Entry>, k: int, other: int)
    requires 0 <= k < |t|
  {
    0 <= other < |t| && !t[k].lined && t[other].addr == t[k].addr && t[other].lined
  }

  /** Of entries at the same address, one with line numbers is preferred, if it is next to k. */
  function PreferLines(t: seq<Entry>, k: nat): (r: nat)
    requires k < |t|
    ensures r < |t|
  {
    var j := if LinedTwin(t, k, k - 1) then k - 1 else k;
    if LinedTwin(t, j, j + 1) then j + 1 else j
  }

  /** In any table, the entry taken is at the same address, next to k or k itself, and has line numbers
      if and only if one of these has. */
  lemma PreferLinesMeans(t: seq<Entry>, k: nat)
    requires k < |t|
    ensures var r := PreferLines(t, k);
            && t[r].addr == t[k].addr && k - 1 <= r <= k + 1
            && (t[r].lined <==> (t[k].lined
                                 || (k > 0 && t[k - 1].addr == t[k].addr && t[k - 1].lined)
                                 || (k + 1 < |t| && t[k + 1].addr == t[k].addr && t[k + 1].lined)))
  {
  }

  /** The index of the entry the search settles on, or -1.  Past the last entry it does not look
      for line numbers. */
  function Pick(t: seq<Entry>, a: Addr): (k: int)
    requires t != []
    ensures -1 <= k < |t|
  {
    var last := t[|t| - 1].addr;
    if !AtOrBelow(t[0].addr, a) then -1
    else if AtOrBelow(last, a) && last != a then |t| - 1
    else PreferLines(t, Halve(Addrs(t), a, 0, |t|))
  }

  /** In a sorted table, the entry picked is at the address of the last one at or below a.  It has
      line numbers if and only if one of the last two entries there has, unless the search stopped
      at the end of the table. */
  lemma PickSplits(t: seq<Entry>, a: Addr)
    requires t != [] && Sorted(Addrs(t))
    ensures var k := Pick(t, a);
            if k == -1 then forall i | 0 <= i < |t| :: !AtOrBelow(t[i].addr, a)
            else
              && AtOrBelow(t[k].addr, a)
              && (forall i | 0 <= i < |t| && AtOrBelow(t[i].addr, a) :: AtOrBelow(t[i].addr, t[k].addr))
    ensures var k, h := Pick(t, a), Halve(Addrs(t), a, 0, |t|);
            k != -1 && (t[|t| - 1].addr == a || !AtOrBelow(t[|t| - 1].addr, a)) ==>
              (t[k].lined <==> t[h].lined || LinedTwin(t, h, h - 1))
  {
    hide Halve;
    var s := Addrs(t);
    if AtOrBelow(t[0].addr, a) {
      HalveSplits(s, a, 0, |t|);
      var h := Halve(s, a, 0, |t|);
      forall i | 0 <= i < |t| && AtOrBelow(t[i].addr, a) ensures AtOrBelow(t[i].addr, t[h].addr) {
        assert AtOrBelow(s[i], a);
        assert i < h ==> AtOrBelow(s[i], s[h]);
      }
      assert AtOrBelow(s[h], a) && (h + 1 < |t| ==> !AtOrBelow(s[h + 1], a));
    } else {
      forall i | 0 <= i < |t| ensures !AtOrBelow(t[i].addr, a) {
        assert 0 < i ==> AtOrBelow(s[0], s[i]);
      }
    }
  }

  lemma DistinctHaveNoTwins(t: seq<Entry>, k: nat)
    requires Distinct(Addrs(t)) && k < |t|
    ensures PreferLines(t, k) == k
  {
    var s := Addrs(t);
    assert 0 < k ==> s[k - 1] != s[k];
    assert k + 1 < |s| ==> s[k] != s[k + 1];
  }

  /** When no two symbols share an address, every symbol is found at its own address if and only
      if the table is sorted. */
  lemma PickFindsAllIff(t: seq<Entry>)
    requires t != [] && Distinct(Addrs(t))
    ensures (forall i | 0 <= i < |t| :: Pick(t, t[i].addr) == i) <==> Sorted(Addrs(t))
  {
    hide PreferLines, Halve;
    var s := Addrs(t);
    HalveFindsAllIff(s, 0, |t|);
    forall i | 0 <= i < |t| ensures PreferLines(t, Halve(s, s[i], 0, |t|)) == Halve(s, s[i], 0, |t|) {
      DistinctHaveNoTwins(t, Halve(s, s[i], 0, |t|));
    }
    if Sorted(s) {
      forall i | 0 <= i < |t| ensures Pick(t, t[i].addr) == i {
        assert 0 < i ==> AtOrBelow(s[0], s[i]);
        assert i < |t| - 1 ==> AtOrBelow(s[i], s[|t| - 1]) && s[i] != s[|t| - 1];
        assert Halve(s, s[i], 0, |t|) == i;
      }
    } else if forall i | 0 <= i < |t| :: Pick(t, t[i].addr) == i {
      forall i | 0 <= i < |t| ensures Halve(s, s[i], 0, |t|) == i {
        assert Pick(t, t[i].addr) == i;
      }
    }
  }

  /** x is the greatest of the addresses s that is not above a, or there is none. */
  predicate IsNearest(s: seq<Addr>, a: Addr, x: Addr) {
    x in s && AtOrBelow(x, a) && forall y | y in s && AtOrBelow(y, a) :: AtOrBelow(y, x)
  }

  /** A look through the addresses in any order, keeping the best so far. */
  function BestOf(s: seq<Addr>, a: Addr): seq<Addr> {
    if s == [] then []
    else
      var best := BestOf(s[..|s| - 1], a);
      var y := s[|s| - 1];
      if AtOrBelow(y, a) && (best == [] || !AtOrBelow(y, best[0])) then [y] else best
  }

  lemma {:induction false} BestOfIsNearest(s: seq<Addr>, a: Addr)
    ensures var b := BestOf(s, a);
            if b == [] then forall y | y in s :: !AtOrBelow(y, a) else |b| == 1 && IsNearest(s, a, b[0])
  {
    if s != [] {
      var u, y := s[..|s| - 1], s[|s| - 1];
      BestOfIsNearest(u, a);
      assert s == u + [y];
    }
  }

  /** On a table sorted by address, the search finds what a look through all symbols would. */
  lemma PickIsBest(t: seq<Entry>, s: seq<Addr>, a: Addr)
    requires t != [] && Sorted(Addrs(t)) && forall y :: y in Addrs(t) <==> y in s
    ensures var k := Pick(t, a); BestOf(s, a) == if k == -1 then [] else [t[k].addr]
  {
    var u := Addrs(t);
    PickSplits(t, a);
    BestOfIsNearest(s, a);
    var k, b := Pick(t, a), BestOf(s, a);
    if k != -1 {
      assert u[k] in s;
      var i :| 0 <= i < |u| && u[i] == b[0];
      assert AtOrBelow(t[i].addr, t[k].addr) && AtOrBelow(u[k], u[i]);
    }
  }

  // ---------------------------------------------------------------- moving symbols

  /** The addresses once the marked entries have been given the address a. */
  function Moved(s: seq<Addr>, m: seq<bool>, a: Addr): (r: seq<Addr>)
    requires |m| == |s|
    ensures |r| == |s| && forall i | 0 <= i < |s| :: r[i] == if m[i] then a else s[i]
  {
    seq(|s|, i requires 0 <= i < |s| => if m[i] then a else s[i])
  }

  /** Wherever a marked entry and another one stand, a is on the marked one's side of the other. */
  predicate FitsBetween(s: seq<Addr>, m: seq<bool>, a: Addr)
    requires |m| == |s|
  {
    forall i, j | 0 <= i < j < |s| && m[i] != m[j] :: if m[i] then AtOrBelow(a, s[j]) else AtOrBelow(s[i], a)
  }

  /** A sorted table stays sorted when entries are moved if and only if their new address is not
      below an entry that stays in front of one of them nor above one that stays behind. */
  lemma MovedSortedIff(s: seq<Addr>, m: seq<bool>, a: Addr)
    requires Sorted(s) && |m| == |s|
    ensures Sorted(Moved(s, m, a)) <==> FitsBetween(s, m, a)
  {
    var r := Moved(s, m, a);
    if Sorted(r) {
      forall i, j | 0 <= i < j < |s| && m[i] != m[j] ensures if m[i] then AtOrBelow(a, s[j]) else AtOrBelow(s[i], a) {
        assert AtOrBelow(r[i], r[j]);
      }
    } else {
      var i, j :| 0 <= i < j < |s| && !AtOrBelow(r[i], r[j]);
      assert AtOrBelow(s[i], s[j]);
      assert m[i] != m[j];
    }
  }

  // ---------------------------------------------------------------- line tables

  datatype Line = Line(number: nat, pc: Addr)

  datatype Status = FuncHasNoLines | NotOnLineNumber | AtLineNumber | FuncIsTrampoline

  predicate Rising(lines: seq<Line>) {
    forall i, j | 0 <= i < j < |lines| :: lines[i].pc.off <= lines[j].pc.off
  }

  /** Where the lines start, as the search compares them. */
  function Starts(lines: seq<Line>): (s: seq<Addr>)
    ensures |s| == |lines| && forall i | 0 <= i < |lines| :: s[i] == Addr(0, lines[i].pc.off)
  {
    seq(|lines|, i requires 0 <= i < |lines| => Addr(0, lines[i].pc.off))
  }

  /** The entry the search of the line table ends on. */
  function LineAt(lines: seq<Line>, off: nat): (k: nat)
    requires lines != []
    ensures k < |lines|
  {
    Halve(Starts(lines), Addr(0, off), 0, |lines|)
  }

  /** Some line starts at off, and the entries the search looks at on its way there send it there. */
  predicate Reached(lines: seq<Line>, off: nat) {
    exists i | 0 <= i < |lines| ::
      lines[i].pc.off == off && Guided(Starts(lines), Addr(0, off), i, 0, |lines|)
  }

  /** In any table, the search finds a line at off if and only if it is guided to one. */
  lemma LineAtFindsIff(lines: seq<Line>, off: nat)
    requires lines != []
    ensures lines[LineAt(lines, off)].pc.off == off <==> Reached(lines, off)
  {
    var k := LineAt(lines, off);
    HalveEndsIff(Starts(lines), Addr(0, off), k, 0, |lines|);
    if i :| 0 <= i < |lines| && lines[i].pc.off == off && Guided(Starts(lines), Addr(0, off), i, 0, |lines|) {
      HalveEndsIff(Starts(lines), Addr(0, off), i, 0, |lines|);
    }
  }

  /** In a rising table, it is guided to a line wherever one starts. */
  lemma RisingReaches(lines: seq<Line>, off: nat)
    requires Rising(lines)
    ensures Reached(lines, off) <==> exists i | 0 <= i < |lines| :: lines[i].pc.off == off
  {
    if i :| 0 <= i < |lines| && lines[i].pc.off == off {
      var s, a := Starts(lines), Addr(0, off);
      assert Sorted(s);
      assert AtOrBelow(s[0], a) by {
        assert 0 < i ==> AtOrBelow(s[0], s[i]);
      }
      HalveSplits(s, a, 0, |lines|);
      var k := Halve(s, a, 0, |lines|);
      assert AtOrBelow(s[i], a) && AtOrBelow(s[k], a);
      assert i < k ==> AtOrBelow(s[i], s[k]);
      HalveEndsIff(s, a, k, 0, |lines|);
    }
  }

  /** When no two lines start at the same offset, every line is found if and only if the table is
      rising. */
  lemma EveryLineFoundIff(lines: seq<Line>)
    requires lines != []
    requires forall i, j | 0 <= i < j < |lines| :: lines[i].pc.off != lines[j].pc.off
    ensures (forall i | 0 <= i < |lines| :: lines[LineAt(lines, lines[i].pc.off)].pc.off == lines[i].pc.off)
       <==> Rising(lines)
  {
    var s := Starts(lines);
    HalveFindsAllIff(s, 0, |lines|);
    if Rising(lines) {
      assert SortedIn(s, 0, |lines|);
    } else {
      var i, j :| 0 <= i < j < |lines| && lines[i].pc.off > lines[j].pc.off;
      assert !AtOrBelow(s[i], s[j]);
      var k :| 0 <= k < |lines| && Halve(s, s[k], 0, |lines|) != k;
      var l := LineAt(lines, lines[k].pc.off);
      assert l != k && lines[if l < k then l else k].pc.off != lines[if l < k then k else l].pc.off;
    }
    if forall i | 0 <= i < |lines| :: Halve(s, s[i], 0, |lines|) == i {
      forall i | 0 <= i < |lines| ensures LineAt(lines, lines[i].pc.off) == i {
        assert Halve(s, s[i], 0, |lines|) == i;
      }
    }
  }

  /** What is known about a function, as CheckLinenoStatus looks at it. */
  datatype Func = Func(addr: Addr, stepThrough: bool, trampoline: bool, hasSource: bool, lines: seq<Line>)

  /** The status of address a in the function nearest to it; a table is missing when it is empty,
      and the distance is taken modulo 2^32. */
  function StatusIn(f: Func, a: Addr): Status {
    if f.stepThrough then NotOnLineNumber
    else if f.trampoline then FuncIsTrampoline
    else if f.lines == [] then FuncHasNoLines
    else if f.addr.off == a.off && |f.lines| > 1 then NotOnLineNumber
    else if f.hasSource && (a.off - f.addr.off) % DWORD < 0x10_0000 then
      if f.lines[LineAt(f.lines, a.off)].pc.off == a.off then AtLineNumber else NotOnLineNumber
    else FuncHasNoLines
  }

  /** The cases decided before the line table is searched. */
  predicate Searched(f: Func, a: Addr) {
    && !f.stepThrough && !f.trampoline && f.lines != []
    && (f.addr.off == a.off ==> |f.lines| == 1)
    && f.hasSource && (a.off - f.addr.off) % DWORD < 0x10_0000
  }

  /** Whatever the line table, an address is at a line number if and only if it passes the early
      exits and the range test and the search is guided to a line that starts there. */
  lemma AtLineNumberIff(f: Func, a: Addr)
    ensures StatusIn(f, a) == AtLineNumber <==> Searched(f, a) && Reached(f.lines, a.off)
  {
    if f.lines != [] {
      LineAtFindsIff(f.lines, a.off);
    }
  }

  /** The other three: a trampoline is one that is not to be stepped through anyway; there are no
      lines without a table or, except on the first instruction of a function with several lines,
      without a source file or 0x100000 bytes and more behind the start; everywhere else the address
      is not on a line number. */
  lemma OtherStatusesIff(f: Func, a: Addr)
    ensures StatusIn(f, a) == FuncIsTrampoline <==> !f.stepThrough && f.trampoline
    ensures StatusIn(f, a) == FuncHasNoLines <==>
              && !f.stepThrough && !f.trampoline
              && (f.lines == [] || (!(f.addr.off == a.off && |f.lines| > 1)
                                    && !(f.hasSource && (a.off - f.addr.off) % DWORD < 0x10_0000)))
    ensures StatusIn(f, a) == NotOnLineNumber <==>
              || f.stepThrough
              || (!f.trampoline && f.lines != []
                  && if f.addr.off == a.off && |f.lines| > 1 then true
                     else f.hasSource && (a.off - f.addr.off) % DWORD < 0x10_0000 && !Reached(f.lines, a.off))
  {
    if f.lines != [] {
      LineAtFindsIff(f.lines, a.off);
    }
  }

  /** With a rising line table, that is wherever some line starts. */
  lemma AtLineNumberIfRising(f: Func, a: Addr)
    requires Rising(f.lines)
    ensures StatusIn(f, a) == AtLineNumber
       <==> Searched(f, a) && exists i | 0 <= i < |f.lines| :: f.lines[i].pc.off == a.off
  {
    AtLineNumberIff(f, a);
    RisingReaches(f.lines, a.off);
  }

  /** In any table, an address said to be at a line number is at one. */
  lemma AtLineNumberIsSound(f: Func, a: Addr)
    ensures StatusIn(f, a) == AtLineNumber ==> exists i | 0 <= i < |f.lines| :: f.lines[i].pc.off == a.off
  {
    AtLineNumberIff(f, a);
  }

  /** In a table that is not rising, a line can be missed. */
  lemma UnsortedLinesMiss()
    ensures var f := Func(Addr(0, 100), false, false, true,
                          [Line(1, Addr(0, 100)), Line(2, Addr(0, 104)), Line(3, Addr(0, 102))]);
            f.lines[1].pc.off == 104 && StatusIn(f, Addr(0, 104)) == NotOnLineNumber
  {
    var lines := [Line(1, Addr(0, 100)), Line(2, Addr(0, 104)), Line(3, Addr(0, 102))];
    var s, a := Starts(lines), Addr(0, 104);
    assert Halve(s, a, 0, 3) == Halve(s, a, 1, 3) == Halve(s, a, 2, 3) == 2;
  }
}
