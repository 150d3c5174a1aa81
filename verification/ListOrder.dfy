/**
 Order and search in a list box (controls/Listbox.c), on the sequence of its items: where
 LAF_APPEND puts an item of a sorted list box, what order that keeps, which item a search
 finds, and what becomes of the selection index.
 */
module ListOrder {

  type Word = i: int | 0 <= i < 0x10000

  /** (WORD)-1: no position, no selection. */
  const NONE: Word := 0xffff
  const LB_ERR: int := -1

  /** What an item carries: its data, whether it is a separator, and its command id. */
  datatype Entry<T> = Entry(data: T, separator: bool, command: Word)

  type Compare<!T> = (T, T) -> int

  datatype AddFunc = Append | Insert | OtherFunc

  function InsertAt<T>(s: seq<T>, k: nat, x: T): seq<T>
    requires k <= |s|
  {
    s[..k] + [x] + s[k..]
  }

  function RemoveAt<T>(s: seq<T>, k: nat): seq<T>
    requires k < |s|
  {
    s[..k] + s[k + 1..]
  }

  lemma InsertAtMembers<T>(s: seq<T>, k: nat, x: T)
    requires k <= |s|
    ensures |InsertAt(s, k, x)| == |s| + 1
    ensures forall n | n in InsertAt(s, k, x) :: n in s || n == x
  {
  }

  lemma AppendIsInsertAt<T>(s: seq<T>, x: T)
    ensures s + [x] == InsertAt(s, |s|, x)
  {
  }

  lemma RemoveAtMembers<T>(s: seq<T>, k: nat)
    requires k < |s|
    ensures |RemoveAt(s, k)| == |s| - 1
    ensures forall n | n in RemoveAt(s, k) :: n in s
    ensures forall i | 0 <= i < |s| - 1 :: RemoveAt(s, k)[i] == s[if i < k then i else i + 1]
  {
  }

  /** Removing undoes inserting. */
  lemma RemoveInserted<T>(s: seq<T>, k: nat, x: T)
    requires k <= |s|
    ensures k < |InsertAt(s, k, x)| && RemoveAt(InsertAt(s, k, x), k) == s
  {
  }

  // ---------------------------------------------------------------- sorted adding

  /** The scan of a sorted LAF_APPEND resumed at index i: the first item not smaller than x. */
  function SortedPos<T>(cmp: Compare<T>, s: seq<Entry<T>>, x: T, i: nat): (k: nat)
    requires i <= |s|
    ensures i <= k <= |s|
    ensures forall j | i <= j < k :: cmp(x, s[j].data) > 0
    ensures k < |s| ==> cmp(x, s[k].data) <= 0
    decreases |s| - i
  {
    if i < |s| && cmp(x, s[i].data) > 0 then SortedPos(cmp, s, x, i + 1) else i
  }

  function SortedAdd<T>(cmp: Compare<T>, s: seq<Entry<T>>, x: Entry<T>): seq<Entry<T>> {
    InsertAt(s, SortedPos(cmp, s, x.data, 0), x)
  }

  ghost predicate Antisymmetric<T(!new)>(cmp: Compare<T>) {
    forall a, b :: cmp(a, b) < 0 <==> cmp(b, a) > 0
  }

  /** The comparison is transitive among the items of s. */
  ghost predicate TransitiveOn<T>(cmp: Compare<T>, s: seq<Entry<T>>) {
    forall a, b, c | a in s && b in s && c in s ::
      cmp(a.data, b.data) <= 0 && cmp(b.data, c.data) <= 0 ==> cmp(a.data, c.data) <= 0
  }

  ghost predicate AdjacentOrdered<T>(cmp: Compare<T>, s: seq<Entry<T>>) {
    forall i | 0 <= i < |s| - 1 :: cmp(s[i].data, s[i + 1].data) <= 0
  }

  ghost predicate Ordered<T>(cmp: Compare<T>, s: seq<Entry<T>>) {
    forall i, j | 0 <= i < j < |s| :: cmp(s[i].data, s[j].data) <= 0
  }

  /** Sorted adding keeps every adjacent pair in order, whatever the comparison, as long as it
      turns its sign when its arguments are exchanged. */
  lemma SortedAddKeepsAdjacent<T(!new)>(cmp: Compare<T>, s: seq<Entry<T>>, x: Entry<T>)
    requires Antisymmetric(cmp) && AdjacentOrdered(cmp, s)
    ensures AdjacentOrdered(cmp, SortedAdd(cmp, s, x))
  {
    var k := SortedPos(cmp, s, x.data, 0);
    var r := SortedAdd(cmp, s, x);
    forall i | 0 <= i < |r| - 1 ensures cmp(r[i].data, r[i + 1].data) <= 0 {
      if i + 1 < k {
        assert r[i] == s[i] && r[i + 1] == s[i + 1];
      } else if i + 1 == k {
        assert r[i] == s[i] && r[i + 1] == x;
      } else if i == k {
        assert r[i] == x && r[i + 1] == s[i];
      } else {
        assert r[i] == s[i - 1] && r[i + 1] == s[i];
      }
    }
  }

  /** With a comparison that is transitive among the items, adjacent order is order. */
  lemma {:induction false} AdjacentIsOrdered<T>(cmp: Compare<T>, s: seq<Entry<T>>, i: nat, j: nat)
    requires TransitiveOn(cmp, s) && AdjacentOrdered(cmp, s)
    requires i < j < |s|
    ensures cmp(s[i].data, s[j].data) <= 0
    decreases j
  {
    if i < j - 1 {
      AdjacentIsOrdered(cmp, s, i, j - 1);
      assert cmp(s[j - 1].data, s[j - 1 + 1].data) <= 0;
    } else {
      assert cmp(s[i].data, s[i + 1].data) <= 0;
    }
  }

  /** The items of an initially empty sorted list box after adding xs in turn. */
  function AddAll<T>(cmp: Compare<T>, s: seq<Entry<T>>, xs: seq<Entry<T>>): seq<Entry<T>>
    decreases |xs|
  {
    if xs == [] then s else AddAll(cmp, SortedAdd(cmp, s, xs[0]), xs[1..])
  }

  lemma InsertAtMultiset<T>(s: seq<T>, k: nat, x: T)
    requires k <= |s|
    ensures multiset(InsertAt(s, k, x)) == multiset(s) + multiset{x}
  {
    assert s == s[..k] + s[k..];
  }

  lemma {:induction false} AddAllKeepsAdjacent<T(!new)>(cmp: Compare<T>, s: seq<Entry<T>>, xs: seq<Entry<T>>)
    requires Antisymmetric(cmp) && AdjacentOrdered(cmp, s)
    ensures var r := AddAll(cmp, s, xs); AdjacentOrdered(cmp, r) && multiset(r) == multiset(s) + multiset(xs)
    decreases |xs|
  {
    if xs != [] {
      hide AdjacentOrdered, Antisymmetric;
      SortedAddKeepsAdjacent(cmp, s, xs[0]);
      InsertAtMultiset(s, SortedPos(cmp, s, xs[0].data, 0), xs[0]);
      AddAllKeepsAdjacent(cmp, SortedAdd(cmp, s, xs[0]), xs[1..]);
      assert xs == [xs[0]] + xs[1..];
    }
  }

  /** A sorted list box holds what was added to it, each pair of neighbours in order; if the
      comparison is transitive among these items, the whole list is in order. */
  lemma SortedListBox<T(!new)>(cmp: Compare<T>, s: seq<Entry<T>>, xs: seq<Entry<T>>)
    requires Antisymmetric(cmp) && AdjacentOrdered(cmp, s)
    ensures var r := AddAll(cmp, s, xs);
            && AdjacentOrdered(cmp, r)
            && multiset(r) == multiset(s) + multiset(xs)
            && (TransitiveOn(cmp, s + xs) ==> Ordered(cmp, r))
  {
    AddAllKeepsAdjacent(cmp, s, xs);
    if TransitiveOn(cmp, s + xs) {
      hide AddAll;
      var r := AddAll(cmp, s, xs);
      assert multiset(s + xs) == multiset(r);
      AmongFewer(cmp, r, s + xs);
      forall i, j | 0 <= i < j < |r| ensures cmp(r[i].data, r[j].data) <= 0 {
        hide TransitiveOn, AdjacentOrdered;
        AdjacentIsOrdered(cmp, r, i, j);
      }
    }
  }

  lemma AmongFewer<T>(cmp: Compare<T>, s: seq<Entry<T>>, t: seq<Entry<T>>)
    requires TransitiveOn(cmp, t) && multiset(s) == multiset(t)
    ensures TransitiveOn(cmp, s)
  {
    assert forall x | x in s :: x in multiset(t);
  }

  /** u stands before v in s. */
  ghost predicate Before<T>(s: seq<T>, u: T, v: T) {
    exists i, j | 0 <= i < j < |s| :: s[i] == u && s[j] == v
  }

  /** What is added later does not change the order of what is there. */
  lemma {:induction false} AddingKeepsBefore<T>(cmp: Compare<T>, s: seq<Entry<T>>, xs: seq<Entry<T>>,
                                                u: Entry<T>, v: Entry<T>)
    requires Before(s, u, v)
    ensures Before(AddAll(cmp, s, xs), u, v)
    decreases |xs|
  {
    if xs != [] {
      var i, j :| 0 <= i < j < |s| && s[i] == u && s[j] == v;
      var k := SortedPos(cmp, s, xs[0].data, 0);
      var t := SortedAdd(cmp, s, xs[0]);
      assert t[if i < k then i else i + 1] == u && t[if j < k then j else j + 1] == v;
      AddingKeepsBefore(cmp, t, xs[1..], u, v);
    }
  }

  lemma {:induction false} AddAllInTwo<T>(cmp: Compare<T>, s: seq<Entry<T>>, xs: seq<Entry<T>>, ys: seq<Entry<T>>)
    ensures AddAll(cmp, s, xs + ys) == AddAll(cmp, AddAll(cmp, s, xs), ys)
    decreases |xs|
  {
    if xs == [] {
      assert xs + ys == ys;
    } else {
      assert (xs + ys)[0] == xs[0] && (xs + ys)[1..] == xs[1..] + ys;
      AddAllInTwo(cmp, SortedAdd(cmp, s, xs[0]), xs[1..], ys);
    }
  }

  /** p equals both a and b, but b is greater than a: added in the order a, p, b, the greater one
      ends up in front. */
  lemma ClashSortsWrong<T>(cmp: Compare<T>, a: Entry<T>, p: Entry<T>, b: Entry<T>)
    requires cmp(p.data, a.data) == 0 && cmp(b.data, p.data) == 0 && cmp(b.data, a.data) > 0
    ensures AddAll(cmp, [], [a, p, b]) == [b, p, a] && Before([b, p, a], b, a)
  {
    assert SortedAdd(cmp, [], a) == [a];
    assert SortedPos(cmp, [a], p.data, 0) == 0 && SortedAdd(cmp, [a], p) == [p, a];
    assert SortedPos(cmp, [p, a], b.data, 0) == 0 && SortedAdd(cmp, [p, a], b) == [b, p, a];
    hide SortedAdd;
    assert [a, p, b][1..] == [p, b] && [p, b][1..] == [b] && [b][1..] == [];
    assert AddAll(cmp, [b, p, a], []) == [b, p, a];
    assert AddAll(cmp, [p, a], [b]) == [b, p, a];
    assert AddAll(cmp, [a], [p, b]) == [b, p, a];
    var s := [b, p, a];
    assert s[0] == b && s[2] == a;
  }

  /** And there it stays, whatever is added afterwards. */
  lemma ClashStaysWrong<T>(cmp: Compare<T>, a: Entry<T>, p: Entry<T>, b: Entry<T>, rest: seq<Entry<T>>)
    requires cmp(p.data, a.data) == 0 && cmp(b.data, p.data) == 0 && cmp(b.data, a.data) > 0
    ensures !Ordered(cmp, AddAll(cmp, [], [a, p, b] + rest))
  {
    hide AddAll;
    ClashSortsWrong(cmp, a, p, b);
    AddAllInTwo(cmp, [], [a, p, b], rest);
    AddingKeepsBefore(cmp, [b, p, a], rest, b, a);
    var r := AddAll(cmp, [], [a, p, b] + rest);
    var i, j :| 0 <= i < j < |r| && r[i] == b && r[j] == a;
    assert cmp(r[i].data, r[j].data) > 0;
  }

  // ---------------------------------------------------------------- the prefix comparison

  function Lower(c: char): int {
    if 'A' <= c <= 'Z' then c as int + 32 else c as int
  }

  /** strncasecmp over the first n characters. */
  function CaseCompare(a: string, b: string, n: nat): int
    requires n <= |a| && n <= |b|
    decreases n
  {
    if n == 0 then 0
    else if Lower(a[0]) != Lower(b[0]) then Lower(a[0]) - Lower(b[0])
    else CaseCompare(a[1..], b[1..], n - 1)
  }

  predicate Bracketed(s: string) { |s| > 0 && s[0] == '[' }

  function MinLen(a: string, b: string): nat { if |a| <= |b| then |a| else |b| }

  /** LBoxCaseComparePrefix. */
  function PrefixCompare(a: string, b: string): int {
    if !Bracketed(a) && Bracketed(b) then -1
    else if Bracketed(a) && !Bracketed(b) then 1
    else CaseCompare(a, b, MinLen(a, b))
  }

  lemma {:induction false} CaseCompareTurns(a: string, b: string, n: nat)
    requires n <= |a| && n <= |b|
    ensures CaseCompare(a, b, n) == -CaseCompare(b, a, n)
    decreases n
  {
    if n > 0 && Lower(a[0]) == Lower(b[0]) {
      CaseCompareTurns(a[1..], b[1..], n - 1);
    }
  }

  lemma PrefixCompareTurns()
    ensures Antisymmetric(PrefixCompare)
  {
    forall a: string, b: string ensures PrefixCompare(a, b) < 0 <==> PrefixCompare(b, a) > 0 {
      CaseCompareTurns(a, b, MinLen(a, b));
    }
  }

  /** The same letter, small or capital. */
  predicate SameLetter(a: char, b: char) {
    || a == b
    || ('A' <= a <= 'Z' && b as int == a as int + 32)
    || ('A' <= b <= 'Z' && a as int == b as int + 32)
  }

  /** The names have n characters in common, but for small and capital letters. */
  predicate SameLetters(a: string, b: string, n: nat) {
    n <= |a| && n <= |b| && forall i | 0 <= i < n :: SameLetter(a[i], b[i])
  }

  /** Names are equal to the comparison if and only if one begins like the other, small and capital
      letters alike, and both are in brackets or neither is. */
  lemma PrefixEqualIff(a: string, b: string)
    ensures PrefixCompare(a, b) == 0 <==> SameLetters(a, b, MinLen(a, b)) && (Bracketed(a) <==> Bracketed(b))
  {
    CaseEqualIff(a, b, MinLen(a, b));
  }

  lemma {:induction false} CaseEqualIff(a: string, b: string, n: nat)
    requires n <= |a| && n <= |b|
    ensures CaseCompare(a, b, n) == 0 <==> SameLetters(a, b, n)
    decreases n
  {
    if n > 0 && Lower(a[0]) == Lower(b[0]) {
      CaseEqualIff(a[1..], b[1..], n - 1);
      assert forall i | 0 <= i < n - 1 :: a[1..][i] == a[i + 1] && b[1..][i] == b[i + 1];
      if SameLetters(a[1..], b[1..], n - 1) {
        forall i | 0 <= i < n ensures SameLetter(a[i], b[i]) {
          assert i > 0 ==> SameLetter(a[1..][i - 1], b[1..][i - 1]);
        }
      }
      if SameLetters(a, b, n) {
        forall i | 0 <= i < n - 1 ensures SameLetter(a[1..][i], b[1..][i]) {
          assert SameLetter(a[i + 1], b[i + 1]);
        }
      }
    } else if n > 0 {
      assert !SameLetter(a[0], b[0]);
    }
  }

  /** Writing a name with other small and capital letters never changes how it compares. */
  lemma CaseIsIgnored(a: string, a': string, b: string)
    requires |a| == |a'| && SameLetters(a, a', |a|)
    ensures PrefixCompare(a, b) == PrefixCompare(a', b) && PrefixCompare(b, a) == PrefixCompare(b, a')
  {
    assert Bracketed(a) <==> Bracketed(a') by {
      assert |a| > 0 ==> SameLetter(a[0], a'[0]);
    }
    CaseAlike(a, a', b, MinLen(a, b));
    PrefixSigns(a, b);
    PrefixSigns(a', b);
  }

  lemma {:induction false} CaseAlike(a: string, a': string, b: string, n: nat)
    requires |a| == |a'| && SameLetters(a, a', |a|) && n <= |a| && n <= |b|
    ensures CaseCompare(a, b, n) == CaseCompare(a', b, n)
    decreases n
  {
    if n > 0 {
      assert SameLetter(a[0], a'[0]);
      forall i | 0 <= i < |a| - 1 ensures SameLetter(a[1..][i], a'[1..][i]) {
        assert SameLetter(a[i + 1], a'[i + 1]);
      }
      CaseAlike(a[1..], a'[1..], b[1..], n - 1);
    }
  }

  function Plain(s: string): Entry<string> { Entry(s, false, 0) }

  /** Where the comparison of prefixes is not transitive, the middle name equals both others. */
  lemma {:induction false} CaseCompareSteps(x: string, y: string, z: string)
    requires CaseCompare(x, y, MinLen(x, y)) <= 0 && CaseCompare(y, z, MinLen(y, z)) <= 0
    ensures CaseCompare(x, z, MinLen(x, z)) <= 0
         || (CaseCompare(x, y, MinLen(x, y)) == 0 && CaseCompare(y, z, MinLen(y, z)) == 0)
    decreases |x|
  {
    if x != "" && y != "" && z != "" && Lower(x[0]) == Lower(y[0]) == Lower(z[0]) {
      CaseCompareSteps(x[1..], y[1..], z[1..]);
    }
  }

  /** Three names of which one equals the two others, which are not equal. */
  ghost predicate Clash(p: string, a: string, b: string) {
    PrefixCompare(p, a) == 0 && PrefixCompare(p, b) == 0 && PrefixCompare(a, b) != 0
  }

  ghost predicate HasClash(s: seq<Entry<string>>) {
    exists p, a, b | p in s && a in s && b in s :: Clash(p.data, a.data, b.data)
  }

  /** Among names without a clash the prefix comparison is transitive. */
  lemma NoClashIsTransitive(s: seq<Entry<string>>)
    requires !HasClash(s)
    ensures TransitiveOn(PrefixCompare, s)
  {
    forall a, b, c | a in s && b in s && c in s
                     && PrefixCompare(a.data, b.data) <= 0 && PrefixCompare(b.data, c.data) <= 0
      ensures PrefixCompare(a.data, c.data) <= 0
    {
      var x, y, z := a.data, b.data, c.data;
      assert !Clash(y, x, z);
      CaseCompareTurns(x, y, MinLen(x, y));
      if Bracketed(x) == Bracketed(y) == Bracketed(z) {
        CaseCompareSteps(x, y, z);
      }
    }
  }

  function Without<T(==)>(s: seq<T>, x: T): (r: seq<T>)
    requires x in s
    ensures multiset(s) == multiset{x} + multiset(r)
    ensures forall y | y in s && y != x :: y in r
  {
    assert s == [s[0]] + s[1..];
    if s[0] == x then s[1..] else [s[0]] + Without(s[1..], x)
  }

  lemma SomeOrderSortsWrong(names: seq<Entry<string>>, p: Entry<string>, a: Entry<string>, b: Entry<string>)
    returns (xs: seq<Entry<string>>)
    requires p in names && a in names && b in names && Clash(p.data, a.data, b.data)
    requires PrefixCompare(a.data, b.data) < 0
    ensures multiset(xs) == multiset(names) && !Ordered(PrefixCompare, AddAll(PrefixCompare, [], xs))
  {
    PrefixSigns(p.data, b.data);
    PrefixSigns(a.data, b.data);
    hide PrefixCompare, AddAll;
    assert a != b && a != p && b != p;
    var w := OtherThan(names, a, p, b);
    ClashStaysWrong(PrefixCompare, a, p, b, w);
    xs := [a, p, b] + w;
  }

  lemma OtherThan<T>(s: seq<T>, a: T, p: T, b: T) returns (w: seq<T>)
    requires a in s && p in s && b in s && a != p && a != b && p != b
    ensures multiset([a, p, b] + w) == multiset(s)
  {
    hide Without;
    var u := Without(s, a);
    var v := Without(u, p);
    w := Without(v, b);
    assert [a, p, b] + w == [a] + ([p] + ([b] + w));
  }

  lemma NoClashSorts(names: seq<Entry<string>>, xs: seq<Entry<string>>)
    requires !HasClash(names) && multiset(xs) == multiset(names)
    ensures Ordered(PrefixCompare, AddAll(PrefixCompare, [], xs))
  {
    hide PrefixCompare, AddAll, TransitiveOn;
    PrefixCompareTurns();
    NoClashIsTransitive(names);
    AmongFewer(PrefixCompare, xs, names);
    assert [] + xs == xs;
    SortedListBox(PrefixCompare, [], xs);
  }

  /** A list box sorted by the prefix comparison is in order as a whole, whatever the order in
      which its names were added, if and only if no three of them clash. */
  lemma EveryOrderSortsIff(names: seq<Entry<string>>)
    ensures (forall xs | multiset(xs) == multiset(names) :: Ordered(PrefixCompare, AddAll(PrefixCompare, [], xs)))
       <==> !HasClash(names)
  {
    hide PrefixCompare, AddAll, Ordered;
    if HasClash(names) {
      var p, a, b :| p in names && a in names && b in names && Clash(p.data, a.data, b.data);
      PrefixSigns(a.data, b.data);
      var xs;
      if PrefixCompare(a.data, b.data) < 0 {
        xs := SomeOrderSortsWrong(names, p, a, b);
      } else {
        xs := SomeOrderSortsWrong(names, p, b, a);
      }
    } else {
      forall xs | multiset(xs) == multiset(names) ensures Ordered(PrefixCompare, AddAll(PrefixCompare, [], xs)) {
        NoClashSorts(names, xs);
      }
    }
  }

  lemma PrefixSigns(a: string, b: string)
    ensures PrefixCompare(a, b) == -PrefixCompare(b, a)
  {
    CaseCompareTurns(a, b, MinLen(a, b));
  }

  /** For instance "a", "ab" and "ac": "a" equals both others. */
  lemma PrefixOrderIsOnlyAdjacent()
    ensures var names := [Plain("ab"), Plain("a"), Plain("ac")];
            && HasClash(names) && !TransitiveOn(PrefixCompare, names)
            && var r := AddAll(PrefixCompare, [], names);
               && r == [Plain("ac"), Plain("a"), Plain("ab")]
               && AdjacentOrdered(PrefixCompare, r) && !Ordered(PrefixCompare, r)
  {
    PrefixValues();
    PrefixSigns("ac", "ab");
    PrefixSigns("a", "ab");
    PrefixSigns("a", "ac");
    hide PrefixCompare, AddAll, TransitiveOn, AdjacentOrdered, Ordered, HasClash;
    ClashLeaves(Plain("ab"), Plain("a"), Plain("ac"));
  }

  lemma ClashLeaves(a: Entry<string>, p: Entry<string>, b: Entry<string>)
    requires Clash(p.data, a.data, b.data)
    requires PrefixCompare(p.data, a.data) == PrefixCompare(b.data, p.data) == 0 < PrefixCompare(b.data, a.data)
    ensures HasClash([a, p, b]) && !TransitiveOn(PrefixCompare, [a, p, b])
    ensures var r := AddAll(PrefixCompare, [], [a, p, b]);
            && r == [b, p, a]
            && AdjacentOrdered(PrefixCompare, r) && !Ordered(PrefixCompare, r)
  {
    hide PrefixCompare, AddAll;
    var names, r := [a, p, b], [b, p, a];
    assert a in names && p in names && b in names;
    ClashSortsWrong(PrefixCompare, a, p, b);
    assert PrefixCompare(r[0].data, r[2].data) > 0;
  }

  lemma PrefixValues()
    ensures PrefixCompare("a", "ab") == 0 && PrefixCompare("ac", "a") == 0
    ensures PrefixCompare("a", "ac") == 0 && PrefixCompare("ac", "ab") == 1
  {
    assert "ab"[1..] == "b" && "ac"[1..] == "c" && "a"[1..] == "";
    assert CaseCompare("c", "b", 1) == 1;
    assert CaseCompare("ac", "ab", 2) == 1;
    assert CaseCompare("a", "ab", 1) == 0 && CaseCompare("ac", "a", 1) == 0 && CaseCompare("a", "ac", 1) == 0;
  }

  /** Names in brackets come last: in a list kept in adjacent order by the prefix comparison,
      nothing but bracketed names follows a bracketed name. */
  lemma {:induction false} BracketedComeLast(s: seq<Entry<string>>, i: nat, j: nat)
    requires AdjacentOrdered(PrefixCompare, s) && i <= j < |s|
    requires Bracketed(s[i].data)
    ensures Bracketed(s[j].data)
    decreases j
  {
    if i < j {
      BracketedComeLast(s, i, j - 1);
      assert PrefixCompare(s[j - 1].data, s[j - 1 + 1].data) <= 0;
    }
  }

  // ---------------------------------------------------------------- deleting from a sorted list

  /** After a deletion the neighbours are in order if and only if the two that have become
      neighbours are. */
  lemma RemoveKeepsAdjacentIff<T>(cmp: Compare<T>, s: seq<Entry<T>>, k: nat)
    requires AdjacentOrdered(cmp, s) && k < |s|
    ensures AdjacentOrdered(cmp, RemoveAt(s, k)) <==> k == 0 || k == |s| - 1 || cmp(s[k - 1].data, s[k + 1].data) <= 0
  {
    var r := RemoveAt(s, k);
    if 0 < k < |s| - 1 {
      assert r[k - 1] == s[k - 1] && r[k - 1 + 1] == s[k + 1];
    }
    if k == 0 || k == |s| - 1 || cmp(s[k - 1].data, s[k + 1].data) <= 0 {
      forall i | 0 <= i < |r| - 1 ensures cmp(r[i].data, r[i + 1].data) <= 0 {
        if i < k - 1 {
          assert r[i] == s[i] && r[i + 1] == s[i + 1];
        } else if i >= k {
          assert r[i] == s[i + 1] && r[i + 1] == s[i + 1 + 1];
        }
      }
    }
  }

  /** A list in order as a whole stays so. */
  lemma RemoveKeepsOrdered<T>(cmp: Compare<T>, s: seq<Entry<T>>, k: nat)
    requires Ordered(cmp, s) && k < |s|
    ensures Ordered(cmp, RemoveAt(s, k))
  {
    var r := RemoveAt(s, k);
    forall i, j | 0 <= i < j < |r| ensures cmp(r[i].data, r[j].data) <= 0 {
      assert r[i] == s[if i < k then i else i + 1] && r[j] == s[if j < k then j else j + 1];
    }
  }

  /** "a" taken out from between "ac" and "ab", where it was added. */
  lemma RemovedBetween()
    ensures var s := AddAll(PrefixCompare, [], [Plain("ab"), Plain("a"), Plain("ac")]);
            AdjacentOrdered(PrefixCompare, s) && !AdjacentOrdered(PrefixCompare, RemoveAt(s, 1))
  {
    PrefixOrderIsOnlyAdjacent();
    PrefixValues();
    hide PrefixCompare, AddAll, AdjacentOrdered, Ordered, HasClash, TransitiveOn, RemoveAt;
    MiddleRemoved(PrefixCompare, Plain("ac"), Plain("a"), Plain("ab"));
  }

  lemma MiddleRemoved<T>(cmp: Compare<T>, a: Entry<T>, p: Entry<T>, b: Entry<T>)
    requires AdjacentOrdered(cmp, [a, p, b]) && cmp(a.data, b.data) > 0
    ensures !AdjacentOrdered(cmp, RemoveAt([a, p, b], 1))
  {
    RemoveKeepsAdjacentIff(cmp, [a, p, b], 1);
  }

  // ---------------------------------------------------------------- searching

  /** An item that LBoxFindItem would return. */
  predicate Found<T>(matches: T -> bool, e: Entry<T>) { !e.separator && matches(e.data) }

  /** How many items a search that starts behind index start passes before it comes to index i. */
  function Distance(n: nat, start: Word, i: nat): nat
    requires i < n
  {
    if start >= n then i else if i > start then i - start - 1 else n - start - 1 + i
  }

  /** The answer of LBoxFindItem: the first item found in cyclic order behind start, or LB_ERR
      exactly when no item can be found. */
  ghost predicate IsCyclicFind<T>(s: seq<Entry<T>>, matches: T -> bool, start: Word, r: int) {
    if r == LB_ERR then forall i | 0 <= i < |s| :: !Found(matches, s[i])
    else
      && 0 <= r < |s|
      && Found(matches, s[r])
      && forall i | 0 <= i < |s| && Distance(|s|, start, i) < Distance(|s|, start, r) :: !Found(matches, s[i])
  }

  /** The first item found among indices lo to hi - 1, or LB_ERR. */
  ghost predicate FirstFound<T>(s: seq<Entry<T>>, matches: T -> bool, lo: nat, hi: nat, r: int)
    requires lo <= hi <= |s|
  {
    if r == LB_ERR then forall i | lo <= i < hi :: !Found(matches, s[i])
    else lo <= r < hi && Found(matches, s[r]) && forall i | lo <= i < r :: !Found(matches, s[i])
  }

  /** Such an answer is an item that matches and is no separator, or there is none. */
  lemma FindMeans<T>(s: seq<Entry<T>>, matches: T -> bool, start: Word, r: int)
    requires IsCyclicFind(s, matches, start, r)
    ensures if r == LB_ERR then forall i | 0 <= i < |s| :: s[i].separator || !matches(s[i].data)
            else 0 <= r < |s| && !s[r].separator && matches(s[r].data)
  {
  }

  /** Searching behind start first and then from the head is searching in cyclic order. */
  lemma TwoPartFind<T>(s: seq<Entry<T>>, matches: T -> bool, start: Word, cut: nat, behind: int, before: int)
    requires cut == (if start < |s| then start + 1 else 0) || (start == NONE && cut == 0)
    requires |s| <= NONE && cut <= |s|
    requires FirstFound(s, matches, cut, |s|, behind) || (start >= |s| && behind == LB_ERR)
    requires if behind == LB_ERR then FirstFound(s, matches, 0, if cut == 0 then |s| else cut, before)
             else before == LB_ERR
    ensures IsCyclicFind(s, matches, start, if behind == LB_ERR then before else behind)
  {
  }

  /** There is only one such answer. */
  lemma CyclicFindIsUnique<T>(s: seq<Entry<T>>, matches: T -> bool, start: Word, r: int, q: int)
    requires IsCyclicFind(s, matches, start, r) && IsCyclicFind(s, matches, start, q)
    ensures r == q
  {
    assert r != LB_ERR && q != LB_ERR && Distance(|s|, start, r) == Distance(|s|, start, q) ==> r == q;
  }

  // ---------------------------------------------------------------- positions and selection

  /** LBoxAddItem carries the addition through; otherwise it gives up half-way. */
  predicate Accepts(n: nat, func: AddFunc, pos: Word) {
    n == 0 || func.Append? || (func.Insert? && (pos == NONE || pos <= n))
  }

  /** Index of an added item. */
  function PlaceOf<T>(cmp: Compare<T>, sorted: bool, s: seq<Entry<T>>, func: AddFunc, pos: Word, x: T): (k: nat)
    requires Accepts(|s|, func, pos)
    ensures k <= |s|
  {
    if |s| == 0 then 0
    else if func.Insert? then (if pos == NONE then |s| else pos)
    else if sorted then SortedPos(cmp, s, x, 0)
    else |s|
  }

  /** Where that is: at the position asked for, at the end, or where sorted adding puts it. */
  lemma PlaceMeans<T>(cmp: Compare<T>, sorted: bool, s: seq<Entry<T>>, func: AddFunc, pos: Word, e: Entry<T>)
    requires Accepts(|s|, func, pos) && s != []
    ensures var k := PlaceOf(cmp, sorted, s, func, pos, e.data);
            && (func.Insert? ==> k == if pos == NONE then |s| else pos)
            && (func.Append? && !sorted ==> InsertAt(s, k, e) == s + [e])
            && (func.Append? && sorted ==> InsertAt(s, k, e) == SortedAdd(cmp, s, e))
  {
    AppendIsInsertAt(s, e);
  }

  function Bump(w: Word): Word { if w == NONE then 0 else w + 1 }

  /** The selection index after an addition at index k to a list of n items. */
  function SelectionAfter(n: nat, func: AddFunc, sorted: bool, k: nat, sel: Word): Word {
    if n == 0 then sel
    else if func.Insert? then (if 0 < k < n && k <= sel then Bump(sel) else sel)
    else if sorted && sel != NONE && k <= sel then Bump(sel)
    else sel
  }

  /** The selected item is still the selected one, and no item is selected if none was. */
  predicate Follows(k: nat, sel: Word, after: Word) {
    after == if sel == NONE then NONE else if k <= sel then Bump(sel) else sel
  }

  /** The selection follows its item, except in two cases: an insertion at the head of a list
      with a selection, and one between two items of a list without. */
  lemma SelectionFollowsIff(n: nat, func: AddFunc, sorted: bool, k: nat, sel: Word)
    requires k <= n && (sel == NONE || sel < n) && n < NONE
    requires func.OtherFunc? ==> n == 0
    requires func.Append? && !sorted ==> k == n
    ensures Follows(k, sel, SelectionAfter(n, func, sorted, k, sel)) <==>
            !(func.Insert? && n > 0 && ((k == 0 && sel != NONE) || (0 < k < n && sel == NONE)))
  {
  }

  /** Inserting at the head moves the selection to the new item, and inserting between two items
      when none is selected selects the first. */
  lemma SelectionStrays()
    ensures SelectionAfter(1, Insert, false, 0, 0) == 0 && !Follows(0, 0, 0)
    ensures SelectionAfter(2, Insert, false, 1, NONE) == 0 && !Follows(1, NONE, 0)
  {
  }
}
