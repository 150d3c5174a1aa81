/**
 Distributing justification space over the break characters of a line
 (graphics/GdiDCAttr.c): SetTextJustification's array and TextJustifyBresenham.
 */
module Justify {
  import opened Arithmetic

  function Sum(s: seq<int>): int {
    if s == [] then 0 else s[0] + Sum(s[1..])
  }

  lemma {:induction false} SumUpdate(s: seq<int>, i: nat, v: int)
    requires i < |s|
    ensures Sum(s[i := v]) == Sum(s) - s[i] + v
  {
    if i == 0 {
      assert s[i := v][1..] == s[1..];
    } else {
      assert s[i := v][1..] == s[1..][i - 1 := v];
      SumUpdate(s[1..], i - 1, v);
    }
  }

  lemma {:induction false} SumConstant(s: seq<int>, c: int)
    requires forall i | 0 <= i < |s| :: s[i] == c
    ensures Sum(s) == |s| * c
  {
    if s != [] {
      SumConstant(s[1..], c);
      assert |s| * c == (|s| - 1) * c + c;
    }
  }

  /** What the first loop leaves to hand out. */
  function Rest(extra: int, count: int): int
    requires count > 0
  {
    if extra >= count then extra % count else extra
  }

  /** k is one of the first j places of a walk in steps of stride. */
  predicate Struck(k: int, stride: int, j: int)
    requires stride > 0
  {
    k % stride == 0 && k / stride < j
  }

  /** Break k gets one unit of the rest: every stride-th break does, as long as it lasts. */
  predicate Favoured(extra: int, count: int, k: int)
    requires count > 0 && 0 < Rest(extra, count) < count
  {
    StridesInside(count, Rest(extra, count), 0);
    Struck(k, count / Rest(extra, count), Rest(extra, count))
  }

  /** What break k of count gets out of extra units. */
  function Share(extra: int, count: int, k: int): int
    requires count > 0
  {
    (if extra >= count then extra / count else 0) +
    (if 0 < Rest(extra, count) < count && Favoured(extra, count, k) then 1 else 0)
  }

  /** The strided positions of the second loop all lie in the array. */
  lemma StridesInside(count: int, rest: int, j: int)
    requires 0 <= j < rest < count
    ensures count / rest > 0
    ensures 0 <= j * (count / rest) < count
    ensures j * (count / rest) + count / rest <= count
    ensures (j * (count / rest)) % (count / rest) == 0 && (j * (count / rest)) / (count / rest) == j
  {
    var s := count / rest;
    assert count == rest * s + count % rest;
    MulMono(rest, s, 0);
    MulMono(s, j + 1, rest);
    assert (j + 1) * s == j * s + s && rest * s == s * rest;
    MulMono(s, 0, j);
    DivIs(j * s, s, j, 0);
  }

  method TextJustifyBresenham(nBreakExtra: int, nBreakCount: int, lpExtraSpace: array<int>)
    requires nBreakCount > 0 && lpExtraSpace.Length == nBreakCount
    requires forall k | 0 <= k < nBreakCount :: lpExtraSpace[k] == 0
    modifies lpExtraSpace
    ensures forall k | 0 <= k < nBreakCount :: lpExtraSpace[k] == Share(nBreakExtra, nBreakCount, k)
    ensures Sum(lpExtraSpace[..]) == if nBreakExtra >= 0 then nBreakExtra else 0
  {
    var remaining := nBreakExtra;
    var step := TruncDiv(nBreakExtra, nBreakCount);
    if nBreakExtra >= nBreakCount {
      remaining := GiveAll(step, remaining, lpExtraSpace);
      assert nBreakExtra == nBreakCount * step + nBreakExtra % nBreakCount;
    }
    assert remaining == Rest(nBreakExtra, nBreakCount);
    ghost var base := if nBreakExtra >= nBreakCount then step else 0;
    SumConstant(lpExtraSpace[..], base);
    if remaining > 0 {
      SpreadRest(remaining, lpExtraSpace, base);
    }
  }

  /** The first loop of TextJustifyBresenham. */
  method GiveAll(step: int, extra: int, lpExtraSpace: array<int>) returns (remaining: int)
    modifies lpExtraSpace
    ensures forall k | 0 <= k < lpExtraSpace.Length :: lpExtraSpace[k] == step
    ensures remaining == extra - lpExtraSpace.Length * step
  {
    remaining := extra;
    for i := 0 to lpExtraSpace.Length
      invariant forall k | 0 <= k < i :: lpExtraSpace[k] == step
      invariant remaining == extra - i * step
    {
      lpExtraSpace[i] := step;
      remaining := remaining - step;
      assert (i + 1) * step == i * step + step;
    }
  }

  /** The second loop of TextJustifyBresenham: one more unit at every stride-th place.  The
      loop always ends at its break, never at the end of the array. */
  method SpreadRest(remaining: int, lpExtraSpace: array<int>, ghost base: int)
    requires 0 < remaining < lpExtraSpace.Length
    requires forall k | 0 <= k < lpExtraSpace.Length :: lpExtraSpace[k] == base
    modifies lpExtraSpace
    ensures Sum(lpExtraSpace[..]) == old(Sum(lpExtraSpace[..])) + remaining
    ensures var stride := lpExtraSpace.Length / remaining;
            && stride > 0
            && forall k | 0 <= k < lpExtraSpace.Length ::
              lpExtraSpace[k] == base + if Struck(k, stride, remaining) then 1 else 0
  {
    hide Struck;
    var count := lpExtraSpace.Length;
    var rest, i := remaining, 0;
    var stride := count / remaining;
    ghost var j := 0;
    StridesInside(count, remaining, 0);
    NoneStruck(count, stride);
    while i < count
      invariant 0 <= j < remaining && rest == remaining - j && i == j * stride < count
      invariant Sum(lpExtraSpace[..]) == old(Sum(lpExtraSpace[..])) + j
      invariant forall k | 0 <= k < count ::
          lpExtraSpace[k] == base + if Struck(k, stride, j) then 1 else 0
      decreases rest
    {
      ghost var was := lpExtraSpace[..];
      SumUpdate(was, i, was[i] + 1);
      OneMore(count, stride, j);
      lpExtraSpace[i] := lpExtraSpace[i] + 1;
      assert lpExtraSpace[..] == was[i := was[i] + 1];
      assert (j + 1) * stride == i + stride;
      rest, j := rest - 1, j + 1;
      if rest == 0 {
        break;
      }
      StridesInside(count, remaining, j);
      i := i + stride;
    }
  }

  /** Every break gets extra/count units or one more, so no two differ by more than one. */
  lemma SharesAreEven(extra: int, count: int, k: int)
    requires count > 0 && extra >= 0
    ensures extra / count <= Share(extra, count, k) <= extra / count + 1
    ensures extra % count == 0 ==> Share(extra, count, k) == extra / count
  {
    if extra < count {
      DivIs(extra, count, 0, extra);
    }
  }

  /** The breaks that get one unit more are count / rest apart at least, and the first is one. */
  lemma SharesAreSpread(extra: int, count: int, i: int, j: int)
    requires count > 0 && extra % count > 0 && extra >= 0 && 0 <= i < j < count
    ensures Share(extra, count, 0) == extra / count + 1
    ensures Share(extra, count, i) == Share(extra, count, j) == extra / count + 1 ==>
              j - i >= count / (extra % count)
  {
    if extra < count {
      DivIs(extra, count, 0, extra);
    }
    var rest := extra % count;
    var s := count / rest;
    StridesInside(count, rest, 0);
    DivIs(0, s, 0, 0);
    if i % s == 0 && j % s == 0 {
      DivFacts(i, s);
      DivFacts(j, s);
      Multiples(s, i / s, j / s);
    }
  }

  lemma Multiples(s: int, a: int, b: int)
    requires s > 0
    ensures a * s < b * s ==> b * s - a * s >= s
  {
    MulMono(s, b, a);
    MulMono(s, a + 1, b);
    assert (a + 1) * s == a * s + s;
  }

  /** SetTextJustification's array: none without breaks, otherwise a zeroed one filled in.  What
      it holds adds up to the extra space if and only if that is not negative. */
  method SetTextJust(nBreakExtra: int, nBreakCount: int) returns (lpExtraSpace: array?<int>)
    ensures lpExtraSpace == null <==> nBreakCount <= 0
    ensures lpExtraSpace != null ==>
              && fresh(lpExtraSpace) && lpExtraSpace.Length == nBreakCount
              && (forall k | 0 <= k < nBreakCount :: lpExtraSpace[k] == Share(nBreakExtra, nBreakCount, k))
              && (Sum(lpExtraSpace[..]) == nBreakExtra <==> nBreakExtra >= 0)
  {
    lpExtraSpace := null;
    if nBreakCount > 0 {
      var zeroed := new int[nBreakCount](_ => 0);
      TextJustifyBresenham(nBreakExtra, nBreakCount, zeroed);
      lpExtraSpace := zeroed;
    }
  }

  /** Minus 5 units over 2 breaks: both get nothing. */
  method NegativeSpaceIsLost() returns (lpExtraSpace: array?<int>)
    ensures lpExtraSpace != null && lpExtraSpace[..] == [0, 0] && Sum(lpExtraSpace[..]) != -5
  {
    lpExtraSpace := SetTextJust(-5, 2);
    assert Share(-5, 2, 0) == Share(-5, 2, 1) == 0;
  }

  /** Position j * stride is the only one that joins when j grows by one. */
  lemma OneMore(count: int, stride: int, j: int)
    requires stride > 0 && j >= 0
    ensures forall k | 0 <= k < count :: Struck(k, stride, j + 1) <==> Struck(k, stride, j) || k == j * stride
    ensures !Struck(j * stride, stride, j)
  {
    DivIs(j * stride, stride, j, 0);
    forall k | 0 <= k < count ensures Struck(k, stride, j + 1) <==> Struck(k, stride, j) || k == j * stride {
      var q, r := k / stride, k % stride;
      assert k == q * stride + r;
      if q == j && r == 0 {
        assert k == j * stride;
      }
    }
  }

  lemma NoneStruck(count: int, stride: int)
    requires stride > 0
    ensures forall k | 0 <= k < count :: !Struck(k, stride, 0)
  {
    forall k | 0 <= k < count ensures !Struck(k, stride, 0) {
      var q := k / stride;
      assert k == q * stride + k % stride;
      MulMono(stride, q, -1);
    }
  }
}
