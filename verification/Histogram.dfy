/** The self-rescaling histogram of timerTest with a linear scale (q = 1), over exact real numbers. */
module Histogram {

  datatype Bin = Bin(count: nat, total: real)

  function Ceil(x: real): int {
    -((-x).Floor)
  }

  function SumCount(s: seq<Bin>): nat {
    if s == [] then 0 else SumCount(s[..|s| - 1]) + s[|s| - 1].count
  }

  function SumTotal(s: seq<Bin>): real {
    if s == [] then 0.0 else SumTotal(s[..|s| - 1]) + s[|s| - 1].total
  }

  function Mean(b: Bin): real
    requires b.count > 0
  {
    b.total / b.count as real
  }

  function Plus(b: Bin, count: nat, total: real): Bin {
    Bin(b.count + count, b.total + total)
  }

  lemma {:induction false} SumsAfterPlus(s: seq<Bin>, k: nat, count: nat, total: real)
    requires k < |s|
    ensures SumCount(s[k := Plus(s[k], count, total)]) == SumCount(s) + count
    ensures SumTotal(s[k := Plus(s[k], count, total)]) == SumTotal(s) + total
    decreases |s|
  {
    var n := |s|;
    var after := s[k := Plus(s[k], count, total)];
    if k < n - 1 {
      SumsAfterPlus(s[..n - 1], k, count, total);
      assert after[..n - 1] == s[..n - 1][k := Plus(s[k], count, total)];
    } else {
      assert after[..n - 1] == s[..n - 1];
    }
  }

  lemma {:induction false} SumsOfEmpty(s: seq<Bin>)
    requires forall i | 0 <= i < |s| :: s[i] == Bin(0, 0.0)
    ensures SumCount(s) == 0 && SumTotal(s) == 0.0
  {
    if s != [] {
      SumsOfEmpty(s[..|s| - 1]);
    }
  }

  // ----- which bin a value belongs to

  /** Bin i of n+1 holds what lies above the fraction (i-1)/n and at or below i/n of the range [lo, lo+r]; stated for
      the sum over count values, so that it says where their mean lies. */
  ghost predicate Placed(lo: real, r: real, n: nat, i: nat, b: Bin) {
    if b.count == 0 then b.total == 0.0
    else
      var c := b.count as real;
      b.total >= lo * c && (i as real - 1.0) * r * c < n as real * (b.total - lo * c) <= i as real * r * c
  }

  lemma PlacedPlus(lo: real, r: real, n: nat, i: nat, a: Bin, b: Bin)
    requires Placed(lo, r, n, i, a) && Placed(lo, r, n, i, b)
    ensures Placed(lo, r, n, i, Plus(a, b.count, b.total))
  {
    var (x, y) := (a.count as real, b.count as real);
    Distribute((i as real - 1.0) * r, x, y);
    Distribute(i as real * r, x, y);
    Distribute(lo, x, y);
    Distribute(n as real, a.total - lo * x, b.total - lo * y);
  }

  lemma Distribute(k: real, x: real, y: real)
    ensures k * (x + y) == k * x + k * y
  {
  }

  function Ratio(a: real, r: real): real
    requires r > 0.0
  {
    a / r
  }

  /** The product, under a name so that proofs can treat it as a unit. */
  function Times(a: real, b: real): real {
    a * b
  }

  /** The index that the code computes for a value x of the range [lo, lo+r]. */
  function Index(lo: real, r: real, n: nat, x: real): int
    requires r > 0.0
  {
    Ceil(Times(n as real, Ratio(x - lo, r)))
  }

  lemma IndexIsCeiling(lo: real, r: real, n: nat, x: real)
    requires r > 0.0 && lo <= x <= lo + r && n > 0
    ensures var i := Index(lo, r, n, x);
      0 <= i <= n && (i as real - 1.0) * r < n as real * (x - lo) <= i as real * r
  {
    hide Times, Ratio, Ceil;
    RatioIsFraction(x - lo, r);
    CeilingOfScaled(n, Ratio(x - lo, r), r, x - lo);
  }

  /** The rescaling loop computes the index with the scale worked out beforehand. */
  lemma IndexByScale(lo: real, r: real, n: nat, x: real)
    requires r > 0.0
    ensures Index(lo, r, n, x) == Ceil(Times(Ratio(n as real, r), x - lo))
  {
    hide Ceil, Times, Ratio;
    Quotients(n as real, x - lo, r);
  }

  lemma CeilingOfScaled(n: nat, y: real, r: real, a: real)
    requires n > 0 && r > 0.0 && 0.0 <= y <= 1.0 && y * r == a
    ensures var i := Ceil(Times(n as real, y)); 0 <= i <= n && (i as real - 1.0) * r < n as real * a <= i as real * r
  {
    hide Times, Ceil;
    var z := Times(n as real, y);
    MulLe(n as real, y);
    CeilBounds(z, n);
    ScaleLess(Ceil(z) as real - 1.0, z, r);
    ScaleAtMost(z, Ceil(z) as real, r);
    ProductScales(n as real, y, r, a);
  }

  lemma ProductScales(m: real, y: real, r: real, a: real)
    requires y * r == a
    ensures Times(m, y) * r == m * a
  {
    Associate(m, y, r);
    SameFactor(m, y * r, a);
  }

  lemma SameFactor(k: real, u: real, v: real)
    requires u == v
    ensures k * u == k * v
  {
  }

  lemma CeilBounds(z: real, n: nat)
    requires 0.0 <= z <= n as real
    ensures 0 <= Ceil(z) <= n && Ceil(z) as real - 1.0 < z <= Ceil(z) as real
  {
  }

  lemma RatioIsFraction(a: real, r: real)
    requires r > 0.0
    ensures Ratio(a, r) * r == a
    ensures 0.0 <= a <= r ==> 0.0 <= Ratio(a, r) <= 1.0
  {
  }

  lemma Quotients(m: real, a: real, r: real)
    requires r > 0.0
    ensures Times(Ratio(m, r), a) == Times(m, Ratio(a, r))
  {
    var u, v := Ratio(m, r), Ratio(a, r);
    assert u * r == m && v * r == a;
    assert u * (v * r) == (u * r) * v;
  }

  lemma Associate(a: real, b: real, c: real)
    ensures a * b * c == a * (b * c)
  {
  }

  lemma MulLe(m: real, y: real)
    requires m > 0.0 && 0.0 <= y <= 1.0
    ensures 0.0 <= Times(m, y) <= m
  {
  }

  lemma ScaleLess(a: real, b: real, r: real)
    requires a < b && r > 0.0
    ensures a * r < b * r
  {
  }

  lemma ScaleAtMost(a: real, b: real, r: real)
    requires a <= b && r > 0.0
    ensures a * r <= b * r
  {
  }

  /** What belongs where its mean belongs is placed. */
  lemma PlacedByMean(lo: real, r: real, n: nat, i: nat, x: real, b: Bin)
    requires b.count > 0 && b.total == x * b.count as real && x >= lo
    requires (i as real - 1.0) * r < n as real * (x - lo) <= i as real * r
    ensures Placed(lo, r, n, i, b)
  {
    var c := b.count as real;
    ScaleLess((i as real - 1.0) * r, n as real * (x - lo), c);
    ScaleAtMost(n as real * (x - lo), i as real * r, c);
    ScaleAtMost(lo, x, c);
    assert n as real * (x - lo) * c == n as real * (b.total - lo * c) by {
      Associate(n as real, x - lo, c);
      assert (x - lo) * c == x * c - lo * c;
    }
  }

  /** The mean of a placed bin lies in the bin's own stretch of the range. */
  lemma MeanOfPlaced(lo: real, r: real, n: nat, i: nat, b: Bin)
    requires b.count > 0 && Placed(lo, r, n, i, b) && r > 0.0 && n > 0 && i <= n
    ensures b.total == Mean(b) * b.count as real
    ensures lo <= Mean(b) <= lo + r
    ensures (i as real - 1.0) * r < n as real * (Mean(b) - lo) <= i as real * r
  {
    var c, x := b.count as real, Mean(b);
    MeanTimes(b);
    Unscale(lo, x, c);
    assert n as real * (b.total - lo * c) == n as real * (x - lo) * c by {
      Associate(n as real, x - lo, c);
      assert (x - lo) * c == x * c - lo * c;
    }
    UnscaleLess((i as real - 1.0) * r, n as real * (x - lo), c);
    Unscale(n as real * (x - lo), i as real * r, c);
    ScaleAtMost(i as real, n as real, r);
    WithinRange(n as real, x - lo, r);
  }

  lemma WithinRange(k: real, a: real, r: real)
    requires k > 0.0 && k * a <= k * r
    ensures a <= r
  {
    Commute(k, a);
    Commute(k, r);
    Unscale(a, r, k);
  }

  lemma Unscale(a: real, b: real, k: real)
    requires k > 0.0 && a * k <= b * k
    ensures a <= b
  {
    if a > b { ScaleLess(b, a, k); }
  }

  lemma UnscaleLess(a: real, b: real, k: real)
    requires k > 0.0 && a * k < b * k
    ensures a < b
  {
    if a >= b { ScaleAtMost(b, a, k); }
  }

  // ----- where everything goes

  /** x lies in the stretch of bin j: above the fraction (j-1)/n and at or below j/n of the range [lo, lo+r]. */
  ghost predicate InStretch(lo: real, r: real, n: nat, j: nat, x: real) {
    (j as real - 1.0) * r < n as real * (x - lo) <= j as real * r
  }

  lemma OneStretch(lo: real, r: real, n: nat, i: nat, j: nat, x: real)
    requires r > 0.0 && InStretch(lo, r, n, i, x) && InStretch(lo, r, n, j, x)
    ensures i == j
  {
    if i < j {
      ScaleAtMost(i as real, j as real - 1.0, r);
    } else if j < i {
      ScaleAtMost(j as real, i as real - 1.0, r);
    }
  }

  /** What those of the first k bins hold whose means lie in the stretch of bin j. */
  ghost function Gathered(s: seq<Bin>, k: nat, lo: real, r: real, n: nat, j: nat): Bin
    requires k <= |s|
  {
    if k == 0 then Bin(0, 0.0)
    else
      var before := Gathered(s, k - 1, lo, r, n, j);
      if s[k - 1].count > 0 && InStretch(lo, r, n, j, s[k - 1].total / s[k - 1].count as real) then
        Bin(before.count + s[k - 1].count, before.total + s[k - 1].total)
      else before
  }

  /** after is before with count values x added, all of them to the bin in whose stretch x lies. */
  ghost predicate AddsTo(before: seq<Bin>, after: seq<Bin>, lo: real, r: real, x: real, count: nat, total: real) {
    |after| == |before| && forall j: nat | j < |before| ::
      after[j] == if InStretch(lo, r, |before| - 1, j, x) then Bin(before[j].count + count, before[j].total + total)
                  else before[j]
  }

  /** after holds the old bins, each where its mean lies in the range [lo, lo+r], and the count values x. */
  ghost predicate MovedAndAdded(s: seq<Bin>, after: seq<Bin>, lo: real, r: real, x: real, count: nat, total: real) {
    exists moved: seq<Bin> ::
      && |moved| == |s|
      && (forall j: nat | j < |s| :: moved[j] == Gathered(s, |s|, lo, r, |s| - 1, j))
      && AddsTo(moved, after, lo, r, x, count, total)
  }

  lemma AddedAt(before: seq<Bin>, lo: real, r: real, x: real, count: nat, total: real, index: nat)
    requires r > 0.0 && index < |before| && InStretch(lo, r, |before| - 1, index, x)
    ensures AddsTo(before, before[index := Plus(before[index], count, total)], lo, r, x, count, total)
  {
    hide InStretch;
    var n := |before| - 1;
    forall j: nat | j < |before| && InStretch(lo, r, n, j, x) ensures j == index {
      OneStretch(lo, r, n, j, index, x);
    }
  }

  // ----- the histogram

  /** Every bin holds what belongs to it; while the range is a single point, that point is all there is. */
  ghost predicate AllPlaced(s: seq<Bin>, lo: real, hi: real) {
    && |s| >= 2 && lo <= hi
    && forall i | 0 <= i < |s| ::
         if lo < hi then Placed(lo, hi - lo, |s| - 1, i, s[i])
         else if i == 0 then s[i].total == lo * s[i].count as real else s[i] == Bin(0, 0.0)
  }

  /** A nonempty bin's mean lies in the range of the histogram, and in the bin's own stretch of it. */
  lemma MeanInRange(s: seq<Bin>, lo: real, hi: real, i: nat)
    requires AllPlaced(s, lo, hi) && i < |s| && s[i].count > 0
    ensures lo <= Mean(s[i]) <= hi && s[i].total == Mean(s[i]) * s[i].count as real
    ensures (i as real - 1.0) * (hi - lo) < (|s| - 1) as real * (Mean(s[i]) - lo) <= i as real * (hi - lo) || lo == hi
  {
    if lo < hi {
      MeanOfPlaced(lo, hi - lo, |s| - 1, i, s[i]);
    } else {
      DivideBack(lo, s[i].count);
    }
  }

  lemma DivideBack(x: real, c: nat)
    requires c > 0
    ensures x * c as real / c as real == x
  {
  }

  /** Means are in the order of their bins. */
  lemma MeansIncrease(s: seq<Bin>, lo: real, hi: real, i: nat, j: nat)
    requires AllPlaced(s, lo, hi) && i < j < |s| && s[i].count > 0 && s[j].count > 0
    ensures Mean(s[i]) < Mean(s[j])
  {
    assert lo < hi;
    MeanInRange(s, lo, hi, i);
    MeanInRange(s, lo, hi, j);
    OrderOfStretches(|s| - 1, hi - lo, i, j, Mean(s[i]) - lo, Mean(s[j]) - lo);
  }

  lemma OrderOfStretches(n: nat, r: real, i: nat, j: nat, a: real, b: real)
    requires n > 0 && r > 0.0 && i < j
    requires n as real * a <= i as real * r && (j as real - 1.0) * r < n as real * b
    ensures a < b
  {
    ScaleAtMost(i as real, j as real - 1.0, r);
    assert a * n as real < b * n as real;
    UnscaleLess(a, b, n as real);
  }

  /** How many values lie in bins whose mean is from rangeMin to rangeMax. */
  function InRange(s: seq<Bin>, rangeMin: real, rangeMax: real): nat {
    if s == [] then 0
    else InRange(s[..|s| - 1], rangeMin, rangeMax) + Within(s[|s| - 1], rangeMin, rangeMax)
  }

  function Within(b: Bin, rangeMin: real, rangeMax: real): nat {
    if b.count > 0 && rangeMin <= Mean(b) <= rangeMax then b.count else 0
  }

  /** The bins whose mean is from rangeMin to rangeMax, told without dividing; the others emptied. */
  ghost function OnlyWithin(s: seq<Bin>, rangeMin: real, rangeMax: real): seq<Bin> {
    seq(|s|, i requires 0 <= i < |s| => if IsWithin(s[i], rangeMin, rangeMax) then s[i] else Bin(0, 0.0))
  }

  ghost predicate IsWithin(b: Bin, rangeMin: real, rangeMax: real) {
    rangeMin * b.count as real <= b.total <= rangeMax * b.count as real
  }

  /** The count in range is the whole count of those bins. */
  lemma {:induction false} InRangeIsCount(s: seq<Bin>, rangeMin: real, rangeMax: real)
    ensures InRange(s, rangeMin, rangeMax) == SumCount(OnlyWithin(s, rangeMin, rangeMax))
  {
    if s != [] {
      var n := |s| - 1;
      InRangeIsCount(s[..n], rangeMin, rangeMax);
      WithinIs(s[n], rangeMin, rangeMax);
      hide Within, IsWithin;
      assert OnlyWithin(s, rangeMin, rangeMax)[..n] == OnlyWithin(s[..n], rangeMin, rangeMax);
    }
  }

  lemma WithinIs(b: Bin, rangeMin: real, rangeMax: real)
    ensures Within(b, rangeMin, rangeMax) == if IsWithin(b, rangeMin, rangeMax) then b.count else 0
  {
    if b.count > 0 {
      var c := b.count as real;
      MeanTimes(b);
      CompareProducts(rangeMin, Mean(b), c);
      CompareProducts(Mean(b), rangeMax, c);
    }
  }

  lemma MeanTimes(b: Bin)
    requires b.count > 0
    ensures Mean(b) * b.count as real == b.total
  {
  }

  lemma CompareProducts(a: real, b: real, c: real)
    requires c > 0.0
    ensures a <= b <==> a * c <= b * c
  {
    if a <= b { ScaleAtMost(a, b, c); } else { ScaleLess(b, a, c); }
  }

  lemma {:induction false} NothingBeyond(s: seq<Bin>, k: nat, rangeMin: real, rangeMax: real)
    requires k <= |s| && forall i | k <= i < |s| && s[i].count > 0 :: Mean(s[i]) > rangeMax
    ensures InRange(s, rangeMin, rangeMax) == InRange(s[..k], rangeMin, rangeMax)
    decreases |s|
  {
    if k < |s| {
      NothingBeyond(s[..|s| - 1], k, rangeMin, rangeMax);
      assert s[..|s| - 1][..k] == s[..k];
    } else {
      assert s[..k] == s;
    }
  }

  class Histogram {
    const numBins: nat
    var bin: array?<Bin>
    var minVal: real
    var maxVal: real

    ghost function Bins(): seq<Bin>
      reads this, bin
    {
      if bin == null then [] else bin[..]
    }

    ghost predicate Valid()
      reads this, bin
    {
      && numBins >= 2
      && (bin != null ==> bin.Length == numBins && AllPlaced(bin[..], minVal, maxVal))
    }

    constructor (numBins: nat)
      requires numBins >= 2
      ensures Valid() && Bins() == [] && this.numBins == numBins
    {
      this.numBins := numBins;
      bin, minVal, maxVal := null, 0.0, 0.0;
    }

    method EmptyBins() returns (a: array<Bin>)
      ensures fresh(a) && a.Length == numBins && forall i | 0 <= i < numBins :: a[i] == Bin(0, 0.0)
    {
      a := new Bin[numBins](_ => Bin(0, 0.0));
    }

    /** Adds the contents of one old bin to the new bin where its mean belongs. */
    method MoveBin(newBin: array<Bin>, old_: Bin, lo: real, r: real, newScale: real)
      requires numBins >= 2 && r > 0.0 && newBin.Length == numBins && old_.count > 0
      requires lo <= Mean(old_) <= lo + r && old_.total == Mean(old_) * old_.count as real
      requires newScale == Ratio((numBins - 1) as real, r)
      requires forall j | 0 <= j < numBins :: Placed(lo, r, numBins - 1, j, newBin[j])
      modifies newBin
      ensures forall j | 0 <= j < numBins :: Placed(lo, r, numBins - 1, j, newBin[j])
      ensures SumCount(newBin[..]) == SumCount(old(newBin[..])) + old_.count
      ensures SumTotal(newBin[..]) == SumTotal(old(newBin[..])) + old_.total
      ensures AddsTo(old(newBin[..]), newBin[..], lo, r, Mean(old_), old_.count, old_.total)
    {
      hide Ceil, Times, Ratio, Placed, Mean, SumCount, SumTotal;
      var x := Mean(old_);
      var index := Ceil(Times(newScale, x - lo));
      IndexByScale(lo, r, numBins - 1, x);
      IndexIsCeiling(lo, r, numBins - 1, x);
      if index > numBins - 1 {
        assert false;
      }
      PlacedByMean(lo, r, numBins - 1, index, x, old_);
      PlacedPlus(lo, r, numBins - 1, index, newBin[index], old_);
      SumsAfterPlus(newBin[..], index, old_.count, old_.total);
      newBin[index] := Plus(newBin[index], old_.count, old_.total);
      assert newBin[..] == old(newBin[..])[index := Plus(old(newBin[index]), old_.count, old_.total)];
      AddedAt(old(newBin[..]), lo, r, x, old_.count, old_.total, index);
    }

    /** Copies the bins into new ones over the range from lo to lo + r, each where its mean belongs. */
    method Rescale(lo: real, r: real) returns (newBin: array<Bin>)
      requires Valid() && bin != null && r > 0.0 && lo <= minVal && maxVal <= lo + r
      ensures fresh(newBin) && newBin.Length == numBins
      ensures forall i | 0 <= i < numBins :: Placed(lo, r, numBins - 1, i, newBin[i])
      ensures SumCount(newBin[..]) == SumCount(bin[..]) && SumTotal(newBin[..]) == SumTotal(bin[..])
      ensures forall j: nat | j < numBins :: newBin[j] == Gathered(bin[..], numBins, lo, r, numBins - 1, j)
    {
      hide Ceil, Times, Ratio, Mean, SumCount, SumTotal;
      newBin := EmptyBins();
      SumsOfEmpty(newBin[..]);
      SumsOfEmpty(bin[..0]);
      var newScale := Ratio((numBins - 1) as real, r);
      for i := 0 to numBins
        invariant forall j | 0 <= j < numBins :: Placed(lo, r, numBins - 1, j, newBin[j])
        invariant SumCount(newBin[..]) == SumCount(bin[..i]) && SumTotal(newBin[..]) == SumTotal(bin[..i])
        invariant forall j: nat | j < numBins :: newBin[j] == Gathered(bin[..], i, lo, r, numBins - 1, j)
      {
        ghost var was := newBin[..];
        hide Placed;
        SumStep(bin[..], i);
        if bin[i].count > 0 {
          MeanInRange(bin[..], minVal, maxVal, i);
          MoveBin(newBin, bin[i], lo, r, newScale);
        } else {
          EmptyHasNoTotal(bin[..], minVal, maxVal, i);
        }
        GatheredStep(bin[..], i, was, newBin[..], lo, r);
      }
      assert bin[..numBins] == bin[..];
    }

    /** Adds a value to the bin of a placed array where it belongs. */
    method AddValue(a: array<Bin>, lo: real, r: real, value: real, count: nat)
      requires numBins >= 2 && r > 0.0 && a.Length == numBins && lo <= value <= lo + r
      requires forall j | 0 <= j < numBins :: Placed(lo, r, numBins - 1, j, a[j])
      modifies a
      ensures forall j | 0 <= j < numBins :: Placed(lo, r, numBins - 1, j, a[j])
      ensures SumCount(a[..]) == SumCount(old(a[..])) + count
      ensures SumTotal(a[..]) == SumTotal(old(a[..])) + value * count as real
      ensures AddsTo(old(a[..]), a[..], lo, r, value, count, value * count as real)
    {
      hide Ceil, Times, Ratio, Mean, SumCount, SumTotal;
      var index := Ceil(Times((numBins - 1) as real, Ratio(value - lo, r)));
      IndexIsCeiling(lo, r, numBins - 1, value);
      if index > numBins - 1 {
        assert false;
      }
      var added := Bin(count, value * count as real);
      if count > 0 {
        PlacedByMean(lo, r, numBins - 1, index, value, added);
      }
      PlacedPlus(lo, r, numBins - 1, index, a[index], added);
      SumsAfterPlus(a[..], index, count, added.total);
      a[index] := Plus(a[index], count, added.total);
      assert a[..] == old(a[..])[index := Plus(old(a[index]), count, added.total)];
      AddedAt(old(a[..]), lo, r, value, count, added.total, index);
    }

    /** An empty histogram with a preset range. */
    method InitBins(rangeMin: real, rangeMax: real)
      requires numBins >= 2 && rangeMin <= rangeMax
      modifies this
      ensures Valid() && bin != null && fresh(bin) && minVal == rangeMin && maxVal == rangeMax
      ensures SumCount(Bins()) == 0 && SumTotal(Bins()) == 0.0
    {
      var a := EmptyBins();
      bin, minVal, maxVal := a, rangeMin, rangeMax;
      SumsOfEmpty(a[..]);
    }

    /** Counts a value, stretching the range first if it lies outside. Nothing that was counted is lost, and every
        bin goes on holding what belongs to it. */
    method Tally(value: real, count: nat)
      requires Valid() && (bin != null && minVal == maxVal ==> value != minVal)
      modifies this, bin
      ensures Valid() && bin != null && minVal <= value <= maxVal
      ensures SumCount(Bins()) == old(SumCount(Bins())) + count
      ensures SumTotal(Bins()) == old(SumTotal(Bins())) + value * count as real
      ensures old(bin) == null ==> minVal == maxVal == value && Bins()[0] == Bin(count, value * count as real)
      ensures old(bin) != null ==> minVal == if value < old(minVal) then value else old(minVal)
      ensures old(bin) != null && value <= old(maxVal) ==> maxVal == old(maxVal)
      ensures old(bin) != null && value > old(maxVal) ==> maxVal == if value < 0.0 then value / 2.0 else 2.0 * value
      ensures old(bin) != null && old(minVal) <= value <= old(maxVal) ==>
        AddsTo(old(Bins()), Bins(), minVal, maxVal - minVal, value, count, value * count as real)
      ensures old(bin) != null && !(old(minVal) <= value <= old(maxVal)) ==>
        MovedAndAdded(old(Bins()), Bins(), minVal, maxVal - minVal, value, count, value * count as real)
    {
      hide Ceil, Times, Ratio, Mean, SumCount, SumTotal, Placed, Gathered, AddsTo, MovedAndAdded;
      if bin == null {
        SumsOfEmpty([]);
        StartWith(value, count);
      } else if value > maxVal || value < minVal {
        Widen(value, count);
      } else {
        AddValue(bin, minVal, maxVal - minVal, value, count);
      }
    }

    /** The first value makes a range of a single point. */
    method StartWith(value: real, count: nat)
      requires Valid() && bin == null
      modifies this
      ensures Valid() && bin != null && fresh(bin) && minVal == maxVal == value
      ensures SumCount(Bins()) == count && SumTotal(Bins()) == value * count as real
      ensures Bins()[0] == Bin(count, value * count as real)
    {
      hide Ceil, Times, Ratio, Mean, SumCount, SumTotal, Placed;
      var a := EmptyBins();
      SumsOfEmpty(a[..]);
      SumsAfterPlus(a[..], 0, count, value * count as real);
      ghost var empty := a[..];
      a[0] := Bin(count, value * count as real);
      assert a[..] == empty[0 := Plus(empty[0], count, value * count as real)];
      bin, minVal, maxVal := a, value, value;
    }

    /** Moves everything to new bins over a range that takes the value in, and adds it. */
    method Widen(value: real, count: nat)
      requires Valid() && bin != null && (value > maxVal || value < minVal)
      modifies this
      ensures Valid() && bin != null && fresh(bin) && minVal <= value <= maxVal
      ensures SumCount(Bins()) == old(SumCount(Bins())) + count
      ensures SumTotal(Bins()) == old(SumTotal(Bins())) + value * count as real
      ensures minVal == if value < old(minVal) then value else old(minVal)
      ensures value < old(minVal) ==> maxVal == old(maxVal)
      ensures value > old(maxVal) ==> maxVal == if value < 0.0 then value / 2.0 else 2.0 * value
      ensures MovedAndAdded(old(Bins()), Bins(), minVal, maxVal - minVal, value, count, value * count as real)
    {
      hide Ceil, Times, Ratio, Mean, SumCount, SumTotal, Placed, Gathered, AddsTo;
      var newMin, newMax;
      if value < minVal {
        newMin, newMax := value, maxVal;
      } else {
        var s := if value < 0.0 then 0.5 else 2.0;
        newMin, newMax := minVal, s * value;
      }
      var newBin := Rescale(newMin, newMax - newMin);
      AddValue(newBin, newMin, newMax - newMin, value, count);
      bin, minVal, maxVal := newBin, newMin, newMax;
    }

    method Count() returns (total: nat)
      requires Valid()
      ensures total == SumCount(Bins())
    {
      SumsOfEmpty([]);
      if bin == null {
        return 0;
      }
      total := 0;
      for i := 0 to numBins
        invariant total == SumCount(bin[..i])
      {
        SumStep(bin[..], i);
        total := total + bin[i].count;
      }
      assert bin[..numBins] == bin[..];
    }

    /** Stops at the first mean beyond the range, yet counts every bin whose mean is in it. */
    method CountInRange(rangeMin: real, rangeMax: real) returns (rangeTotal: nat)
      requires Valid()
      ensures rangeTotal == InRange(Bins(), rangeMin, rangeMax)
      ensures rangeTotal == SumCount(OnlyWithin(Bins(), rangeMin, rangeMax))
    {
      InRangeIsCount(Bins(), rangeMin, rangeMax);
      hide OnlyWithin;
      if bin == null {
        return 0;
      }
      rangeTotal := 0;
      for i := 0 to numBins
        invariant rangeTotal == InRange(bin[..i], rangeMin, rangeMax)
      {
        assert bin[..i + 1][..i] == bin[..i];
        if bin[i].count > 0 {
          var value := Mean(bin[i]);
          if value < rangeMin {
            continue;
          } else if value > rangeMax {
            StopsHere(bin[..], minVal, maxVal, i, rangeMin, rangeMax);
            return;
          } else {
            rangeTotal := rangeTotal + bin[i].count;
          }
        }
      }
      assert bin[..numBins] == bin[..];
    }

    /** Looks at every bin; in a histogram that counts something the quotient is the percentage in range. */
    method PercentageInRange(rangeMin: real, rangeMax: real) returns (percentage: real)
      requires Valid() && (bin != null ==> SumCount(Bins()) > 0)
      ensures percentage == if bin == null then 0.0
                            else 100.0 * InRange(Bins(), rangeMin, rangeMax) as real / SumCount(Bins()) as real
      ensures InRange(Bins(), rangeMin, rangeMax) == SumCount(OnlyWithin(Bins(), rangeMin, rangeMax))
    {
      InRangeIsCount(Bins(), rangeMin, rangeMax);
      hide OnlyWithin;
      if bin == null {
        return 0.0;
      }
      var countTotal, rangeTotal := 0, 0;
      for i := 0 to numBins
        invariant countTotal == SumCount(bin[..i]) && rangeTotal == InRange(bin[..i], rangeMin, rangeMax)
      {
        SumStep(bin[..], i);
        assert bin[..i + 1][..i] == bin[..i];
        if bin[i].count > 0 {
          var value := Mean(bin[i]);
          countTotal := countTotal + bin[i].count;
          if value < rangeMin { continue; }
          if value > rangeMax { continue; }
          rangeTotal := rangeTotal + bin[i].count;
        }
      }
      assert bin[..numBins] == bin[..];
      percentage := 100.0 * rangeTotal as real / countTotal as real;
    }

    method Percentile(p: real) returns (x: real)
      requires Valid() && p >= 0.0
      ensures x == PercentileOf(Bins(), minVal, maxVal, p)
      ensures bin != null && p <= 1.0 ==>
        SplitsAt(Bins(), minVal, maxVal, Times(SumCount(Bins()) as real, p), x)
    {
      hide SplitsAt, Times, Goal, Edge, Placed, InRange;
      if bin != null && p <= 1.0 {
        PercentileReachesGoal(bin[..], minVal, maxVal, p);
      }
      var total := Count();
      var goal := Goal(total, p);
      if bin != null {
        var count := 0;
        hide SumCount, Edge, Goal;
        SumsOfEmpty(bin[..0]);
        for i := 0 to numBins
          invariant count == SumCount(bin[..i])
          invariant forall j | 0 <= j < i :: UpTo(bin[..], j) < goal
        {
          SumStep(bin[..], i);
          count := count + bin[i].count;
          if count >= goal {
            FirstIs(bin[..], goal, i);
            x := Edge(minVal, maxVal, numBins - 1, i);
            return;
          }
        }
        FirstIs(bin[..], goal, numBins);
      }
      x := maxVal;
    }
  }

  lemma GatheredStep(s: seq<Bin>, k: nat, was: seq<Bin>, now: seq<Bin>, lo: real, r: real)
    requires k < |s| == |was| == |now|
    requires forall j: nat | j < |was| :: was[j] == Gathered(s, k, lo, r, |was| - 1, j)
    requires if s[k].count > 0 then AddsTo(was, now, lo, r, Mean(s[k]), s[k].count, s[k].total) else now == was
    ensures forall j: nat | j < |now| :: now[j] == Gathered(s, k + 1, lo, r, |now| - 1, j)
  {
    hide InStretch;
  }

  lemma SumStep(s: seq<Bin>, i: nat)
    requires i < |s|
    ensures SumCount(s[..i + 1]) == SumCount(s[..i]) + s[i].count
    ensures SumTotal(s[..i + 1]) == SumTotal(s[..i]) + s[i].total
  {
    assert s[..i + 1][..i] == s[..i];
  }

  lemma EmptyHasNoTotal(s: seq<Bin>, lo: real, hi: real, i: nat)
    requires AllPlaced(s, lo, hi) && i < |s| && s[i].count == 0
    ensures s[i].total == 0.0
  {
  }

  lemma Commute(a: real, b: real)
    ensures a * b == b * a
  {
  }

  lemma StopsHere(s: seq<Bin>, lo: real, hi: real, i: nat, rangeMin: real, rangeMax: real)
    requires AllPlaced(s, lo, hi) && i < |s| && s[i].count > 0 && Mean(s[i]) > rangeMax
    ensures InRange(s, rangeMin, rangeMax) == InRange(s[..i], rangeMin, rangeMax)
  {
    forall j | i <= j < |s| && s[j].count > 0 ensures Mean(s[j]) > rangeMax {
      if j > i {
        MeansIncrease(s, lo, hi, i, j);
      }
    }
    NothingBeyond(s, i, rangeMin, rangeMax);
  }

  // ----- percentiles

  function Goal(total: nat, p: real): nat
    requires p >= 0.0
  {
    (total as real * p + 0.5).Floor
  }

  /** The upper edge of bin i of n + 1. */
  function Edge(lo: real, hi: real, n: nat, i: nat): real
    requires n > 0
  {
    Ratio(i as real, n as real) * (hi - lo) + lo
  }

  /** How many values the bins up to and including j hold. */
  function UpTo(s: seq<Bin>, j: nat): nat
    requires j < |s|
  {
    SumCount(s[..j + 1])
  }

  /** The first bin at which the counts add up to the goal; |s| if they never do. */
  function FirstReaching(s: seq<Bin>, goal: nat): (i: nat)
    ensures i <= |s|
    ensures i < |s| ==> UpTo(s, i) >= goal
    ensures forall j | 0 <= j < i :: UpTo(s, j) < goal
  {
    ReachFrom(s, goal, 0)
  }

  function ReachFrom(s: seq<Bin>, goal: nat, k: nat): (i: nat)
    requires k <= |s| && forall j | 0 <= j < k :: UpTo(s, j) < goal
    ensures k <= i <= |s|
    ensures i < |s| ==> UpTo(s, i) >= goal
    ensures forall j | 0 <= j < i :: UpTo(s, j) < goal
    decreases |s| - k
  {
    if k == |s| || UpTo(s, k) >= goal then k else ReachFrom(s, goal, k + 1)
  }

  lemma FirstIs(s: seq<Bin>, goal: nat, i: nat)
    requires i <= |s| && (i < |s| ==> UpTo(s, i) >= goal)
    requires forall j | 0 <= j < i :: UpTo(s, j) < goal
    ensures FirstReaching(s, goal) == i
  {
  }

  function PercentileOf(s: seq<Bin>, lo: real, hi: real, p: real): real
    requires p >= 0.0 && |s| != 1
  {
    var i := FirstReaching(s, Goal(SumCount(s), p));
    if i < |s| then Edge(lo, hi, |s| - 1, i) else hi
  }

  lemma EdgesIncrease(lo: real, hi: real, n: nat, i: nat, j: nat)
    requires lo <= hi && n > 0 && i <= j <= n
    ensures Edge(lo, hi, n, i) <= Edge(lo, hi, n, j) <= hi
  {
    RatioIsFraction(i as real, n as real);
    RatioIsFraction(j as real, n as real);
    Unscale(Ratio(i as real, n as real), Ratio(j as real, n as real), n as real);
    if lo < hi {
      ScaleAtMost(Ratio(i as real, n as real), Ratio(j as real, n as real), hi - lo);
      ScaleAtMost(Ratio(j as real, n as real), 1.0, hi - lo);
    }
  }

  lemma GoalGrows(total: nat, p: real, q: real)
    requires 0.0 <= p <= q
    ensures Goal(total, p) <= Goal(total, q)
  {
    if total > 0 {
      ScaleAtMost(p, q, total as real);
      Commute(p, total as real);
      Commute(q, total as real);
    }
    FloorGrows(total as real * p + 0.5, total as real * q + 0.5);
  }

  lemma FloorGrows(x: real, y: real)
    requires x <= y
    ensures x.Floor <= y.Floor
  {
  }

  lemma PercentileIsMonotone(s: seq<Bin>, lo: real, hi: real, p: real, q: real)
    requires AllPlaced(s, lo, hi) && 0.0 <= p <= q
    ensures PercentileOf(s, lo, hi, p) <= PercentileOf(s, lo, hi, q) <= hi
  {
    var total := SumCount(s);
    GoalGrows(total, p, q);
    hide SumCount, Goal, Edge, Placed;
    var i, j := FirstReaching(s, Goal(total, p)), FirstReaching(s, Goal(total, q));
    assert i <= j;
    if i < |s| {
      EdgesIncrease(lo, hi, |s| - 1, i, if j < |s| then j else |s| - 1);
    }
  }

  /** How many values lie in bins whose mean is at most the upper edge of bin j. */
  function UpToEdge(s: seq<Bin>, lo: real, hi: real, j: nat): nat
    requires j < |s| && |s| >= 2
  {
    InRange(s, lo, Edge(lo, hi, |s| - 1, j))
  }

  /** The means up to the edge of bin i are those of the bins up to i. */
  lemma {:induction false} CountUpToEdge(s: seq<Bin>, lo: real, hi: real, i: nat, k: nat)
    requires AllPlaced(s, lo, hi) && i < |s| && k <= |s|
    ensures InRange(s[..k], lo, Edge(lo, hi, |s| - 1, i)) == SumCount(s[..if k <= i then k else i + 1])
    decreases k
  {
    hide Edge, Mean, Placed;
    if k > 0 {
      CountUpToEdge(s, lo, hi, i, k - 1);
      assert s[..k][..k - 1] == s[..k - 1];
      SumStep(s, k - 1);
      if s[k - 1].count > 0 {
        MeanAndEdge(s, lo, hi, i, k - 1);
      }
    }
  }

  lemma EdgeTimes(lo: real, hi: real, n: nat, i: nat)
    requires n > 0
    ensures n as real * (Edge(lo, hi, n, i) - lo) == i as real * (hi - lo)
  {
    var y := Ratio(i as real, n as real);
    RatioIsFraction(i as real, n as real);
    hide Ratio;
    assert Edge(lo, hi, n, i) - lo == y * (hi - lo);
    SameFactor(n as real, Edge(lo, hi, n, i) - lo, y * (hi - lo));
    assert n as real * (y * (hi - lo)) == (y * n as real) * (hi - lo);
    SameFactor(hi - lo, y * n as real, i as real);
  }

  lemma MeanAndEdge(s: seq<Bin>, lo: real, hi: real, i: nat, k: nat)
    requires AllPlaced(s, lo, hi) && i < |s| && k < |s| && s[k].count > 0
    ensures lo <= Mean(s[k])
    ensures Mean(s[k]) <= Edge(lo, hi, |s| - 1, i) <==> k <= i
  {
    MeanInRange(s, lo, hi, k);
    EdgeTimes(lo, hi, |s| - 1, i);
    if lo < hi {
      hide Edge, Mean, Placed;
      CompareStretches(|s| - 1, hi - lo, i, k, Mean(s[k]) - lo, Edge(lo, hi, |s| - 1, i) - lo);
    }
  }

  lemma CompareStretches(n: nat, r: real, i: nat, k: nat, a: real, b: real)
    requires n > 0 && r > 0.0 && n as real * b == i as real * r
    requires (k as real - 1.0) * r < n as real * a <= k as real * r
    ensures a <= b <==> k <= i
  {
    if k <= i {
      ScaleAtMost(k as real, i as real, r);
      assert n as real * a <= i as real * r;
      Commute(n as real, a);
      Commute(n as real, b);
      Unscale(a, b, n as real);
    } else {
      ScaleAtMost(i as real, k as real - 1.0, r);
      assert b * n as real < a * n as real;
      UnscaleLess(b, a, n as real);
    }
  }

  /** x is the upper edge of a bin. Up to x lie more values than share less one half, and up to the edge of any earlier
      bin no more than that. */
  ghost predicate SplitsAt(s: seq<Bin>, lo: real, hi: real, share: real, x: real)
    requires |s| >= 2
  {
    exists i :: IsEdgeWhere(s, lo, hi, share, x, i)
  }

  ghost predicate IsEdgeWhere(s: seq<Bin>, lo: real, hi: real, share: real, x: real, i: nat)
    requires |s| >= 2
  {
    && i < |s| && (|s| - 1) as real * (x - lo) == i as real * (hi - lo)
    && InRange(s, lo, x) as real > share - 0.5
    && forall j | 0 <= j < i :: UpToEdge(s, lo, hi, j) as real <= share - 0.5
  }

  lemma GoalIsRounded(total: nat, p: real)
    requires 0.0 <= p
    ensures Goal(total, p) as real - 0.5 <= Times(total as real, p) < Goal(total, p) as real + 0.5
  {
  }

  /** The percentile is where the count reaches the fraction p of all values, rounded to the nearest number. */
  lemma PercentileReachesGoal(s: seq<Bin>, lo: real, hi: real, p: real)
    requires AllPlaced(s, lo, hi) && 0.0 <= p <= 1.0
    ensures SplitsAt(s, lo, hi, Times(SumCount(s) as real, p), PercentileOf(s, lo, hi, p))
  {
    assert |s| >= 2;
    hide AllPlaced, Edge, IsEdgeWhere, SumCount, FirstReaching, Goal, Times, InRange, UpToEdge;
    var goal := Goal(SumCount(s), p);
    GoalIsRounded(SumCount(s), p);
    GoalWithinTotal(SumCount(s), p);
    GoalIsReached(s, lo, hi, goal);
    EdgeReached(s, lo, hi, Times(SumCount(s) as real, p), goal, FirstReaching(s, goal));
  }

  lemma EdgeReached(s: seq<Bin>, lo: real, hi: real, share: real, goal: nat, i: nat)
    requires |s| >= 2 && i < |s| && InRange(s, lo, Edge(lo, hi, |s| - 1, i)) >= goal
    requires forall j | 0 <= j < i :: UpToEdge(s, lo, hi, j) < goal
    requires goal as real - 0.5 <= share < goal as real + 0.5
    ensures IsEdgeWhere(s, lo, hi, share, Edge(lo, hi, |s| - 1, i), i)
  {
    EdgeTimes(lo, hi, |s| - 1, i);
    hide Edge, InRange, UpToEdge;
  }

  lemma GoalIsReached(s: seq<Bin>, lo: real, hi: real, goal: nat)
    requires AllPlaced(s, lo, hi) && goal <= SumCount(s)
    ensures var i := FirstReaching(s, goal);
      && i < |s| && InRange(s, lo, Edge(lo, hi, |s| - 1, i)) >= goal
      && forall j | 0 <= j < i :: UpToEdge(s, lo, hi, j) < goal
  {
    assert s[..|s|] == s;
    assert UpTo(s, |s| - 1) == SumCount(s);
    hide Edge, SumCount, InRange, AllPlaced;
    var i := FirstReaching(s, goal);
    CountUpToEdge(s, lo, hi, i, |s|);
    forall j | 0 <= j < i ensures UpToEdge(s, lo, hi, j) < goal {
      CountUpToEdge(s, lo, hi, j, |s|);
      assert s[..|s|] == s && UpTo(s, j) < goal;
    }
  }

  lemma GoalWithinTotal(total: nat, p: real)
    requires 0.0 <= p <= 1.0
    ensures Goal(total, p) <= total
  {
    assert total as real * p <= total as real;
  }
}
