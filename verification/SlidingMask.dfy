/** Circular index arithmetic and the sliding bit mask built on it. */
module SlidingMask {

  const UINT32_RANGE: nat := 0x1_0000_0000

  /** The number of index values: a power of two below the width of a word, given by what matters about it. */
  ghost predicate IsRange(m: nat) {
    1 < m < UINT32_RANGE && m % 2 == 0 && UINT32_RANGE % m == 0
  }

  /** The circular distance from b to a over m index values, worked out as on 32-bit words: result & range_sign is
      nonzero exactly when the lower half is exceeded, and result | ~range_mask is the negative remainder. */
  function Difference(m: nat, a: nat, b: nat): int
    requires m > 0
  {
    var result := (a - b) % UINT32_RANGE;
    var low := result % m;
    if low < m / 2 then low
    else if result != m / 2 || a < b then low - m
    else result
  }

  /** -1, 0 or 1. */
  function Compare(m: nat, a: nat, b: nat): int
    requires m > 0
  {
    var delta := Difference(m, a, b);
    if delta < 0 then -1 else if delta == 0 then 0 else 1
  }

  lemma LowIsRemainder(m: nat, a: nat, b: nat)
    requires IsRange(m) && a < m && b < m
    ensures (a - b) % UINT32_RANGE % m == if a >= b then a - b else a - b + m
    ensures (a - b) % UINT32_RANGE == m / 2 && a < b ==> false
  {
    if a < b {
      WrapBelow(m, UINT32_RANGE / m, b - a);
    }
  }

  lemma WrapBelow(m: nat, q: nat, x: nat)
    requires q >= 2 && q * m == UINT32_RANGE && 0 < x < m
    ensures (0 - x) % UINT32_RANGE == UINT32_RANGE - x > m / 2
    ensures (UINT32_RANGE - x) % m == m - x
  {
    assert 2 * m <= UINT32_RANGE by { MulGrows(2, q, m); }
    Negated(x);
    var low := UINT32_RANGE - x;
    assert low % m == m - x by {
      assert low == (q - 1) * m + (m - x) by { Minus(q, 1, m); }
      RemainderOfSum(m, q - 1, m - x);
    }
  }

  lemma Negated(x: nat)
    requires 0 < x < UINT32_RANGE
    ensures (0 - x) % UINT32_RANGE == UINT32_RANGE - x
  {
  }

  lemma RemainderOfSum(m: nat, q: int, r: nat)
    requires 0 <= r < m
    ensures (q * m + r) % m == r
  {
    var s := q * m + r;
    var d, t := s / m, s % m;
    assert s == d * m + t;
    Minus(d, q, m);
    if d > q {
      MulGrows(1, d - q, m);
    } else if d < q {
      MulGrows(1, q - d, m);
      Minus(q, d, m);
    }
  }

  lemma Minus(a: int, b: int, m: nat)
    ensures (a - b) * m == a * m - b * m
  {
  }

  lemma MulGrows(a: nat, b: nat, m: nat)
    requires a <= b
    ensures a * m <= b * m
  {
  }

  /** The distance in one formula: the short way round, and at exactly half way the sign of the plain difference. */
  lemma DifferenceIsShortWay(m: nat, a: nat, b: nat)
    requires IsRange(m) && a < m && b < m
    ensures Difference(m, a, b) ==
      if a - b > m / 2 then a - b - m else if a - b < -(m / 2) then a - b + m else a - b
  {
    LowIsRemainder(m, a, b);
  }

  lemma DifferenceIsCircular(m: nat, a: nat, b: nat)
    requires IsRange(m) && a < m && b < m
    ensures Difference(m, a, b) == a - b || Difference(m, a, b) == a - b - m || Difference(m, a, b) == a - b + m
    ensures -(m / 2) <= Difference(m, a, b) <= m / 2
    ensures Difference(m, a, b) == -Difference(m, b, a)
  {
    DifferenceIsShortWay(m, a, b);
    DifferenceIsShortWay(m, b, a);
  }

  /** How far x lies after base, going up. */
  function Ahead(m: nat, base: nat, x: nat): nat
    requires base < m && x < m
  {
    if x >= base then x - base else x - base + m
  }

  /** Within a window of less than half the range, comparing is comparing distances from its base: a total order. */
  lemma CompareOrdersWindow(m: nat, base: nat, a: nat, b: nat)
    requires IsRange(m) && base < m && a < m && b < m
    requires Ahead(m, base, a) < m / 2 && Ahead(m, base, b) < m / 2
    ensures Difference(m, a, b) == Ahead(m, base, a) - Ahead(m, base, b)
    ensures Compare(m, a, b) < 0 <==> Ahead(m, base, a) < Ahead(m, base, b)
    ensures Compare(m, a, b) == 0 <==> a == b
  {
    DifferenceIsShortWay(m, a, b);
  }

  // ----- the mask: a ring of bits, of which start is the one for index offset

  /** The ring position r places after start, and the way back. */
  function At(n: nat, start: nat, r: nat): nat
    requires start < n && r < n
  {
    if start + r >= n then start + r - n else start + r
  }

  function Rel(n: nat, start: nat, pos: nat): nat
    requires start < n && pos < n
  {
    if pos >= start then pos - start else pos - start + n
  }

  /** x is in the set that a nonempty mask stands for. */
  ghost predicate Holds(m: nat, bits: seq<bool>, start: nat, offset: nat, x: nat) {
    && x < m && offset < m && start < |bits|
    && Ahead(m, offset, x) < |bits| && bits[At(|bits|, start, Ahead(m, offset, x))]
  }

  ghost function Denoted(m: nat, bits: seq<bool>, start: nat, offset: nat): set<nat> {
    set x: nat | x < m && Holds(m, bits, start, offset, x)
  }

  /** The index one ring size above x, from which x would come out. */
  function Lowered(m: nat, n: nat, x: nat): int {
    if x + n < m then x + n else x + n - m
  }

  /** Bits are set from start to end round the ring only, and at both of them. */
  ghost predicate Ring(m: nat, bits: seq<bool>, start: nat, end: nat, offset: nat) {
    var n := |bits|;
    && IsRange(m) && 0 < n <= m / 2 && start < n && end < n && offset < m
    && bits[start] && bits[end]
    && forall p | 0 <= p < n && bits[p] :: Rel(n, start, p) <= Rel(n, start, end)
  }

  /** A new last index, up to the size of the ring after the first one. */
  lemma SetAhead(m: nat, bits: seq<bool>, start: nat, end: nat, offset: nat, index: nat)
    requires Ring(m, bits, start, end, offset) && index < m && Ahead(m, offset, index) < |bits|
    ensures var f := Ahead(m, offset, index); var pos := At(|bits|, start, f); var after := bits[pos := true];
      && Ring(m, after, start, if f > Rel(|bits|, start, end) then pos else end, offset)
      && forall x: nat :: Holds(m, after, start, offset, x) <==> x == index || Holds(m, bits, start, offset, x)
  {
  }

  function Back(n: nat, start: nat, d: nat): int
  {
    if start >= d then start - d else start - d + n
  }

  lemma BehindKeepsRing(m: nat, bits: seq<bool>, start: nat, end: nat, offset: nat, index: nat, d: nat)
    requires Ring(m, bits, start, end, offset) && index < m && 0 < d <= start + |bits|
    requires Rel(|bits|, start, Back(|bits|, start, d)) > Rel(|bits|, start, end)
    ensures d != |bits| && Ring(m, bits[Back(|bits|, start, d) := true], Back(|bits|, start, d), end, index)
  {
  }

  lemma BehindFits(m: nat, bits: seq<bool>, start: nat, end: nat, offset: nat, index: nat, d: nat, x: nat)
    requires Ring(m, bits, start, end, offset) && index < m && 0 < d < |bits| && x < m
    requires offset == index + d || offset == index + d - m
    requires Rel(|bits|, start, Back(|bits|, start, d)) > Rel(|bits|, start, end)
    ensures Holds(m, bits[Back(|bits|, start, d) := true], Back(|bits|, start, d), index, x)
      <==> x == index || Holds(m, bits, start, offset, x)
  {
    var n := |bits|;
    var pos := Back(n, start, d);
    var a, b := Ahead(m, index, x), Ahead(m, offset, x);
    if a >= d {
      assert b == a - d;
      if a < n { assert At(n, pos, a) == At(n, start, b); }
      if b < n && a >= n {
        assert Rel(n, start, At(n, start, b)) == b;
      }
    } else if a > 0 {
      assert Rel(n, start, At(n, pos, a)) == n - d + a;
      assert b >= n;
    }
  }

  lemma BehindTooFar(m: nat, bits: seq<bool>, start: nat, end: nat, offset: nat, index: nat, d: nat, x: nat)
    requires Ring(m, bits, start, end, offset) && index < m && |bits| < d <= start + |bits| && d <= m / 2 && x < m
    requires offset == index + d || offset == index + d - m
    requires Rel(|bits|, start, Back(|bits|, start, d)) > Rel(|bits|, start, end)
    ensures Holds(m, bits[Back(|bits|, start, d) := true], Back(|bits|, start, d), index, x)
      <==> x == index || Holds(m, bits, start, offset, Lowered(m, |bits|, x))
  {
    var n := |bits|;
    var y := if x + n < m then x + n else x + n - m;
    var nearer := if index + n < m then index + n else index + n - m;
    BehindFits(m, bits, start, end, offset, nearer, d - n, y);
    assert Back(n, start, d) == Back(n, start, d - n);
    assert Ahead(m, index, x) == Ahead(m, nearer, y);
  }

  predicate Between(start: nat, end: nat, pos: nat) {
    if end < start then pos <= end || pos >= start else pos <= end && pos >= start
  }

  /** Which of the two cases the code accepts for an index d before the first one, and what it tests for. */
  lemma AcceptedBehind(n: nat, start: nat, end: nat, d: nat)
    requires start < n && end < n && 0 < d
    ensures var span := Rel(n, start, end) + 1; var pos := Back(n, start, d);
      && (pos >= 0 ==> pos < n && (Between(start, end, pos) <==> Rel(n, start, pos) <= Rel(n, start, end)))
      && (pos >= 0 <==> d <= start + n)
      && (pos >= 0 && !Between(start, end, pos) <==> d + span <= n || (n < d <= n + start && d - n + span <= n))
      && (d + span <= n ==> d < n)
  {
  }

  lemma WrapOnce(m: nat, s: nat)
    requires m > 0 && s < 2 * m
    ensures s % m == if s < m then s else s - m
  {
  }

  lemma RelOfAt(n: nat, start: nat, r: nat)
    requires start < n && r < n
    ensures At(n, start, r) < n && Rel(n, start, At(n, start, r)) == r
  {
  }

  lemma LastIsHeld(m: nat, bits: seq<bool>, start: nat, end: nat, offset: nat, n: nat, index: nat)
    requires Ring(m, bits, start, end, offset) && n == Rel(|bits|, start, end)
    requires index == if offset + n < m then offset + n else offset + n - m
    ensures index in Denoted(m, bits, start, offset)
    ensures forall x | x in Denoted(m, bits, start, offset) :: Ahead(m, offset, x) <= Ahead(m, offset, index)
  {
    assert Ahead(m, offset, index) == n && At(|bits|, start, n) == end;
    forall x | x in Denoted(m, bits, start, offset) ensures Ahead(m, offset, x) <= n {
      RelOfAt(|bits|, start, Ahead(m, offset, x));
      hide At;
    }
  }

  lemma AfterAhead(m: nat, bits: seq<bool>, start: nat, end: nat, offset: nat, index: nat)
    requires Ring(m, bits, start, end, offset) && index < m && Ahead(m, offset, index) < |bits|
    ensures var pos := At(|bits|, start, Ahead(m, offset, index));
      && Ring(m, bits[pos := true], start, if Between(start, end, pos) then end else pos, offset)
      && Denoted(m, bits[pos := true], start, offset) == Denoted(m, bits, start, offset) + {index}
  {
    SetAhead(m, bits, start, end, offset, index);
    RelOfAt(|bits|, start, Ahead(m, offset, index));
    hide Holds;
    assert forall x: nat :: x in Denoted(m, bits, start, offset) ==> x < m;
  }

  class SlidingMask {
    const m: nat
    const numBits: nat
    const bit: array<bool>
    var start: nat
    var end: nat
    var offset: nat

    /** Empty with start at num_bits, or a ring. */
    ghost predicate Valid()
      reads this, bit
    {
      && IsRange(m) && 0 < numBits <= m / 2 && bit.Length == numBits
      && if start == numBits then end == numBits && forall p | 0 <= p < numBits :: !bit[p]
         else Ring(m, bit[..], start, end, offset)
    }

    ghost function Members(): set<nat>
      reads this, bit
    {
      Denoted(m, bit[..], start, offset)
    }

    constructor (m: nat, numBits: nat)
      requires IsRange(m) && 0 < numBits <= m / 2
      ensures Valid() && Members() == {} && !IsSet() && this.m == m && this.numBits == numBits && fresh(bit)
    {
      this.m, this.numBits := m, numBits;
      bit := new bool[numBits](_ => false);
      start, end, offset := numBits, numBits, 0;
    }

    predicate IsSet()
      reads this
    {
      start < numBits
    }

    method Clear()
      requires Valid()
      modifies this, bit
      ensures Valid() && Members() == {}
    {
      forall p | 0 <= p < numBits { bit[p] := false; }
      start, end, offset := numBits, numBits, 0;
    }

    /** Sets as many consecutive indices as the ring has bits. */
    method Reset(index: nat)
      requires Valid() && index < m
      modifies this, bit
      ensures Valid() && forall x: nat :: x in Members() <==> x < m && Ahead(m, index, x) < numBits
    {
      forall p | 0 <= p < numBits { bit[p] := true; }
      start, end, offset := 0, numBits - 1, index;
    }

    method Test(index: nat) returns (r: bool)
      requires Valid() && index < m
      ensures r <==> index in Members()
    {
      r := false;
      if IsSet() {
        DifferenceIsShortWay(m, index, offset);
        if Compare(m, index, offset) >= 0 {
          var pos := Difference(m, index, offset);
          if pos >= numBits { return false; }
          pos := pos + start;
          if pos >= numBits { pos := pos - numBits; }
          if !Between(start, end, pos) { return false; }
          r := bit[pos];
        }
      }
    }

    /** The lowest and the highest index, circularly, are where the mask says they are. */
    method GetFirstSet() returns (index: nat, ok: bool)
      requires Valid()
      ensures ok <==> Members() != {}
      ensures ok ==> index in Members() && forall x | x in Members() :: Ahead(m, index, x) < numBits
    {
      index, ok := offset, IsSet();
      if ok {
        assert Holds(m, bit[..], start, offset, offset);
        assert index in Members();
      }
    }

    method GetLastSet() returns (index: nat, ok: bool)
      requires Valid()
      ensures ok <==> Members() != {}
      ensures ok ==> index in Members() && forall x | x in Members() :: Ahead(m, offset, x) <= Ahead(m, offset, index)
    {
      ok := IsSet();
      if !ok { return 0, false; }
      var n := if end < start then numBits - (start - end) else end - start;
      WrapOnce(m, offset + n);
      index := (offset + n) % m;
      LastIsHeld(m, bit[..], start, end, offset, n, index);
    }

    /** How many ring positions lie between the first and the last index, both included. */
    ghost function Span(): nat
      requires Valid() && IsSet()
      reads this, bit
    {
      Rel(numBits, start, end) + 1
    }

    /** index lies so far before the first one that the code takes it for a nearer one. */
    ghost predicate TooFarBack(index: nat)
      requires Valid() && IsSet() && index < m
      reads this, bit
    {
      var d := -Difference(m, index, offset);
      numBits < d <= numBits + start && d - numBits + Span() <= numBits
    }

    /** Adds index if the whole span then still fits, and refuses it otherwise, except when it is too far back:
        then it is accepted, the former first index is lost and every former index comes out one ring size lower. */
    method Set(index: nat) returns (ok: bool)
      requires Valid() && index < m
      modifies this, bit
      ensures Valid()
      ensures old(!IsSet()) ==> ok && Members() == {index} && start == end == 0 && offset == index
      ensures ok && old(IsSet()) && Difference(m, index, old(offset)) < 0 ==>
        start == Back(numBits, old(start), -Difference(m, index, old(offset))) && end == old(end) && offset == index
      ensures old(IsSet()) ==> var d := Difference(m, index, old(offset));
        if old(TooFarBack(index)) then ok && old(offset) !in Members() && old(offset) in old(Members())
          && forall x: nat | x < m :: x in Members() <==> x == index || Lowered(m, numBits, x) in old(Members())
        else if (if d >= 0 then d < numBits else -d + old(Span()) <= numBits) then
          ok && Members() == old(Members()) + {index}
        else !ok && Members() == old(Members())
    {
      if IsSet() {
        if Compare(m, index, offset) < 0 {
          ok := SetBefore(index);
        } else {
          ok := SetAfter(index);
        }
      } else {
        start, end, offset := 0, 0, index;
        bit[0] := true;
        ok := true;
      }
    }

    method SetBefore(index: nat) returns (ok: bool)
      requires Valid() && index < m && IsSet() && Difference(m, index, offset) < 0
      modifies this, bit
      ensures Valid()
      ensures ok ==>
        start == Back(numBits, old(start), -Difference(m, index, old(offset))) && end == old(end) && offset == index
      ensures var d := -Difference(m, index, old(offset));
        if old(TooFarBack(index)) then ok && old(offset) !in Members() && old(offset) in old(Members())
          && forall x: nat | x < m :: x in Members() <==> x == index || Lowered(m, numBits, x) in old(Members())
        else if d + old(Span()) <= numBits then ok && Members() == old(Members()) + {index}
        else !ok && Members() == old(Members())
    {
      var pos := FindBefore(index);
      if pos < 0 { return false; }
      DifferenceIsShortWay(m, index, offset);
      hide Difference, Denoted, Holds, Back, Rel, Lowered;
      ghost var was, d := bit[..], -Difference(m, index, offset);
      BehindKeepsRing(m, was, start, end, offset, index, d);
      if d < numBits {
        AfterFits(m, was, start, end, offset, index, d);
      } else {
        AfterTooFar(m, was, start, end, offset, index, d);
      }
      hide Ring, TooFarBack, Span;
      Install(pos, pos, end, index);
      ok := true;
    }

    method Install(pos: nat, newStart: nat, newEnd: nat, newOffset: nat)
      requires pos < bit.Length
      modifies this, bit
      ensures bit[..] == old(bit[..])[pos := true] && start == newStart && end == newEnd && offset == newOffset
    {
      bit[pos] := true;
      start, end, offset := newStart, newEnd, newOffset;
    }

    /** The ring position for an index before the first one, or -1 if it is refused. */
    method FindBefore(index: nat) returns (pos: int)
      requires Valid() && index < m && IsSet() && Difference(m, index, offset) < 0
      ensures var d := -Difference(m, index, offset);
        && (pos >= 0 <==> TooFarBack(index) || d + Span() <= numBits)
        && (if TooFarBack(index) then d > numBits else pos >= 0 ==> d < numBits)
        && (pos >= 0 ==>
              && pos == Back(numBits, start, d) < numBits && d <= start + numBits
              && Rel(numBits, start, pos) > Rel(numBits, start, end))
    {
      var delta := Difference(m, index, offset);
      hide Difference;
      AcceptedBehind(numBits, start, end, -delta);
      pos := start + delta;
      if pos < 0 { pos := pos + numBits; }
      if pos < 0 { return -1; }
      if Between(start, end, pos) { return -1; }
    }

    method SetAfter(index: nat) returns (ok: bool)
      requires Valid() && index < m && IsSet() && Difference(m, index, offset) >= 0
      modifies this, bit
      ensures Valid()
      ensures if Difference(m, index, old(offset)) < numBits then ok && Members() == old(Members()) + {index}
              else !ok && Members() == old(Members())
    {
      DifferenceIsShortWay(m, index, offset);
      var pos := Difference(m, index, offset);
      ghost var was := bit[..];
      if pos >= numBits { return false; }
      AfterAhead(m, was, start, end, offset, index);
      hide Holds, Ring, Difference, Denoted;
      pos := pos + start;
      if pos >= numBits { pos := pos - numBits; }
      var newEnd := if !Between(start, end, pos) then pos else end;
      Install(pos, start, newEnd, offset);
      ok := true;
    }
  }

  /** It does happen: after 100 and 99, the index 89 is taken into a ring of eight bits, and 99 is gone. */
  method AnIndexIsLost() returns (accepted: bool, kept: bool)
    ensures accepted && !kept
  {
    var mask := new SlidingMask(256, 8);
    var _ := mask.Set(100);
    DifferenceIsShortWay(256, 99, 100);
    var _ := mask.Set(99);
    DifferenceIsShortWay(256, 89, 99);
    assert mask.TooFarBack(89);
    accepted := mask.Set(89);
    kept := mask.Test(99);
  }

  lemma AfterFits(m: nat, bits: seq<bool>, start: nat, end: nat, offset: nat, index: nat, d: nat)
    requires Ring(m, bits, start, end, offset) && index < m && 0 < d < |bits|
    requires offset == index + d || offset == index + d - m
    requires Rel(|bits|, start, Back(|bits|, start, d)) > Rel(|bits|, start, end)
    ensures Denoted(m, bits[Back(|bits|, start, d) := true], Back(|bits|, start, d), index) ==
            Denoted(m, bits, start, offset) + {index}
  {
    forall x: nat | x < m
      ensures Holds(m, bits[Back(|bits|, start, d) := true], Back(|bits|, start, d), index, x) <==>
        x == index || Holds(m, bits, start, offset, x)
    {
      BehindFits(m, bits, start, end, offset, index, d, x);
    }
    hide Holds, Ring;
    assert forall x: nat :: x in Denoted(m, bits, start, offset) ==> x < m;
  }

  lemma AfterTooFar(m: nat, bits: seq<bool>, start: nat, end: nat, offset: nat, index: nat, d: nat)
    requires Ring(m, bits, start, end, offset) && index < m && |bits| < d <= start + |bits| && d <= m / 2
    requires offset == index + d || offset == index + d - m
    requires Rel(|bits|, start, Back(|bits|, start, d)) > Rel(|bits|, start, end)
    ensures var after := Denoted(m, bits[Back(|bits|, start, d) := true], Back(|bits|, start, d), index);
      && offset !in after && offset in Denoted(m, bits, start, offset)
      && forall x: nat | x < m :: x in after <==> x == index || Lowered(m, |bits|, x) in Denoted(m, bits, start, offset)
  {
    forall x: nat | x < m
      ensures Holds(m, bits[Back(|bits|, start, d) := true], Back(|bits|, start, d), index, x)
        <==> x == index || Holds(m, bits, start, offset, Lowered(m, |bits|, x))
    {
      BehindTooFar(m, bits, start, end, offset, index, d, x);
    }
    assert !Holds(m, bits[Back(|bits|, start, d) := true], Back(|bits|, start, d), index, offset);
    assert Holds(m, bits, start, offset, offset);
  }
}
