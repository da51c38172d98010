/** The packed bit mask: eight indices to a byte, the lowest in the highest bit. */
module Bitmask {

  function Place(k: nat): bv8
    requires k < 8
  {
    0x80 >> k
  }

  predicate On(b: bv8, k: nat)
    requires k < 8
  {
    b & Place(k) != 0
  }

  lemma PlaceIs(k: nat)
    requires k < 8
    ensures Place(k) == if k == 0 then 0x80 else if k == 1 then 0x40 else if k == 2 then 0x20 else if k == 3 then 0x10
                        else if k == 4 then 0x08 else if k == 5 then 0x04 else if k == 6 then 0x02 else 0x01
  {
  }

  lemma OrPlace(b: bv8, k: nat, j: nat)
    requires k < 8 && j < 8
    ensures On(b | Place(k), j) <==> j == k || On(b, j)
  {
    PlaceIs(k);
    PlaceIs(j);
  }

  lemma AndNotPlace(b: bv8, k: nat, j: nat)
    requires k < 8 && j < 8
    ensures On(b & !Place(k), j) <==> j != k && On(b, j)
  {
    PlaceIs(k);
    PlaceIs(j);
  }

  lemma ZeroByte(b: bv8)
    ensures b == 0 <==> forall k | 0 <= k < 8 :: !On(b, k)
  {
    PlaceIs(0); PlaceIs(1); PlaceIs(2); PlaceIs(3); PlaceIs(4); PlaceIs(5); PlaceIs(6); PlaceIs(7);
    if b != 0 {
      assert On(b, 0) || On(b, 1) || On(b, 2) || On(b, 3) || On(b, 4) || On(b, 5) || On(b, 6) || On(b, 7);
    }
  }

  /** A byte of ones shifted left by s has its s low bits off. */
  lemma ShiftedOnes(s: nat, k: nat)
    requires s < 8 && k < 8
    ensures On(0xff << s, k) <==> k < 8 - s
  {
    PlaceIs(k);
  }

  /** The places that are on in a byte, from k on: what the table of bit locations lists for it. */
  function Locations(b: bv8, k: nat): (s: seq<nat>)
    requires k <= 8
    ensures forall i | 0 <= i < |s| :: k <= s[i] < 8 && On(b, s[i])
    ensures forall i, j | 0 <= i < j < |s| :: s[i] < s[j]
    ensures forall p: nat | k <= p < 8 :: On(b, p) ==> p in s
    decreases 8 - k
  {
    if k == 8 then [] else if On(b, k) then [k] + Locations(b, k + 1) else Locations(b, k + 1)
  }

  lemma NotListed(s: seq<nat>, i: nat, k: nat)
    requires i < |s| && k < s[i] && (i > 0 ==> s[i - 1] < k)
    requires forall a, b | 0 <= a < b < |s| :: s[a] < s[b]
    ensures k !in s
  {
  }

  predicate BitOf(bytes: seq<bv8>, i: nat)
    requires i < 8 * |bytes|
  {
    On(bytes[i / 8], i % 8)
  }

  /** The first bit that is on in one byte is the first in the mask, when nothing from index to that byte is on. */
  lemma FoundInByte(bytes: seq<bv8>, index: nat, at: nat, from: nat, loc: nat)
    requires at < |bytes| && from <= loc < 8 && On(bytes[at], loc) && index <= 8 * at + from
    requires forall k | from <= k < loc :: !On(bytes[at], k)
    requires forall i: nat | index <= i < 8 * at + from :: !BitOf(bytes, i)
    ensures BitOf(bytes, 8 * at + loc) && forall i: nat | index <= i < 8 * at + loc :: !BitOf(bytes, i)
  {
    hide On;
    forall i: nat | 8 * at + from <= i < 8 * at + loc ensures !BitOf(bytes, i) {
      assert i / 8 == at && i % 8 == i - 8 * at;
    }
  }

  lemma NothingInByte(bytes: seq<bv8>, index: nat, at: nat, from: nat)
    requires at < |bytes| && from < 8 && index <= 8 * at + from
    requires forall k | from <= k < 8 :: !On(bytes[at], k)
    requires forall i: nat | index <= i < 8 * at + from :: !BitOf(bytes, i)
    ensures forall i: nat | index <= i < 8 * (at + 1) :: !BitOf(bytes, i)
  {
    hide On;
    forall i: nat | 8 * at + from <= i < 8 * (at + 1) ensures !BitOf(bytes, i) {
      assert i / 8 == at && i % 8 == i - 8 * at;
    }
  }

  lemma FirstLocation(b: bv8)
    requires b != 0
    ensures var s := Locations(b, 0); |s| > 0 && s[0] < 8 && On(b, s[0]) && forall k | 0 <= k < s[0] :: !On(b, k)
  {
    ZeroByte(b);
    hide On;
    var s := Locations(b, 0);
    var p: nat :| p < 8 && On(b, p);
    assert p in s;
    forall k: nat | k < s[0] ensures !On(b, k) {
      NotListed(s, 0, k);
    }
  }

  /** The padding after the last of n bits is zero. */
  ghost predicate Padded(bytes: seq<bv8>, n: nat) {
    && |bytes| == (n + 7) / 8
    && forall i: nat | n <= i < 8 * |bytes| :: !BitOf(bytes, i)
  }

  /** The set of indices that the bytes stand for. */
  ghost function IndexSet(bytes: seq<bv8>, n: nat): set<nat>
    requires n <= 8 * |bytes|
  {
    set i: nat | i < n && BitOf(bytes, i)
  }

  /** No bit from the given index up to next is on, and next is on or is the end n. */
  ghost predicate Least(bytes: seq<bv8>, n: nat, index: nat, next: nat)
    requires n <= 8 * |bytes|
  {
    && next <= n
    && (next < n ==> index <= next && BitOf(bytes, next))
    && forall i: nat | index <= i < next :: !BitOf(bytes, i)
  }

  lemma LeastIsLeast(bytes: seq<bv8>, n: nat, first: nat)
    requires n <= 8 * |bytes| && Least(bytes, n, 0, first)
    ensures first < n <==> IndexSet(bytes, n) != {}
    ensures first < n ==> first in IndexSet(bytes, n)
    ensures forall i | i in IndexSet(bytes, n) :: first <= i
  {
    hide BitOf;
    if first < n {
      assert first in IndexSet(bytes, n);
    }
  }

  lemma FoundIsLeast(bytes: seq<bv8>, n: nat, index: nat, next: nat)
    requires Padded(bytes, n) && index <= next < 8 * |bytes| && BitOf(bytes, next)
    requires forall i: nat | index <= i < next :: !BitOf(bytes, i)
    ensures Least(bytes, n, index, next) && next < n
  {
    hide BitOf;
  }

  /** A byte is looked up only if it is not zero: then its first place is the least index, else it holds none. */
  lemma LookUp(bytes: seq<bv8>, n: nat, index: nat, at: nat)
    requires Padded(bytes, n) && at < |bytes| && index <= 8 * at
    requires forall i: nat | index <= i < 8 * at :: !BitOf(bytes, i)
    ensures bytes[at] == 0 ==> forall i: nat | index <= i < 8 * (at + 1) :: !BitOf(bytes, i)
    ensures bytes[at] != 0 ==> var s := Locations(bytes[at], 0);
      |s| > 0 && Least(bytes, n, index, 8 * at + s[0]) && 8 * at + s[0] < n
  {
    hide *;
    ZeroByte(bytes[at]);
    if bytes[at] == 0 {
      NothingInByte(bytes, index, at, 0);
    } else {
      FirstLocation(bytes[at]);
      var loc := Locations(bytes[at], 0)[0];
      FoundInByte(bytes, index, at, 0, loc);
      FoundIsLeast(bytes, n, index, 8 * at + loc);
    }
  }

  ghost predicate SetsOne(was: seq<bv8>, now: seq<bv8>, index: nat) {
    |now| == |was| && forall i: nat | i < 8 * |was| :: BitOf(now, i) <==> i == index || BitOf(was, i)
  }

  ghost predicate ClearsOne(was: seq<bv8>, now: seq<bv8>, index: nat) {
    |now| == |was| && forall i: nat | i < 8 * |was| :: BitOf(now, i) <==> i != index && BitOf(was, i)
  }

  lemma OrSetsOne(was: seq<bv8>, index: nat)
    requires index < 8 * |was|
    ensures SetsOne(was, was[index / 8 := was[index / 8] | (0x80 >> (index % 8))], index)
  {
    hide On;
    var now := was[index / 8 := was[index / 8] | (0x80 >> (index % 8))];
    forall i: nat | i < 8 * |was| ensures BitOf(now, i) <==> i == index || BitOf(was, i) {
      if i / 8 == index / 8 { OrPlace(was[index / 8], index % 8, i % 8); }
    }
  }

  lemma AndClearsOne(was: seq<bv8>, index: nat)
    requires index < 8 * |was|
    ensures ClearsOne(was, was[index / 8 := was[index / 8] & !(0x80 >> (index % 8))], index)
  {
    hide On;
    var now := was[index / 8 := was[index / 8] & !(0x80 >> (index % 8))];
    forall i: nat | i < 8 * |was| ensures BitOf(now, i) <==> i != index && BitOf(was, i) {
      if i / 8 == index / 8 { AndNotPlace(was[index / 8], index % 8, i % 8); }
    }
  }

  lemma SetAdds(was: seq<bv8>, now: seq<bv8>, n: nat, index: nat, first: nat)
    requires Padded(was, n) && Least(was, n, 0, first) && index < n && SetsOne(was, now, index)
    ensures Padded(now, n) && Least(now, n, 0, if index < first then index else first)
    ensures IndexSet(now, n) == IndexSet(was, n) + {index}
  {
    hide BitOf;
  }

  lemma ClearRemoves(was: seq<bv8>, now: seq<bv8>, n: nat, index: nat, first: nat)
    requires Padded(was, n) && Least(was, n, 0, first) && index < n && ClearsOne(was, now, index)
    ensures Padded(now, n)
    ensures IndexSet(now, n) == IndexSet(was, n) - {index}
    ensures forall i: nat | i < first :: !BitOf(now, i)
    ensures index != first ==> Least(now, n, 0, first)
  {
    hide BitOf;
  }

  class ProtoBitmask {
    const mask: array<bv8>
    const numBits: nat
    var firstSet: nat

    ghost predicate Sized() {
      mask.Length == (numBits + 7) / 8
    }

    ghost function Members(): set<nat>
      requires Sized()
      reads mask
    {
      IndexSet(mask[..], numBits)
    }

    /** Padding is zero, and first_set is the least member, or num_bits if there is none. */
    ghost predicate Valid()
      reads this, mask
    {
      Sized() && Padded(mask[..], numBits) && Least(mask[..], numBits, 0, firstSet)
    }

    constructor (numBits: nat)
      ensures Valid() && Members() == {} && this.numBits == numBits
    {
      mask := new bv8[(numBits + 7) / 8](_ => 0);
      this.numBits, firstSet := numBits, numBits;
      new;
      ZeroByte(0);
    }

    method Clear()
      requires Sized()
      modifies this, mask
      ensures Valid() && Members() == {}
    {
      forall k | 0 <= k < mask.Length { mask[k] := 0; }
      firstSet := numBits;
      ZeroByte(0);
    }

    method Reset()
      requires Sized() && numBits > 0
      modifies this, mask
      ensures Valid() && (forall i: nat :: i in Members() <==> i < numBits)
    {
      var last := mask.Length - 1;
      forall k | 0 <= k < last { mask[k] := 0xff; }
      var shift := (8 - numBits % 8) % 8;
      mask[last] := 0xff << shift;
      firstSet := 0;
      ghost var bytes := mask[..];
      forall i: nat | i < 8 * |bytes| ensures BitOf(bytes, i) <==> i < numBits {
        ShiftedOnes(if i / 8 == last then shift else 0, i % 8);
      }
    }

    method Test(index: nat) returns (r: bool)
      requires Valid()
      ensures r <==> index in Members()
    {
      r := index < numBits && mask[index / 8] & (0x80 >> (index % 8)) != 0;
    }

    method GetFirstSet() returns (index: nat, ok: bool)
      requires Valid()
      ensures ok <==> Members() != {}
      ensures ok ==> index in Members() && forall i | i in Members() :: index <= i
    {
      index, ok := firstSet, firstSet < numBits;
      LeastIsLeast(mask[..], numBits, firstSet);
    }

    /** The first place from remainder on that is on in one byte, looked up in its list of places. */
    static method NextInByte(b: bv8, remainder: nat) returns (loc: nat, found: bool)
      requires remainder <= 7
      ensures found ==> remainder <= loc < 8 && On(b, loc) && forall k | remainder <= k < loc :: !On(b, k)
      ensures !found ==> forall k | remainder <= k < 8 :: !On(b, k)
    {
      hide On;
      var locations := Locations(b, 0);
      for i := 0 to |locations|
        invariant forall j | 0 <= j < i :: locations[j] < remainder
      {
        loc := locations[i];
        if loc >= remainder {
          forall k: nat | remainder <= k < loc ensures !On(b, k) {
            NotListed(locations, i, k);
          }
          return loc, true;
        }
      }
      return 0, false;
    }

    /** The bytes after the given index's own, each looked up when it is not zero. */
    method NextAfterByte(index: nat) returns (next: nat, ok: bool)
      requires Padded(mask[..], numBits) && index < numBits
      requires forall i: nat | index <= i < 8 * (index / 8 + 1) :: !BitOf(mask[..], i)
      ensures Least(mask[..], numBits, index, if ok then next else numBits)
      ensures ok ==> next < numBits
    {
      hide On, BitOf;
      ghost var bytes := mask[..];
      var maskIndex := index / 8 + 1;
      while maskIndex < mask.Length
        invariant index < 8 * maskIndex <= 8 * mask.Length
        invariant forall i: nat | index <= i < 8 * maskIndex :: !BitOf(bytes, i)
      {
        LookUp(bytes, numBits, index, maskIndex);
        if mask[maskIndex] != 0 {
          return 8 * maskIndex + Locations(mask[maskIndex], 0)[0], true;
        }
        maskIndex := maskIndex + 1;
      }
      return index, false;
    }

    /** The least index from the given one on whose bit is on, also while first_set is only a lower bound. */
    method GetNextSet(index: nat) returns (next: nat, ok: bool)
      requires Padded(mask[..], numBits) && firstSet <= numBits
      requires forall i: nat | i < firstSet :: !BitOf(mask[..], i)
      requires index < firstSet ==> Least(mask[..], numBits, 0, firstSet)
      ensures index < numBits ==> Least(mask[..], numBits, index, if ok then next else numBits)
      ensures ok ==> next < numBits
      ensures index >= numBits ==> !ok
    {
      if index >= numBits { return index, false; }
      hide On, BitOf;
      if index < firstSet { return firstSet, firstSet < numBits; }
      ghost var bytes := mask[..];
      var maskIndex := index / 8;
      ZeroByte(mask[maskIndex]);
      if mask[maskIndex] != 0 {
        var loc, found := NextInByte(mask[maskIndex], index % 8);
        if found {
          FoundInByte(bytes, index, maskIndex, index % 8, loc);
          FoundIsLeast(bytes, numBits, index, 8 * maskIndex + loc);
          return 8 * maskIndex + loc, true;
        }
      }
      NothingInByte(bytes, index, maskIndex, index % 8);
      next, ok := NextAfterByte(index);
    }

    method Set(index: nat) returns (ok: bool)
      requires Valid()
      modifies this`firstSet, mask
      ensures Valid() && (ok <==> index < numBits)
      ensures Members() == if ok then old(Members()) + {index} else old(Members())
    {
      if index >= numBits { return false; }
      hide On, BitOf, Least, IndexSet, SetsOne;
      ghost var was := mask[..];
      OrSetsOne(was, index);
      mask[index / 8] := mask[index / 8] | (0x80 >> (index % 8));
      SetAdds(was, mask[..], numBits, index, firstSet);
      if index < firstSet { firstSet := index; }
      ok := true;
    }

    method Unset(index: nat) returns (ok: bool)
      requires Valid()
      modifies this`firstSet, mask
      ensures Valid() && ok && Members() == old(Members()) - {index}
    {
      ok := true;
      if index < numBits {
        hide On, BitOf, IndexSet, ClearsOne;
        ghost var was := mask[..];
        AndClearsOne(was, index);
        mask[index / 8] := mask[index / 8] & !(0x80 >> (index % 8));
        ClearRemoves(was, mask[..], numBits, index, firstSet);
        if index == firstSet {
          var next, found := GetNextSet(firstSet);
          firstSet := if found then next else numBits;
        }
      }
    }

    method Invert(index: nat) returns (ok: bool)
      requires Valid()
      modifies this`firstSet, mask
      ensures Valid() && (ok <==> index < numBits)
      ensures Members() == if index in old(Members()) then old(Members()) - {index}
                           else if ok then old(Members()) + {index} else old(Members())
    {
      var on := Test(index);
      hide BitOf, Least, Padded;
      if on {
        ok := Unset(index);
      } else {
        ok := Set(index);
      }
    }
  }
}
