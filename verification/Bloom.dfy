/** The Bloom filter that answers "definitely not stored" for value ids. */
module Bloom {
  import opened Codec
  import opened ValueGraph

  const HASHES: nat := 7

  function NextPowerOfTwoFrom(n: nat, p: nat): (r: nat)
    requires p in {1, 2, 4, 8, 16, 32} || (p > 0 && p % 64 == 0)
    ensures r >= n && (n >= 64 ==> r % 64 == 0)
    decreases n - p
  {
    if p >= n then p else NextPowerOfTwoFrom(n, 2 * p)
  }

  ghost predicate IsPowerOfTwo(m: nat) {
    m == 1 || (m > 0 && m % 2 == 0 && IsPowerOfTwo(m / 2))
  }

  /** The first power of two that is large enough. */
  lemma {:induction false} NextPowerIs(n: nat, p: nat)
    requires (p in {1, 2, 4, 8, 16, 32} || (p > 0 && p % 64 == 0)) && IsPowerOfTwo(p) && (p == 1 || p < 2 * n)
    ensures var r := NextPowerOfTwoFrom(n, p); IsPowerOfTwo(r) && (r == 1 || r < 2 * n)
    decreases n - p
  {
    if p < n {
      assert (2 * p) / 2 == p;
      NextPowerIs(n, 2 * p);
    }
  }

  /** Ten bits per expected item, at least 640, in the smallest power of two that has room for them. */
  lemma BitsForIs(expected: nat)
    ensures var n, m := (if expected > 64 then expected else 64) * 10, BitsFor(expected);
      IsPowerOfTwo(m) && n <= m < 2 * n
  {
    NextPowerIs((if expected > 64 then expected else 64) * 10, 1);
  }

  /** Ten bits per expected item, rounded up to a power of two. */
  function BitsFor(expected: nat): (m: nat)
    ensures m >= 640 && m % 64 == 0
  {
    NextPowerOfTwoFrom((if expected > 64 then expected else 64) * 10, 1)
  }

  /** The `i`-th bit position of an id: double hashing over its two little-endian halves, in wrapping u64 arithmetic. */
  function Slot(id: ValueId, m: nat, i: nat): (pos: nat)
    requires m > 0
    ensures pos < m
  {
    (FromLe(id[0..8]) + i * FromLe(id[8..16]) + i) % U64 % m
  }

  /** Double hashing: the positions start at the low half of the id and go on in steps of the high half and one, round a
      filter whose size divides 2^64. */
  lemma SlotsStep(id: ValueId, m: nat, i: nat)
    requires m > 0 && U64 % m == 0
    ensures Slot(id, m, 0) == FromLe(id[0..8]) % m
    ensures Slot(id, m, i + 1) == (Slot(id, m, i) + FromLe(id[8..16]) + 1) % m
  {
    var low, high := FromLe(id[0..8]), FromLe(id[8..16]);
    ModOfMod(low, m);
    var x := low + i * high + i;
    ModOfMod(x, m);
    assert (i + 1) * high == i * high + high;
    ModOfMod(x + high + 1, m);
    ModAdds(x, high + 1, m);
  }

  lemma ModOfMod(x: nat, m: nat)
    requires m > 0 && U64 % m == 0
    ensures x % U64 % m == x % m
  {
    var q, c := x / U64, U64 / m;
    assert U64 == m * c;
    assert x == U64 * q + x % U64;
    Rearrange(m, c, q);
    ModShifts(x % U64, c * q, m);
  }

  lemma Rearrange(m: nat, c: nat, q: nat)
    ensures m * c * q == m * (c * q)
  {
  }

  lemma ModShifts(r: nat, k: nat, m: nat)
    requires m > 0
    ensures (m * k + r) % m == r % m
    decreases k
  {
    if k > 0 {
      ModShifts(r, k - 1, m);
      assert m * k + r == (m * (k - 1) + r) + m;
      ModOnce(m * (k - 1) + r, m);
    }
  }

  lemma ModOnce(x: nat, m: nat)
    requires m > 0
    ensures (x + m) % m == x % m
  {
    var q, r := x / m, x % m;
    OneMoreTime(m, q);
    RemainderIs(x + m, m, q + 1, r);
  }

  lemma OneMoreTime(m: nat, q: nat)
    ensures m * (q + 1) == m * q + m
  {
  }

  lemma RemainderIs(n: nat, m: nat, k: nat, r: nat)
    requires m > 0 && n == m * k + r && r < m
    ensures n % m == r
  {
    var q, s := n / m, n % m;
    assert n == m * q + s;
    if k < q {
      OneMoreTime(m, k);
      TimesGrows(m, k + 1, q);
    } else if q < k {
      OneMoreTime(m, q);
      TimesGrows(m, q + 1, k);
    }
  }

  lemma TimesGrows(m: nat, a: nat, b: nat)
    requires a <= b
    ensures m * a <= m * b
  {
  }

  lemma ModAdds(x: nat, y: nat, m: nat)
    requires m > 0
    ensures (x + y) % m == (x % m + y) % m
  {
    assert x == m * (x / m) + x % m;
    ModShifts(x % m + y, x / m, m);
  }

  function Bit(k: nat): (b: bv64)
    requires k < 64
    ensures b != 0
  {
    1 << (k as bv7)
  }

  function And(w: bv64, c: bv64): bv64 {
    w & c
  }

  function Or(w: bv64, b: bv64): bv64 {
    w | b
  }

  lemma OrSame(w: bv64, b: bv64)
    requires b != 0
    ensures And(Or(w, b), b) != 0
  {
  }

  lemma OrOther(w: bv64, b: bv64, c: bv64)
    requires And(b, c) == 0
    ensures And(Or(w, b), c) == And(w, c)
  {
  }

  /** Setting one bit of a word says nothing about another. */
  lemma OtherBit(w: bv64, i: nat, j: nat)
    requires i < 64 && j < 64
    ensures if i == j then And(Or(w, Bit(i)), Bit(j)) != 0 else And(Or(w, Bit(i)), Bit(j)) == And(w, Bit(j))
  {
    hide And, Or, Bit;
    if i == j {
      OrSame(w, Bit(i));
    } else {
      BitsDisjoint(i, j);
      OrOther(w, Bit(i), Bit(j));
    }
  }

  predicate IsSet(bits: seq<bv64>, pos: nat)
    requires pos / 64 < |bits|
  {
    And(bits[pos / 64], Bit(pos % 64)) != 0
  }

  function Set(bits: seq<bv64>, pos: nat): (r: seq<bv64>)
    requires pos / 64 < |bits|
    ensures |r| == |bits|
  {
    bits[pos / 64 := Or(bits[pos / 64], Bit(pos % 64))]
  }

  /** Setting a bit sets that one and no other. */
  lemma SetSetsOne(bits: seq<bv64>, pos: nat, other: nat)
    requires pos / 64 < |bits| && other / 64 < |bits|
    ensures IsSet(Set(bits, pos), other) <==> IsSet(bits, other) || other == pos
  {
    hide And, Or, Bit;
    OtherBit(bits[pos / 64], pos % 64, other % 64);
    SamePlace(other, pos);
  }

  lemma SamePlace(a: nat, b: nat)
    ensures a / 64 == b / 64 && a % 64 == b % 64 ==> a == b
  {
  }

  lemma BitsDisjoint(i: nat, j: nat)
    requires i < 64 && j < 64 && i != j
    ensures And(Bit(i), Bit(j)) == 0
  {
    hide Bit;
    BackAgain(i);
    BackAgain(j);
    BitIs(i);
    BitIs(j);
    ShiftsDisjoint(i as bv7, j as bv7);
  }

  lemma BackAgain(i: nat)
    requires i < 64
    ensures (i as bv7) as nat == i && (i as bv7) < 64
  {
  }

  lemma BitIs(i: nat)
    requires i < 64
    ensures Bit(i) == (1 as bv64) << (i as bv7)
  {
  }

  lemma ShiftsDisjoint(i: bv7, j: bv7)
    requires i < 64 && j < 64 && i != j
    ensures ((1 as bv64) << i) & ((1 as bv64) << j) == 0
  {
  }

  /** One of the first `n` positions of the id. */
  predicate IsSlot(id: ValueId, m: nat, n: nat, pos: nat)
    requires m > 0
  {
    exists i: nat {:trigger Slot(id, m, i)} :: i < n && Slot(id, m, i) == pos
  }

  predicate Admits(bits: seq<bv64>, id: ValueId)
    requires |bits| > 0
  {
    forall i {:trigger Slot(id, 64 * |bits|, i)} :: 0 <= i < HASHES ==> IsSet(bits, Slot(id, 64 * |bits|, i))
  }

  class BloomFilter {
    var bits: seq<bv64>
    const mBits: nat
    var count: nat

    ghost predicate Valid()
      reads this
    {
      |bits| > 0 && mBits == 64 * |bits|
    }

    constructor (expected: nat)
      ensures Valid() && count == 0 && mBits == BitsFor(expected)
    {
      var m := BitsFor(expected);
      mBits := m;
      bits := seq(m / 64, _ => 0);
      count := 0;
    }

    /** Sets the seven bits of `id`, and no other, and clears none, so no id admitted before is denied afterwards. */
    method Insert(id: ValueId)
      requires Valid()
      modifies this
      ensures Valid() && count == old(count) + 1
      ensures Admits(bits, id)
      ensures forall x: ValueId :: old(Admits(bits, x)) ==> Admits(bits, x)
      ensures |bits| == old(|bits|)
      ensures forall i: nat {:trigger Slot(id, mBits, i)} :: i < 7 ==> IsSet(bits, Slot(id, mBits, i))
      ensures forall pos: nat :: pos < mBits && IsSet(bits, pos) ==> IsSet(old(bits), pos) || IsSlot(id, mBits, 7, pos)
    {
      hide IsSet, Set, Slot, Bit, And, Or;
      for i := 0 to HASHES
        invariant Valid() && |bits| == old(|bits|) && count == old(count)
        invariant forall pos: nat :: pos < mBits && IsSet(old(bits), pos) ==> IsSet(bits, pos)
        invariant forall j :: 0 <= j < i ==> IsSet(bits, Slot(id, mBits, j))
        invariant forall pos: nat :: pos < mBits && IsSet(bits, pos) ==> IsSet(old(bits), pos) || IsSlot(id, mBits, i, pos)
      {
        var pos := Slot(id, mBits, i);
        forall other: nat | other < mBits
          ensures IsSet(Set(bits, pos), other) <==> IsSet(bits, other) || other == pos
        {
          SetSetsOne(bits, pos, other);
        }
        bits := Set(bits, pos);
      }
      count := count + 1;
    }

    method MaybeContains(id: ValueId) returns (r: bool)
      requires Valid()
      ensures r == Admits(bits, id)
    {
      for i := 0 to HASHES
        invariant forall j :: 0 <= j < i ==> IsSet(bits, Slot(id, mBits, j))
      {
        if !IsSet(bits, Slot(id, mBits, i)) {
          return false;
        }
      }
      return true;
    }
  }
}
