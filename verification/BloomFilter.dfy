/** mfbt/BloomFilter.h: a set of hashes that may say yes too often, but never no to a member. */
module BloomFilters {
  import opened PowersOfTwo

  const KEY_SHIFT: nat := 16
  const UINT8_MAX: nat := 255

  function ShiftRight(x: nat, k: nat): nat
    decreases k
  {
    if k == 0 then x else ShiftRight(x / 2, k - 1)
  }

  /** The two slots of a hash: its low bits, and as many bits from KEY_SHIFT on. They may coincide. */
  function Hash1(keySize: nat, hash: nat): (k: nat)
    ensures k < Pow2(keySize)
  {
    MaskIsRest(hash, keySize);
    BitAnd(hash, Pow2(keySize) - 1)
  }

  function Hash2(keySize: nat, hash: nat): (k: nat)
    ensures k < Pow2(keySize)
  {
    MaskIsRest(ShiftRight(hash, KEY_SHIFT), keySize);
    BitAnd(ShiftRight(hash, KEY_SHIFT), Pow2(keySize) - 1)
  }

  lemma {:induction false} ShiftDivides(x: nat, k: nat)
    ensures ShiftRight(x, k) == x / Pow2(k)
    decreases k
  {
    if k > 0 {
      ShiftDivides(x / 2, k - 1);
      DividedTwice(x, Pow2(k - 1));
    }
  }

  lemma SixteenBits()
    ensures Pow2(16) == 65536
  {
    assert Pow2(4) == 16;
    Pow2Sum(4, 4);
    Pow2Sum(8, 8);
  }

  /** The slots in numbers. */
  lemma SlotsAre(keySize: nat, hash: nat)
    ensures Hash1(keySize, hash) == hash % Pow2(keySize)
    ensures Hash2(keySize, hash) == hash / 65536 % Pow2(keySize)
  {
    hide BitAnd;
    hide ShiftRight;
    ShiftDivides(hash, KEY_SHIFT);
    hide Pow2;
    SixteenBits();
    MaskIsRest(hash, keySize);
    MaskIsRest(ShiftRight(hash, KEY_SHIFT), keySize);
  }

  /** How often an item hits the slot k. */
  function HitsOf(keySize: nat, hash: nat, k: nat): nat {
    (if Hash1(keySize, hash) == k then 1 else 0) + (if Hash2(keySize, hash) == k then 1 else 0)
  }

  function AtMost255(n: nat): nat {
    if n < 255 then n else 255
  }

  /** How often all items together hit it. */
  function Hits(keySize: nat, items: seq<nat>, k: nat): nat {
    if items == [] then 0
    else Hits(keySize, items[..|items| - 1], k) + HitsOf(keySize, items[|items| - 1], k)
  }

  lemma HitsMore(keySize: nat, items: seq<nat>, hash: nat, k: nat)
    ensures Hits(keySize, items + [hash], k) == Hits(keySize, items, k) + HitsOf(keySize, hash, k)
  {
    assert (items + [hash])[..|items|] == items;
  }

  /** An item that is taken out takes its hits along. */
  lemma {:induction false} HitsLess(keySize: nat, items: seq<nat>, i: nat, k: nat)
    requires i < |items|
    ensures Hits(keySize, items, k) == Hits(keySize, items[..i] + items[i + 1..], k) + HitsOf(keySize, items[i], k)
  {
    hide HitsOf;
    var n := |items| - 1;
    var rest := items[..i] + items[i + 1..];
    if i < n {
      HitsLess(keySize, items[..n], i, k);
      assert rest[..n - 1] == items[..n][..i] + items[..n][i + 1..] && rest[n - 1] == items[n];
    } else {
      assert rest == items[..n];
    }
  }

  /** An item that is in hits both of its slots. */
  lemma MemberHits(keySize: nat, items: seq<nat>, hash: nat)
    requires hash in items
    ensures Hits(keySize, items, Hash1(keySize, hash)) >= 1 && Hits(keySize, items, Hash2(keySize, hash)) >= 1
    ensures Hash1(keySize, hash) == Hash2(keySize, hash) ==> Hits(keySize, items, Hash1(keySize, hash)) >= 2
  {
    var i :| 0 <= i < |items| && items[i] == hash;
    HitsLess(keySize, items, i, Hash1(keySize, hash));
    HitsLess(keySize, items, i, Hash2(keySize, hash));
  }

  class BloomFilter {
    const keySize: nat
    const mCounters: array<nat>
    ghost var items: seq<nat>    // the hashes that are in, each as often as it was added

    /** A counter tells the number of hits, or is stuck at its maximum. */
    ghost predicate Valid()
      reads this, mCounters
    {
      && mCounters.Length == Pow2(keySize)
      && forall k :: 0 <= k < mCounters.Length ==>
           mCounters[k] == UINT8_MAX || (mCounters[k] < UINT8_MAX && mCounters[k] == Hits(keySize, items, k))
    }

    constructor (keySize: nat)
      ensures Valid() && this.keySize == keySize && items == [] && fresh(mCounters)
      ensures forall k :: 0 <= k < mCounters.Length ==> mCounters[k] == 0
    {
      this.keySize := keySize;
      mCounters := new nat[Pow2(keySize)];
      items := [];
      new;
      Clear();
    }

    /** The only way to free a counter that is stuck. */
    method Clear()
      requires mCounters.Length == Pow2(keySize)
      modifies this, mCounters
      ensures Valid() && items == [] && forall k :: 0 <= k < mCounters.Length ==> mCounters[k] == 0
    {
      for k := 0 to mCounters.Length
        invariant forall j :: 0 <= j < k ==> mCounters[j] == 0
      {
        mCounters[k] := 0;
      }
      items := [];
    }

    predicate Full(k: nat)
      requires k < mCounters.Length
      reads mCounters
    {
      mCounters[k] == UINT8_MAX
    }

    /** One more hit of the slot k, unless it is stuck. */
    method Increment(k: nat)
      requires k < mCounters.Length && mCounters[k] <= UINT8_MAX
      modifies mCounters
      ensures mCounters[k] == if old(mCounters[k]) == UINT8_MAX then UINT8_MAX else old(mCounters[k]) + 1
      ensures forall j :: 0 <= j < mCounters.Length && j != k ==> mCounters[j] == old(mCounters[j])
    {
      if !Full(k) {
        mCounters[k] := mCounters[k] + 1;
      }
    }

    method Decrement(k: nat)
      requires k < mCounters.Length && 0 < mCounters[k] <= UINT8_MAX
      modifies mCounters
      ensures mCounters[k] == if old(mCounters[k]) == UINT8_MAX then UINT8_MAX else old(mCounters[k]) - 1
      ensures forall j :: 0 <= j < mCounters.Length && j != k ==> mCounters[j] == old(mCounters[j])
    {
      if !Full(k) {
        mCounters[k] := mCounters[k] - 1;
      }
    }

    method Add(hash: nat)
      requires Valid()
      modifies this, mCounters
      ensures Valid() && items == old(items) + [hash]
      ensures forall k :: 0 <= k < mCounters.Length ==>
                mCounters[k] == AtMost255(old(mCounters[k]) + HitsOf(keySize, hash, k))
    {
      hide Hits;
      var k1, k2 := Hash1(keySize, hash), Hash2(keySize, hash);
      Increment(k1);
      Increment(k2);
      forall k | 0 <= k < mCounters.Length {
        HitsMore(keySize, items, hash, k);
      }
      items := items + [hash];
    }

    /** Takes out an item that is in. A counter that is stuck stays as it is, since nobody knows how
        often it would have been counted. No counter goes below zero. */
    method Remove(hash: nat, ghost i: nat)
      requires Valid() && i < |items| && items[i] == hash
      modifies this, mCounters
      ensures Valid() && items == old(items[..i] + items[i + 1..])
      ensures forall k :: 0 <= k < mCounters.Length ==>
                mCounters[k] == if old(mCounters[k]) == UINT8_MAX then UINT8_MAX
                                else old(mCounters[k]) - HitsOf(keySize, hash, k)
    {
      hide Hits;
      var k1, k2 := Hash1(keySize, hash), Hash2(keySize, hash);
      MemberHits(keySize, items, hash);
      Decrement(k1);
      Decrement(k2);
      forall k | 0 <= k < mCounters.Length {
        HitsLess(keySize, items, i, k);
      }
      items := items[..i] + items[i + 1..];
    }

    /** Never false for an item that is in; true for another one only if each of its slots is hit by
        some item, or stuck. */
    method MightContain(hash: nat) returns (r: bool)
      requires Valid()
      ensures hash in items ==> r
      ensures r <==> forall k :: k == Hash1(keySize, hash) || k == Hash2(keySize, hash) ==>
                       Hits(keySize, items, k) > 0 || mCounters[k] == UINT8_MAX
    {
      if hash in items {
        MemberHits(keySize, items, hash);
      }
      r := mCounters[Hash1(keySize, hash)] != 0 && mCounters[Hash2(keySize, hash)] != 0;
    }
  }
}
