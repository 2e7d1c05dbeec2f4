/** mfbt/Vector.h: which capacity a vector grows to, and what the growing costs. */
module VectorGrowth {
  import opened PowersOfTwo

  /** The width of size_t, sizeof(T), and how many elements fit into the vector itself. */
  datatype Config = Config(wordBits: nat, elemSize: nat, inlineCapacity: nat) {
    /** The constant expressions of the class template do not overflow. */
    ghost predicate Compiles() {
      && 0 < wordBits && 0 < elemSize && 4 * elemSize < Pow2(wordBits)
      && Bytes(inlineCapacity + 1) <= Pow2(wordBits - 1)
    }

    function Bytes(n: nat): nat {
      n * elemSize
    }

    lemma BytesDouble(n: nat)
      ensures Bytes(2 * n) == 2 * Bytes(n) && Bytes(1) == elemSize
      ensures Bytes(2 * n + 1) == 2 * Bytes(n) + elemSize
    {
    }

    lemma BytesOneMore(n: nat)
      ensures Bytes(n + 1) == Bytes(n) + elemSize
    {
    }

    lemma BytesGrow(m: nat, n: nat)
      requires m <= n
      ensures Bytes(m) <= Bytes(n)
    {
      Times(m, n, elemSize);
    }

    function Fitting(p: nat): nat
      requires 0 < elemSize
    {
      p / elemSize
    }

    /** The elements that fit into p bytes. */
    lemma BytesFit(p: nat, n: nat)
      requires 0 < elemSize
      ensures Bytes(Fitting(p)) <= p < Bytes(Fitting(p)) + elemSize
      ensures Bytes(n) <= p ==> n <= Fitting(p)
    {
      var q := p / elemSize;
      assert p == q * elemSize + p % elemSize;
      if q < n {
        BytesGrow(q + 1, n);
        BytesOneMore(q);
      }
    }
  }

  /** The bytes of so many elements can be counted in a word, and rounded up to a power of two. */
  predicate Countable(c: Config, cap: nat) {
    0 < c.wordBits && c.Bytes(cap) <= Pow2(c.wordBits - 1)
  }

  /** A buffer of this capacity could hold another element without reaching the next power of two. */
  predicate CapacityHasExcessSpace(c: Config, cap: nat)
    requires Countable(c, cap)
  {
    RoundUpPow2Word(c.wordBits, c.Bytes(cap)) - c.Bytes(cap) >= c.elemSize
  }

  /** A capacity is tight if and only if it is what fits into some power of two. */
  lemma TightIfFills(c: Config, cap: nat, k: nat)
    requires Countable(c, cap) && c.Bytes(cap) <= Pow2(k) < c.Bytes(cap) + c.elemSize
    ensures !CapacityHasExcessSpace(c, cap)
  {
    RoundUpPow2Least(c.Bytes(cap), k);
  }

  lemma TightOnlyIfFills(c: Config, cap: nat) returns (k: nat)
    requires Countable(c, cap) && !CapacityHasExcessSpace(c, cap)
    ensures c.Bytes(cap) <= Pow2(k) < c.Bytes(cap) + c.elemSize
  {
    var size := c.Bytes(cap);
    k := if size == 0 then 0 else CeilingLog2(size);
    RoundUpPow2Least(size, k);
  }

  /** The test that length times factor times the element size overflows, for a factor of 2 or 4. */
  predicate Overflows(c: Config, length: nat, factor: nat)
    requires c.Compiles() && 0 < factor <= 4
  {
    LogFits(c.wordBits, factor * c.elemSize);
    BitAnd(length, MulOverflowMask(c.wordBits, factor * c.elemSize)) != 0
  }

  lemma LogFits(bits: nat, n: nat)
    requires 0 < n < Pow2(bits)
    ensures CeilingLog2(n) <= bits
  {
    CeilingLog2Bounds(n);
    if bits < CeilingLog2(n) {
      Pow2Grows(bits, CeilingLog2(n) - 1);
    }
  }

  lemma Product3(a: nat, b: nat, c: nat)
    ensures a * (b * c) == b * (a * c)
  {
    calc {
      a * (b * c);
      (a * b) * c;
      (b * a) * c;
      b * (a * c);
    }
  }

  lemma PassesFactor(c: Config, length: nat, factor: nat)
    requires c.Compiles() && length < Pow2(c.wordBits) && 0 < factor <= 4 && !Overflows(c, length, factor)
    ensures factor * c.Bytes(length) < Pow2(c.wordBits)
  {
    hide Pow2;
    LogFits(c.wordBits, factor * c.elemSize);
    UnderMask(c.wordBits, factor * c.elemSize, length);
    Product3(length, factor, c.elemSize);
  }

  lemma UnderMask(bits: nat, m: nat, length: nat)
    requires 0 < m && CeilingLog2(m) <= bits && length < Pow2(bits)
    requires BitAnd(length, MulOverflowMask(bits, m)) == 0
    ensures length * m < Pow2(bits)
  {
    MulOverflowMaskSound(bits, m, length);
  }

  /** A length that passes can be multiplied, by 4 or by 2, and still be counted in bytes. */
  lemma PassesTest(c: Config, length: nat)
    requires c.Compiles() && length < Pow2(c.wordBits)
    ensures !Overflows(c, length, 4) ==> Countable(c, 2 * length)
    ensures !Overflows(c, length, 2) ==> Countable(c, length)
  {
    hide Overflows;
    hide Config.Bytes;
    if !Overflows(c, length, 4) {
      PassesFactor(c, length, 4);
    }
    if !Overflows(c, length, 2) {
      PassesFactor(c, length, 2);
    }
    c.BytesDouble(length);
  }

  /** Addition in size_t. */
  function WordSum(a: nat, b: nat, word: nat): (r: nat)
    requires a < word && b < word
    ensures r < word && (r < a <==> a + b >= word)
  {
    if a + b < word then a + b else a + b - word
  }

  datatype Choice = Overflow | Capacity(cap: nat)

  /** growStorageBy, up to the point where memory is asked for. */
  function ChooseCapacity(c: Config, inlined: bool, length: nat, incr: nat): Choice
    requires c.Compiles()
    requires length < Pow2(c.wordBits) && incr < Pow2(c.wordBits)
  {
    if incr == 1 then
      if inlined then Capacity(c.Fitting(RoundUpPow2(c.Bytes(c.inlineCapacity + 1))))
      else if length == 0 then Capacity(1)
      else if Overflows(c, length, 4) then Overflow
      else
        PassesTest(c, length);
        if CapacityHasExcessSpace(c, 2 * length) then Capacity(2 * length + 1) else Capacity(2 * length)
    else
      var minCap := WordSum(length, incr, Pow2(c.wordBits));
      if minCap < length || Overflows(c, minCap, 2) then Overflow
      else
        PassesTest(c, minCap);
        Capacity(c.Fitting(RoundUpPow2Word(c.wordBits, c.Bytes(minCap))))
  }

  /** Whether a size can be chosen, in numbers: the bound for a single element is there only on the heap and
      for a vector that is not empty; it and the bound for more of them leave two bits, or one, to spare. */
  ghost predicate CanGrow(c: Config, inlined: bool, length: nat, incr: nat)
    requires c.Compiles()
  {
    LogFits(c.wordBits, 4 * c.elemSize);
    LogFits(c.wordBits, 2 * c.elemSize);
    if incr == 1 then inlined || length == 0 || length < Pow2(c.wordBits - CeilingLog2(4 * c.elemSize))
    else length + incr < Pow2(c.wordBits - CeilingLog2(2 * c.elemSize))
  }

  lemma OverflowsIff(c: Config, length: nat, factor: nat)
    requires c.Compiles() && 0 < factor <= 4 && length < Pow2(c.wordBits)
    ensures CeilingLog2(factor * c.elemSize) <= c.wordBits
    ensures Overflows(c, length, factor) <==> length >= Pow2(c.wordBits - CeilingLog2(factor * c.elemSize))
  {
    hide Pow2;
    LogFits(c.wordBits, factor * c.elemSize);
    MulOverflowMaskSound(c.wordBits, factor * c.elemSize, length);
  }

  /** The masks, and the sum that may wrap around, decide exactly that. */
  lemma ChosenIff(c: Config, inlined: bool, length: nat, incr: nat)
    requires c.Compiles() && length < Pow2(c.wordBits) && incr < Pow2(c.wordBits)
    ensures ChooseCapacity(c, inlined, length, incr).Capacity? <==> CanGrow(c, inlined, length, incr)
  {
    hide Overflows;
    hide CapacityHasExcessSpace;
    if incr == 1 {
      OverflowsIff(c, length, 4);
    } else {
      var minCap := WordSum(length, incr, Pow2(c.wordBits));
      OverflowsIff(c, minCap, 2);
      Pow2Grows(c.wordBits - CeilingLog2(2 * c.elemSize), c.wordBits);
      hide Pow2;
    }
  }

  /** What fits into the next power of two, for a number of elements that is not 0. */
  lemma RoundedIsTight(c: Config, n: nat)
    requires 0 < c.elemSize && 0 < n && Countable(c, n)
    ensures c.Fitting(RoundUpPow2(c.Bytes(n))) >= n
    ensures c.Bytes(c.Fitting(RoundUpPow2(c.Bytes(n)))) < 2 * c.Bytes(n)
    ensures Countable(c, c.Fitting(RoundUpPow2(c.Bytes(n))))
    ensures !CapacityHasExcessSpace(c, c.Fitting(RoundUpPow2(c.Bytes(n))))
  {
    hide Config.Bytes;
    hide Config.Fitting;
    var p := RoundUpPow2(c.Bytes(n));
    RoundUpPow2Least(c.Bytes(n), c.wordBits - 1);
    c.BytesFit(p, n);
    c.BytesGrow(1, n);
    c.BytesDouble(0);
    TightIfFills(c, c.Fitting(p), CeilingLog2(c.Bytes(n)));
  }

  /** Doubling a tight capacity, and adding one if there is space for it, gives a tight one. */
  lemma DoubledIsTight(c: Config, cap: nat)
    requires 0 < c.elemSize && 0 < cap && Countable(c, cap) && !CapacityHasExcessSpace(c, cap)
    requires Countable(c, 2 * cap) && CapacityHasExcessSpace(c, 2 * cap)
    ensures Countable(c, 2 * cap + 1) && !CapacityHasExcessSpace(c, 2 * cap + 1)
  {
    hide Config.Bytes;
    var size := c.Bytes(cap);
    c.BytesGrow(1, cap);
    c.BytesDouble(0);
    c.BytesDouble(cap);
    var k := CeilingLog2(size);
    RoundUpPow2Least(size, k);
    RoundUpPow2Least(2 * size, k + 1);
    RoundUpPow2Least(2 * size, c.wordBits - 1);
    TightIfFills(c, 2 * cap + 1, k + 1);
  }

  /** What growStorageBy promises: room for what was asked, a byte count that does not overflow,
      and no space wasted. The length is the capacity when a single element is asked for, which is
      what the callers' test makes sure of. */
  lemma ChosenIsTight(c: Config, inlined: bool, length: nat, incr: nat, capacity: nat)
    requires c.Compiles() && length < Pow2(c.wordBits) && 0 < incr < Pow2(c.wordBits)
    requires length <= capacity < length + incr
    requires if inlined then capacity == c.inlineCapacity
             else Countable(c, capacity) && (capacity > 0 ==> !CapacityHasExcessSpace(c, capacity))
    requires ChooseCapacity(c, inlined, length, incr).Capacity?
    ensures var cap := ChooseCapacity(c, inlined, length, incr).cap;
            && cap >= length + incr && Countable(c, cap) && !CapacityHasExcessSpace(c, cap)
            && (incr == 1 && !inlined ==> cap >= 2 * length) && c.Bytes(cap) < 2 * c.Bytes(length + incr)
  {
    hide Config.Bytes;
    hide Config.Fitting;
    hide Overflows;
    if incr == 1 {
      if inlined {
        RoundedIsTight(c, c.inlineCapacity + 1);
      } else if length == 0 {
        c.BytesGrow(1, c.inlineCapacity + 1);
        c.BytesDouble(0);
        RoundUpPow2Least(c.elemSize, 0);
      } else {
        PassesTest(c, length);
        c.BytesDouble(length);
        c.BytesDouble(0);
        c.BytesOneMore(length);
        if CapacityHasExcessSpace(c, 2 * length) {
          DoubledIsTight(c, length);
        }
      }
    } else {
      PassesTest(c, length + incr);
      RoundedIsTight(c, length + incr);
    }
  }

  /** Where a vector's elements are, how many there are, what there is room for, and how many
      elements have been carried to another buffer so far. */
  datatype Extent = Extent(inlined: bool, length: nat, capacity: nat, moved: nat)

  /** What every operation keeps: heap capacities waste no space. */
  ghost predicate Sized(c: Config, e: Extent) {
    && e.length <= e.capacity
    && if e.inlined then e.capacity == c.inlineCapacity
       else 0 < e.capacity && Countable(c, e.capacity) && !CapacityHasExcessSpace(c, e.capacity)
  }

  lemma CapacityIsWord(c: Config, e: Extent)
    requires c.Compiles() && Sized(c, e)
    ensures e.capacity < Pow2(c.wordBits)
  {
    CountableIsWord(c, if e.inlined then e.capacity + 1 else e.capacity);
  }

  lemma CountableIsWord(c: Config, n: nat)
    requires 0 < c.elemSize && Countable(c, n)
    ensures n < Pow2(c.wordBits)
  {
    Times(1, c.elemSize, n);
    assert n * c.elemSize == c.Bytes(n);
  }

  datatype Outcome = Fails | Becomes(extent: Extent)

  /** growStorageBy, given the memory it asks for. */
  function Grown(c: Config, e: Extent, incr: nat): Outcome
    requires c.Compiles() && e.length < Pow2(c.wordBits) && incr < Pow2(c.wordBits)
  {
    match ChooseCapacity(c, e.inlined, e.length, incr)
    case Overflow => Fails
    case Capacity(cap) => Becomes(Extent(false, e.length, cap, e.moved + e.length))
  }

  lemma GrownSized(c: Config, e: Extent, incr: nat)
    requires c.Compiles() && Sized(c, e) && 0 < incr < Pow2(c.wordBits) && e.length + incr > e.capacity
    ensures e.length < Pow2(c.wordBits)
    ensures Grown(c, e, incr).Becomes? ==> Sized(c, Grown(c, e, incr).extent)
                                           && Grown(c, e, incr).extent.capacity >= e.length + incr
  {
    CapacityIsWord(c, e);
    if Grown(c, e, incr).Becomes? {
      ChosenIsTight(c, e.inlined, e.length, incr, e.capacity);
    }
  }

  /** append of one element, given the memory it asks for. */
  function Appended(c: Config, e: Extent): Outcome
    requires c.Compiles() && e.length < Pow2(c.wordBits)
  {
    if e.length == e.capacity then
      match Grown(c, e, 1)
      case Fails => Fails
      case Becomes(g) => Becomes(g.(length := e.length + 1))
    else Becomes(e.(length := e.length + 1))
  }

  /** Fewer than two moves for every element appended, and fewer than there is room for. */
  ghost predicate Economical(e: Extent) {
    (if e.inlined then e.moved == 0 else e.moved < e.capacity) && (e.moved > 0 ==> e.moved < 2 * e.length)
  }

  lemma AppendKeeps(c: Config, e: Extent)
    requires c.Compiles() && Sized(c, e)
    ensures e.length < Pow2(c.wordBits)
    ensures Appended(c, e).Becomes? ==> Sized(c, Appended(c, e).extent)
    ensures Appended(c, e).Becomes? && Economical(e) ==> Economical(Appended(c, e).extent)
  {
    CapacityIsWord(c, e);
    if e.length == e.capacity {
      OneIsWord(c);
      GrownSized(c, e, 1);
      if Grown(c, e, 1).Becomes? {
        ChosenIsTight(c, e.inlined, e.length, 1, e.capacity);
      }
    }
  }

  lemma OneIsWord(c: Config)
    requires c.Compiles()
    ensures 1 < Pow2(c.wordBits)
  {
  }

  /** n appends in a row to a new vector. */
  ghost function AppendRun(c: Config, n: nat): (r: Outcome)
    requires c.Compiles()
    ensures r.Becomes? ==> Sized(c, r.extent)
  {
    if n == 0 then Becomes(Extent(true, 0, c.inlineCapacity, 0))
    else
      match AppendRun(c, n - 1)
      case Fails => Fails
      case Becomes(e) =>
        AppendKeeps(c, e);
        Appended(c, e)
  }

  /** How far single elements can be appended for sure. */
  ghost function Reach(c: Config): nat
    requires c.Compiles()
  {
    LogFits(c.wordBits, 4 * c.elemSize);
    Pow2(c.wordBits - CeilingLog2(4 * c.elemSize))
  }

  /** The overflow tests stop no run of appends that goes no further. */
  lemma {:induction false} AppendsFit(c: Config, n: nat)
    requires c.Compiles() && n <= Reach(c)
    ensures AppendRun(c, n).Becomes? && AppendRun(c, n).extent.length == n
  {
    if n > 0 {
      AppendsFit(c, n - 1);
      var e := AppendRun(c, n - 1).extent;
      AppendKeeps(c, e);
      OneIsWord(c);
      ChosenIff(c, e.inlined, e.length, 1);
    }
  }

  /** n appends move fewer than 2n elements, whatever the element size and the inline capacity. */
  lemma {:induction false} AppendsAreCheap(c: Config, n: nat)
    requires c.Compiles() && AppendRun(c, n).Becomes?
    ensures Economical(AppendRun(c, n).extent) && AppendRun(c, n).extent.length == n
    ensures n > 0 ==> AppendRun(c, n).extent.moved < 2 * n
  {
    if n > 0 {
      AppendsAreCheap(c, n - 1);
      AppendKeeps(c, AppendRun(c, n - 1).extent);
    }
  }
}

/** mfbt/Vector.h: an array that grows, for elements that are moved by copying them. Allocation may
    fail at any point: what asks for memory is given the allocator's answer, and memory tells whether it
    is yes. */
module Vectors {
  import opened PowersOfTwo
  import opened VectorGrowth

  class Vector<T(0)> {
    const config: Config
    const inlineStorage: array<T>
    var mBegin: array<T>
    var mLength: nat
    var mCapacity: nat
    ghost var moved: nat

    predicate UsingInlineStorage()
      reads this
    {
      mBegin == inlineStorage
    }

    ghost function Extents(): Extent
      reads this
    {
      Extent(UsingInlineStorage(), mLength, mCapacity, moved)
    }

    ghost predicate Valid()
      reads this
    {
      && config.Compiles() && inlineStorage.Length == config.inlineCapacity
      && mBegin.Length == mCapacity && Sized(config, Extents())
    }

    ghost function Elements(): seq<T>
      requires Valid()
      reads this, mBegin
    {
      mBegin[..mLength]
    }

    constructor (c: Config)
      requires c.Compiles()
      ensures Valid() && config == c && fresh(mBegin) && Elements() == []
      ensures Extents() == Extent(true, 0, c.inlineCapacity, 0)
    {
      config := c;
      inlineStorage := new T[c.inlineCapacity];
      new;
      mBegin, mLength, mCapacity, moved := inlineStorage, 0, c.inlineCapacity, 0;
    }

    /** Carries the elements over to newBuf, and counts them. */
    method MoveElements(newBuf: array<T>)
      requires Valid() && mLength <= newBuf.Length && newBuf != mBegin
      modifies newBuf, this`moved
      ensures Valid() && newBuf[..mLength] == Elements() == old(Elements()) && moved == old(moved) + mLength
    {
      var i := 0;
      while i < mLength
        invariant i <= mLength && newBuf[..i] == Elements()[..i] && moved == old(moved) + i
      {
        newBuf[i] := mBegin[i];
        i, moved := i + 1, moved + 1;
      }
    }

    method ConvertToHeapStorage(newCap: nat, memory: bool) returns (ok: bool)
      requires Valid() && UsingInlineStorage() && mLength <= newCap && 0 < newCap
      requires Countable(config, newCap) && !CapacityHasExcessSpace(config, newCap)
      modifies this`mBegin, this`mCapacity, this`moved
      ensures Valid() && Elements() == old(Elements()) && ok == memory
      ensures ok ==> Extents() == Extent(false, old(mLength), newCap, old(moved) + old(mLength)) && fresh(mBegin)
      ensures !ok ==> Extents() == old(Extents()) && mBegin == old(mBegin)
    {
      if !memory {
        return false;
      }
      var newBuf := new T[newCap];
      MoveElements(newBuf);
      mBegin, mCapacity := newBuf, newCap;
      return true;
    }

    method GrowTo(newCap: nat, memory: bool) returns (ok: bool)
      requires Valid() && !UsingInlineStorage() && mLength <= newCap && 0 < newCap
      requires Countable(config, newCap) && !CapacityHasExcessSpace(config, newCap)
      modifies this`mBegin, this`mCapacity, this`moved
      ensures Valid() && Elements() == old(Elements()) && ok == memory
      ensures ok ==> Extents() == Extent(false, old(mLength), newCap, old(moved) + old(mLength)) && fresh(mBegin)
      ensures !ok ==> Extents() == old(Extents()) && mBegin == old(mBegin)
    {
      if !memory {
        return false;
      }
      var newBuf := new T[newCap];
      MoveElements(newBuf);
      mBegin, mCapacity := newBuf, newCap;
      return true;
    }

    /** Makes room for incr more. Fails for want of memory, or if the new size cannot be counted. */
    method GrowStorageBy(incr: nat, memory: bool) returns (ok: bool)
      requires Valid() && 0 < incr < Pow2(config.wordBits) && mLength + incr > mCapacity
      requires mLength < Pow2(config.wordBits)
      modifies this`mBegin, this`mCapacity, this`moved
      ensures Valid() && Elements() == old(Elements()) && (ok ==> fresh(mBegin) && mCapacity >= mLength + incr)
      ensures ok ==> Grown(config, old(Extents()), incr) == Becomes(Extents())
      ensures !ok ==> Extents() == old(Extents()) && mBegin == old(mBegin)
      ensures ok <==> memory && CanGrow(config, old(UsingInlineStorage()), mLength, incr)
    {
      hide Countable;
      hide CapacityHasExcessSpace;
      hide Config.Compiles;
      ghost var e := Extents();
      GrownSized(config, e, incr);
      ChosenIff(config, UsingInlineStorage(), mLength, incr);
      hide CanGrow;
      var choice := ChooseCapacity(config, UsingInlineStorage(), mLength, incr);
      if choice.Overflow? {
        return false;
      }
      if UsingInlineStorage() {
        ok := ConvertToHeapStorage(choice.cap, memory);
      } else {
        ok := GrowTo(choice.cap, memory);
      }
    }

    /** Adds one element at the end; if it cannot, nothing has changed. */
    method Append(x: T, memory: bool) returns (ok: bool)
      requires Valid()
      modifies this`mBegin, this`mLength, this`mCapacity, this`moved, mBegin
      ensures Valid() && Elements() == if ok then old(Elements()) + [x] else old(Elements())
      ensures mBegin == old(mBegin) || fresh(mBegin)
      ensures old(mLength) < Pow2(config.wordBits)
      ensures ok ==> Appended(config, old(Extents())) == Becomes(Extents())
      ensures !ok ==> Extents() == old(Extents())
      ensures ok <==> old(mLength) < old(mCapacity)
                      || (memory && CanGrow(config, old(UsingInlineStorage()), old(mLength), 1))
    {
      hide Countable;
      hide CapacityHasExcessSpace;
      hide Config.Compiles;
      CapacityIsWord(config, Extents());
      AppendKeeps(config, Extents());
      hide CanGrow;
      if mLength == mCapacity {
        OneIsWord(config);
        ok := GrowStorageBy(1, memory);
        if !ok {
          return;
        }
      }
      mBegin[mLength] := x;
      mLength := mLength + 1;
      return true;
    }

    /** Makes room for request elements in all. */
    method Reserve(request: nat, memory: bool) returns (ok: bool)
      requires Valid() && request < Pow2(config.wordBits)
      modifies this`mBegin, this`mCapacity, this`moved
      ensures Valid() && Elements() == old(Elements()) && mLength == old(mLength)
      ensures ok ==> mCapacity >= request
      ensures mBegin == old(mBegin) || fresh(mBegin)
      ensures old(mCapacity) >= request ==> mBegin == old(mBegin) && Extents() == old(Extents())
      ensures old(mCapacity) < request && ok ==>
                old(mLength) < Pow2(config.wordBits)
                && Grown(config, old(Extents()), request - mLength) == Becomes(Extents())
      ensures ok <==> old(mCapacity) >= request
                      || (memory && CanGrow(config, old(UsingInlineStorage()), mLength, request - mLength))
    {
      CapacityIsWord(config, Extents());
      ok := true;
      if request > mCapacity {
        ok := GrowStorageBy(request - mLength, memory);
      }
    }

    /** Adds incr new elements, each of them init. */
    method GrowBy(incr: nat, init: T, memory: bool) returns (ok: bool)
      requires Valid() && incr < Pow2(config.wordBits)
      modifies this`mBegin, this`mLength, this`mCapacity, this`moved, mBegin
      ensures Valid() && Elements() == if ok then old(Elements()) + seq(incr, _ => init) else old(Elements())
      ensures mBegin == old(mBegin) || fresh(mBegin)
      ensures old(mLength) < Pow2(config.wordBits)
      ensures ok && incr <= old(mCapacity - mLength) ==> Extents() == old(Extents()).(length := mLength)
      ensures ok && incr > old(mCapacity - mLength) ==>
                Grown(config, old(Extents()), incr) == Becomes(Extents().(length := old(mLength)))
      ensures ok <==> old(mCapacity - mLength) >= incr
                      || (memory && CanGrow(config, old(UsingInlineStorage()), old(mLength), incr))
    {
      hide Countable;
      hide CapacityHasExcessSpace;
      hide Config.Compiles;
      hide CanGrow;
      CapacityIsWord(config, Extents());
      if incr > mCapacity - mLength {
        ok := GrowStorageBy(incr, memory);
        if !ok {
          return;
        }
      }
      ghost var was := Elements();
      Fill(mBegin, mLength, mLength + incr, init);
      mLength := mLength + incr;
      assert Elements() == was + seq(incr, _ => init);
      return true;
    }

    method ShrinkBy(incr: nat)
      requires Valid() && incr <= mLength
      modifies this`mLength
      ensures Valid() && mLength == old(mLength) - incr && Elements() == old(Elements())[..mLength]
    {
      mLength := mLength - incr;
    }

    method PopBack()
      requires Valid() && mLength > 0
      modifies this`mLength
      ensures Valid() && mLength == old(mLength) - 1 && Elements() == old(Elements())[..mLength]
    {
      mLength := mLength - 1;
    }

    /** Meant to put x before the element at pos. Unless that is the end, the last element is moved
        out and appended, and those from pos on are moved up; but the first of these moves takes
        what was left behind of the last element, and puts it where that was appended. after tells
        what a move leaves behind. */
    method Insert(pos: nat, x: T, after: T -> T, memory: bool) returns (ok: bool)
      requires Valid() && pos <= mLength
      modifies this`mBegin, this`mLength, this`mCapacity, this`moved, mBegin
      ensures mBegin == old(mBegin) || fresh(mBegin)
      ensures Valid() && old(mLength) < Pow2(config.wordBits)
      ensures Elements() == if ok then old(WithLastMoved(Elements(), pos, after)[..pos]) + [x]
                                       + old(WithLastMoved(Elements(), pos, after)[pos..])
                            else old(WithLastMoved(Elements(), pos, after))
      ensures ok ==> Appended(config, old(Extents())) == Becomes(Extents())
      ensures ok <==> old(mLength) < old(mCapacity)
                      || (memory && CanGrow(config, old(UsingInlineStorage()), old(mLength), 1))
    {
      hide Countable;
      hide CapacityHasExcessSpace;
      hide CanGrow;
      hide Config.Compiles;
      hide Appended;
      ghost var was := WithLastMoved(Elements(), pos, after);
      if pos == mLength {
        AtTheEnd(Elements(), x);
        ok := Append(x, memory);
      } else {
        var oldLength, oldBack := mLength, mBegin[mLength - 1];
        MoveLastOut(after);
        hide WithLastMoved;
        ok := Append(oldBack, memory);
        if ok {
          ShiftIn(pos, oldLength, x, after, was);
        }
      }
    }

    /** The last element is moved out of its place. */
    method MoveLastOut(after: T -> T)
      requires Valid() && mLength > 0
      modifies mBegin
      ensures Valid() && Elements() == old(Elements())[mLength - 1 := after(old(Elements())[mLength - 1])]
    {
      mBegin[mLength - 1] := after(mBegin[mLength - 1]);
    }

    /** The end of insert: there is one element more, and those from pos on go one place up. */
    method ShiftIn(pos: nat, oldLength: nat, x: T, after: T -> T, ghost was: seq<T>)
      requires Valid() && pos <= oldLength == |was| && mLength == oldLength + 1 && Elements()[..oldLength] == was
      modifies mBegin
      ensures Valid() && Elements() == was[..pos] + [x] + was[pos..]
    {
      ghost var now := Elements();
      assert forall j :: 0 <= j < oldLength ==> now[j] == was[j];
      ShiftUp(mBegin, pos, oldLength, after);
      mBegin[pos] := x;
      Opened(was, Elements(), pos, x);
    }

    /** Meant to take the elements from first to last out. Those after them are moved down; if there
        are none to take out, each of them is moved to itself. after tells what a move leaves behind,
        and self what a move of something to itself makes of it. */
    method Erase(first: nat, last: nat, after: T -> T, self: T -> T)
      requires Valid() && first <= last <= mLength
      modifies this`mLength, mBegin
      ensures Valid() && Elements() == old(Erased(Elements(), first, last, self))
    {
      hide Countable;
      hide CapacityHasExcessSpace;
      hide Config.Compiles;
      ghost var was := Elements();
      ShiftDown(mBegin, first, last, mLength, after, self);
      ShrinkBy(last - first);
      Closed(was, Elements(), first, last, self);
    }

    /** Turns the elements round in place. */
    method Reverse()
      requires Valid()
      modifies mBegin
      ensures Valid() && |Elements()| == |old(Elements())|
      ensures forall i :: 0 <= i < mLength ==> Elements()[i] == old(Elements())[mLength - 1 - i]
    {
      ghost var was := Elements();
      var len := mLength;
      var mid := len / 2;
      for i := 0 to mid
        invariant mLength == len
        invariant forall j :: 0 <= j < i ==> mBegin[j] == was[len - 1 - j] && mBegin[len - 1 - j] == was[j]
        invariant forall j :: i <= j < len - i ==> mBegin[j] == was[j]
      {
        mBegin[i], mBegin[len - i - 1] := mBegin[len - i - 1], mBegin[i];
      }
      forall i | 0 <= i < len ensures mBegin[i] == was[len - 1 - i] {
        if i >= len - mid {
          assert i == len - 1 - (len - 1 - i);
        }
      }
    }
  }

  lemma Opened<T>(was: seq<T>, now: seq<T>, pos: nat, x: T)
    requires pos <= |was| && |now| == |was| + 1 && now[pos] == x
    requires forall j :: 0 <= j < pos ==> now[j] == was[j]
    requires forall j :: pos < j < |now| ==> now[j] == was[j - 1]
    ensures now == was[..pos] + [x] + was[pos..]
  {
  }

  lemma Closed<T>(was: seq<T>, now: seq<T>, first: nat, last: nat, self: T -> T)
    requires first <= last <= |was| && |now| == |was| - (last - first)
    requires forall j :: 0 <= j < first ==> now[j] == was[j]
    requires forall j :: first <= j < |now| ==>
               now[j] == if first == last then self(was[j]) else was[j + (last - first)]
    ensures now == Erased(was, first, last, self)
  {
  }

  /** Initialises the places from start to end. */
  method Fill<T>(a: array<T>, start: nat, end: nat, init: T)
    requires start <= end <= a.Length
    modifies a
    ensures forall j :: start <= j < end ==> a[j] == init
    ensures forall j :: 0 <= j < a.Length && !(start <= j < end) ==> a[j] == old(a[j])
  {
    var i := start;
    while i < end
      invariant start <= i <= end
      invariant forall j :: start <= j < i ==> a[j] == init
      invariant forall j :: 0 <= j < a.Length && !(start <= j < i) ==> a[j] == old(a[j])
    {
      a[i] := init;
      i := i + 1;
    }
  }

  /** The loop of insert: the elements from pos up to end go one place up. */
  method ShiftUp<T>(a: array<T>, pos: nat, end: nat, after: T -> T)
    requires pos <= end < a.Length
    modifies a
    ensures forall j :: pos < j <= end ==> a[j] == old(a[j - 1])
    ensures forall j :: 0 <= j < a.Length && !(pos <= j <= end) ==> a[j] == old(a[j])
  {
    var i := end;
    while i > pos
      invariant pos <= i <= end
      invariant forall j :: i < j <= end ==> a[j] == old(a[j - 1])
      invariant forall j :: 0 <= j < a.Length && !(i <= j <= end) ==> a[j] == old(a[j])
      invariant i == end ==> a[i] == old(a[i])
    {
      a[i] := a[i - 1];
      a[i - 1] := after(a[i - 1]);
      i := i - 1;
    }
  }

  lemma AtTheEnd<T>(s: seq<T>, x: T)
    ensures s[..|s|] + [x] + s[|s|..] == s + [x]
  {
  }

  /** The elements, the last of them as a move leaves it, if something is to go before it. */
  ghost function WithLastMoved<T>(s: seq<T>, pos: nat, after: T -> T): (r: seq<T>)
    requires pos <= |s|
    ensures |r| == |s|
  {
    if pos == |s| then s else s[|s| - 1 := after(s[|s| - 1])]
  }

  /** So insert is right if and only if x goes to the end, or moving the last element leaves it as it
      was. The same holds for leaving everything as it was when there is no memory. */
  lemma InsertRightIff<T>(s: seq<T>, pos: nat, x: T, after: T -> T)
    requires pos <= |s|
    ensures var w := WithLastMoved(s, pos, after);
            (w[..pos] + [x] + w[pos..] == s[..pos] + [x] + s[pos..] <==> pos == |s| || after(s[|s| - 1]) == s[|s| - 1])
            && (w == s <==> pos == |s| || after(s[|s| - 1]) == s[|s| - 1])
  {
    var w := WithLastMoved(s, pos, after);
    if pos < |s| {
      var a, b := w[..pos] + [x] + w[pos..], s[..pos] + [x] + s[pos..];
      assert a[|s|] == w[|s| - 1] && b[|s|] == s[|s| - 1];
    }
  }

  /** Two numbers 1 and 2, kept so that a move leaves 0: after inserting 9 at the front there is no 2. */
  lemma LastIsLost()
    ensures var w := WithLastMoved([1, 2], 0, x => 0);
            w[..0] + [9] + w[0..] == [9, 1, 0]
  {
  }

  /** One append after the other: the elements are those of xs, and fewer than twice as many have
      been carried to another buffer. With memory whenever it is asked for, here by the number of the
      append, they all come in as far as Reach. */
  method AppendEach<T(0)>(c: Config, xs: seq<T>, memory: nat -> bool) returns (ok: bool, v: Vector<T>)
    requires c.Compiles()
    ensures v.Valid() && v.config == c
    ensures (forall i :: 0 <= i < |xs| ==> memory(i)) && |xs| <= Reach(c) ==> ok
    ensures ok ==> v.Elements() == xs && AppendRun(c, |xs|) == Becomes(v.Extents())
    ensures ok && xs != [] ==> v.moved < 2 * |xs|
  {
    hide Countable;
    hide CapacityHasExcessSpace;
    hide Config.Compiles;
    hide Appended;
    v := new Vector<T>(c);
    var i := 0;
    while i < |xs|
      invariant 0 <= i <= |xs| && fresh(v) && fresh(v.mBegin) && v.Valid() && v.config == c
      invariant v.Elements() == xs[..i] && AppendRun(c, i) == Becomes(v.Extents())
    {
      ok := v.Append(xs[i], memory(i));
      if !ok {
        return;
      }
      i := i + 1;
    }
    ok := true;
    AppendsAreCheap(c, |xs|);
  }

  /** The loop of erase: the elements from last up to end go down to first. */
  method ShiftDown<T>(a: array<T>, first: nat, last: nat, end: nat, after: T -> T, self: T -> T)
    requires first <= last <= end <= a.Length
    modifies a
    ensures forall j :: first <= j < end - (last - first) ==>
              a[j] == if first == last then self(old(a[j])) else old(a[j + (last - first)])
    ensures forall j :: 0 <= j < first ==> a[j] == old(a[j])
  {
    var to, from := first, last;
    while from < end
      invariant first <= to && from == to + (last - first) && last <= from <= end
      invariant forall j :: first <= j < to ==>
                  a[j] == if first == last then self(old(a[j])) else old(a[j + (last - first)])
      invariant forall j :: 0 <= j < first || from <= j < a.Length ==> a[j] == old(a[j])
    {
      if to == from {
        a[to] := self(a[to]);
      } else {
        a[to], a[from] := a[from], after(a[from]);
      }
      to, from := to + 1, from + 1;
    }
  }

  /** What erase leaves. */
  ghost function Erased<T>(s: seq<T>, first: nat, last: nat, self: T -> T): (r: seq<T>)
    requires first <= last <= |s|
    ensures |r| == |s| - (last - first)
  {
    if first < last then s[..first] + s[last..]
    else s[..first] + seq(|s| - first, i requires 0 <= i < |s| - first => self(s[first + i]))
  }

  /** So erase is right if and only if there is something to take out, or the elements behind are such
      that moving them to themselves leaves them as they were. */
  lemma EraseRightIff<T>(s: seq<T>, first: nat, last: nat, self: T -> T)
    requires first <= last <= |s|
    ensures Erased(s, first, last, self) == s[..first] + s[last..]
            <==> first < last || forall i :: last <= i < |s| ==> self(s[i]) == s[i]
  {
    var e := Erased(s, first, last, self);
    if first == last {
      assert s[..first] + s[last..] == s;
      assert forall i :: last <= i < |s| ==> e[i] == self(s[i]);
    }
  }

  /** Two pointers, which are 0 after a move to themselves: erasing nothing at the front clears both. */
  lemma AllCleared()
    ensures Erased([1, 2], 0, 0, x => 0) == [0, 0]
  {
  }
}
