/** A sequence cut into pieces of one capacity: all but the last are full, none is empty. */
module Cuts {
  import opened Pieces

  ghost predicate Cut<T>(v: seq<seq<T>>, capacity: nat) {
    && (forall i :: 0 <= i < |v| ==> 0 < |v[i]| <= capacity)
    && (forall i :: 0 <= i < |v| - 1 ==> |v[i]| == capacity)
  }

  /** There is only one way to cut a sequence. */
  lemma {:induction false} CutUnique<T>(v: seq<seq<T>>, w: seq<seq<T>>, capacity: nat)
    requires Cut(v, capacity) && Cut(w, capacity) && Flat(v) == Flat(w)
    ensures v == w
  {
    if v != [] && w != [] {
      FirstPiece(v, w, capacity);
      CutUnique(v[1..], w[1..], capacity);
      assert v == [v[0]] + v[1..] && w == [w[0]] + w[1..];
    }
  }

  lemma FirstPiece<T>(v: seq<seq<T>>, w: seq<seq<T>>, capacity: nat)
    requires Cut(v, capacity) && Cut(w, capacity) && Flat(v) == Flat(w) && v != [] && w != []
    ensures v[0] == w[0] && Flat(v[1..]) == Flat(w[1..])
    ensures Cut(v[1..], capacity) && Cut(w[1..], capacity)
  {
    CutShort(v, capacity);
    CutShort(w, capacity);
    assert v[0] == Flat(v)[..|v[0]|] && w[0] == Flat(w)[..|w[0]|];
    assert Flat(v[1..]) == Flat(v)[|v[0]|..] && Flat(w[1..]) == Flat(w)[|w[0]|..];
  }

  /** A piece that is not full is all that is left. */
  lemma CutShort<T>(v: seq<seq<T>>, capacity: nat)
    requires Cut(v, capacity) && v != []
    ensures |v[0]| == if |Flat(v)| < capacity then |Flat(v)| else capacity
    ensures Cut(v[1..], capacity)
  {
    if |v| == 1 {
      assert v[1..] == [];
    }
  }

  /** One element less, and one piece less if it was the only one in it. */
  ghost function PopOne<T>(v: seq<seq<T>>): seq<seq<T>>
    requires v != [] && v[|v| - 1] != []
  {
    var n := |v| - 1;
    if |v[n]| == 1 then v[..n] else v[..n] + [v[n][..|v[n]| - 1]]
  }

  lemma PopOneCuts<T>(v: seq<seq<T>>, capacity: nat)
    requires Cut(v, capacity) && v != []
    ensures |Flat(v)| > 0
    ensures Cut(PopOne(v), capacity) && Flat(PopOne(v)) == Flat(v)[..|Flat(v)| - 1]
  {
    hide Flat;
    var n := |v| - 1;
    LastPiece(v);
    if |v[n]| > 1 {
      FlatSnoc(v[..n], v[n][..|v[n]| - 1]);
    }
  }

  /** One element less, n times. */
  ghost function PopTimes<T>(v: seq<seq<T>>, capacity: nat, n: nat): seq<seq<T>>
    requires Cut(v, capacity) && n <= |Flat(v)|
    decreases n
  {
    if n == 0 then v
    else
      PopOneCuts(v, capacity);
      PopTimes(PopOne(v), capacity, n - 1)
  }

  lemma {:induction false} PopTimesTakes<T>(v: seq<seq<T>>, capacity: nat, n: nat)
    requires Cut(v, capacity) && n <= |Flat(v)|
    ensures Cut(PopTimes(v, capacity, n), capacity)
    ensures Flat(PopTimes(v, capacity, n)) == Flat(v)[..|Flat(v)| - n]
    decreases n
  {
    if n > 0 {
      PopOneCuts(v, capacity);
      PopTimesTakes(PopOne(v), capacity, n - 1);
    }
  }

  /** Any other way to take n elements off the end leaves the same pieces. */
  lemma FastPop<T>(v: seq<seq<T>>, w: seq<seq<T>>, capacity: nat, n: nat)
    requires Cut(v, capacity) && Cut(w, capacity) && n <= |Flat(v)|
    requires Flat(w) == Flat(v)[..|Flat(v)| - n]
    ensures w == PopTimes(v, capacity, n)
  {
    PopTimesTakes(v, capacity, n);
    CutUnique(w, PopTimes(v, capacity, n), capacity);
  }

  lemma LastPiece<T>(v: seq<seq<T>>)
    requires v != []
    ensures Flat(v) == Flat(v[..|v| - 1]) + v[|v| - 1]
  {
    assert v == v[..|v| - 1] + [v[|v| - 1]];
    FlatSnoc(v[..|v| - 1], v[|v| - 1]);
  }

  /** The pieces with another one in place of the last. */
  ghost function WithLast<T>(v: seq<seq<T>>, p: seq<T>): seq<seq<T>>
    requires v != []
  {
    v[..|v| - 1] + [p]
  }

  lemma LastSize<T>(v: seq<seq<T>>, capacity: nat)
    requires Cut(v, capacity) && v != []
    ensures 0 < |v[|v| - 1]| <= capacity
  {
  }

  lemma ShortenLast<T>(v: seq<seq<T>>, capacity: nat, n: nat)
    requires Cut(v, capacity) && v != [] && n < |v[|v| - 1]|
    ensures var w := WithLast(v, v[|v| - 1][..|v[|v| - 1]| - n]);
            Cut(w, capacity) && n <= |Flat(v)| && Flat(w) == Flat(v)[..|Flat(v)| - n]
  {
    hide Flat;
    var p := v[|v| - 1];
    LastPiece(v);
    FlatSnoc(v[..|v| - 1], p[..|p| - n]);
  }

  lemma LengthenLast<T>(v: seq<seq<T>>, capacity: nat, x: T)
    requires Cut(v, capacity) && v != [] && |v[|v| - 1]| < capacity
    ensures Cut(WithLast(v, v[|v| - 1] + [x]), capacity)
    ensures Flat(WithLast(v, v[|v| - 1] + [x])) == Flat(v) + [x]
  {
    hide Flat;
    var p := v[|v| - 1];
    LastPiece(v);
    FlatSnoc(v[..|v| - 1], p + [x]);
    Associate(Flat(v[..|v| - 1]), p, [x]);
  }

  lemma AnotherPiece<T>(v: seq<seq<T>>, capacity: nat, x: T)
    requires Cut(v, capacity) && capacity > 0 && (v != [] ==> |v[|v| - 1]| == capacity)
    ensures Cut(v + [[x]], capacity) && Flat(v + [[x]]) == Flat(v) + [x]
  {
    FlatSnoc(v, [x]);
  }

  /** How many elements there are, by the number of pieces and the last of them. */
  lemma {:induction false} CutSize<T>(v: seq<seq<T>>, capacity: nat)
    requires Cut(v, capacity) && v != []
    ensures |Flat(v)| == (|v| - 1) * capacity + |v[|v| - 1]|
  {
    if |v| == 1 {
      assert Flat(v) == v[0];
    } else {
      CutSize(v[1..], capacity);
      Distribute(|v| - 2, 1, capacity);
      assert Flat(v) == v[0] + Flat(v[1..]);
    }
  }

  lemma Distribute(a: nat, b: nat, n: nat)
    ensures (a + b) * n == a * n + b * n
  {
  }

  lemma OnePieceLess<T>(v: seq<seq<T>>, capacity: nat)
    requires Cut(v, capacity) && v != []
    ensures Cut(v[..|v| - 1], capacity) && 0 < |v[|v| - 1]| <= |Flat(v)|
    ensures Flat(v[..|v| - 1]) == Flat(v)[..|Flat(v)| - |v[|v| - 1]|]
  {
    hide Flat;
    LastPiece(v);
  }
}

/** mfbt/SegmentedVector.h: a vector kept in a list of buffers of one size. The list is a sequence
    here; that LinkedList behaves as one is the subject of module LinkedLists. */
module SegmentedVectors {
  import opened Pieces
  import opened Cuts

  /** A buffer; mElems are the elements constructed in it so far. */
  class Segment<T> {
    const capacity: nat
    var mElems: seq<T>

    constructor (capacity: nat)
      ensures this.capacity == capacity && mElems == []
    {
      this.capacity, mElems := capacity, [];
    }

    function Length(): nat
      reads this
    {
      |mElems|
    }

    method Append(x: T)
      requires Length() < capacity
      modifies this
      ensures mElems == old(mElems) + [x]
    {
      mElems := mElems + [x];
    }

    method PopLast()
      requires Length() > 0
      modifies this
      ensures mElems == old(mElems)[..old(Length()) - 1]
    {
      mElems := mElems[..|mElems| - 1];
    }

    /** The loop that ends PopLastN. */
    method PopSome(n: nat)
      requires n <= Length()
      modifies this
      ensures mElems == old(mElems)[..old(Length()) - n]
    {
      ghost var p := mElems;
      for i := 0 to n
        invariant mElems == p[..|p| - i]
      {
        TakeTake(p, |p| - i - 1, |p| - i);
        PopLast();
      }
    }
  }

  lemma TakeTake<T>(s: seq<T>, m: nat, n: nat)
    requires m <= n <= |s|
    ensures s[..n][..m] == s[..m]
  {
  }

  ghost predicate Apart<T>(ss: seq<Segment<T>>) {
    forall i, j :: 0 <= i < j < |ss| ==> ss[i] != ss[j]
  }

  ghost function View<T>(ss: seq<Segment<T>>): (v: seq<seq<T>>)
    reads ss
    ensures |v| == |ss| && forall i :: 0 <= i < |ss| ==> v[i] == ss[i].mElems
  {
    seq(|ss|, i requires 0 <= i < |ss| reads ss => ss[i].mElems)
  }

  lemma ViewSnoc<T>(ss: seq<Segment<T>>, s: Segment<T>)
    ensures View(ss + [s]) == View(ss) + [s.mElems]
  {
  }

  /** The elements of the last segment have changed, and no others. */
  lemma ViewWithLast<T>(ss: seq<Segment<T>>, v: seq<seq<T>>, p: seq<T>)
    requires ss != [] && |v| == |ss| && ss[|ss| - 1].mElems == p
    requires forall i :: 0 <= i < |ss| - 1 ==> ss[i].mElems == v[i]
    ensures View(ss) == WithLast(v, p)
  {
  }

  class SegmentedVector<T> {
    const segmentCapacity: nat
    var mSegments: seq<Segment<T>>

    ghost predicate Valid()
      reads this, mSegments
    {
      && 0 < segmentCapacity && Apart(mSegments)
      && (forall i :: 0 <= i < |mSegments| ==> mSegments[i].capacity == segmentCapacity)
      && Cut(View(mSegments), segmentCapacity)
    }

    ghost function Contents(): seq<T>
      reads this, mSegments
    {
      Flat(View(mSegments))
    }

    constructor (capacity: nat)
      requires capacity > 0
      ensures Valid() && Contents() == [] && mSegments == []
    {
      segmentCapacity, mSegments := capacity, [];
    }

    predicate IsEmpty()
      reads this
    {
      mSegments == []
    }

    lemma EmptyIffNothing()
      requires Valid()
      ensures IsEmpty() <==> Contents() == []
    {
      if !IsEmpty() {
        LastPiece(View(mSegments));
      }
    }

    method Length() returns (n: nat)
      requires Valid()
      ensures n == |Contents()|
    {
      n := 0;
      ghost var v := View(mSegments);
      assert v[..0] == [];
      for i := 0 to |mSegments|
        invariant n == StartOf(v, i)
      {
        n := n + mSegments[i].Length();
        StartOfNext(v, i);
      }
      EndOf(v);
    }

    /** Puts x into a new segment, if the allocator's answer is yes. */
    method AppendSegment(x: T, memory: bool) returns (ok: bool)
      requires Valid() && (mSegments != [] ==> mSegments[|mSegments| - 1].Length() == segmentCapacity)
      modifies this
      ensures Valid() && ok == memory
      ensures Contents() == if ok then old(Contents()) + [x] else old(Contents())
      ensures !ok ==> mSegments == old(mSegments)
    {
      hide View;
      hide Flat;
      hide Cut;
      ghost var ss, v := mSegments, View(mSegments);
      if !memory {
        return false;
      }
      assert allocated(ss);
      var segment := new Segment<T>(segmentCapacity);
      segment.Append(x);
      assert segment.mElems == [x];
      mSegments := mSegments + [segment];
      assert View(ss) == v;
      ViewSnoc(ss, segment);
      AnotherPiece(v, segmentCapacity, x);
      ok := true;
    }

    /** Puts x into the room left in the last segment. */
    method AppendInLast(x: T)
      requires Valid() && mSegments != [] && mSegments[|mSegments| - 1].Length() != segmentCapacity
      modifies mSegments
      ensures Valid() && Contents() == old(Contents()) + [x] && mSegments == old(mSegments)
    {
      hide View;
      hide Flat;
      hide Cut;
      hide WithLast;
      ghost var v := View(mSegments);
      var last := mSegments[|mSegments| - 1];
      LastSize(v, segmentCapacity);
      last.Append(x);
      ViewWithLast(mSegments, v, v[|v| - 1] + [x]);
      LengthenLast(v, segmentCapacity, x);
    }

    predicate HasRoom()
      reads this, mSegments
    {
      mSegments != [] && mSegments[|mSegments| - 1].Length() < segmentCapacity
    }

    /** There is room in the last segment exactly if not all places in the segments are taken. */
    lemma RoomIff()
      requires Valid()
      ensures HasRoom() <==> |Contents()| < |mSegments| * segmentCapacity
    {
      hide Flat;
      if !IsEmpty() {
        LastSize(View(mSegments), segmentCapacity);
        CutSize(View(mSegments), segmentCapacity);
        Distribute(|mSegments| - 1, 1, segmentCapacity);
      } else {
        assert mSegments == [];
        EmptyIffNothing();
      }
    }

    /** Adds x at the end, in a new segment if there is no room in the last one. Only that takes
        memory, which is the allocator's answer to it. */
    method Append(x: T, memory: bool) returns (ok: bool)
      requires Valid()
      modifies this, mSegments
      ensures Valid() && Contents() == if ok then old(Contents()) + [x] else old(Contents())
      ensures ok <==> old(HasRoom()) || memory
      ensures old(HasRoom()) || !ok ==> mSegments == old(mSegments)
    {
      if mSegments == [] || mSegments[|mSegments| - 1].Length() == segmentCapacity {
        ok := AppendSegment(x, memory);
      } else {
        AppendInLast(x);
        ok := true;
      }
    }

    /** Takes the last element away. */
    method PopLast()
      requires Valid() && !IsEmpty()
      modifies this, mSegments
      ensures Valid() && View(mSegments) == old(PopOne(View(mSegments)))
      ensures Contents() == old(Contents()[..|Contents()| - 1])
    {
      hide Flat;
      hide Cut;
      ghost var v := View(mSegments);
      LastSize(v, segmentCapacity);
      PopOneCuts(v, segmentCapacity);
      var last := mSegments[|mSegments| - 1];
      last.PopLast();
      if last.Length() == 0 {
        mSegments := mSegments[..|mSegments| - 1];
      }
      assert View(mSegments) == PopOne(v);
    }

    /** Takes n elements away, whole segments as long as possible. What is left is what n calls of
        PopLast leave, segment by segment. passes tells whether the assertion holds that a debug
        build makes about the elements that are left to go; it does not for none of some. */
    method PopLastN(n: nat) returns (passes: bool)
      requires Valid() && n <= |Contents()|
      modifies this, mSegments
      ensures passes <==> n > 0 || old(IsEmpty())
      ensures Valid() && Contents() == old(Contents()[..|Contents()| - n])
      ensures View(mSegments) == old(PopTimes(View(mSegments), segmentCapacity, n))
    {
      hide View;
      hide PopTimes;
      hide Apart;
      hide WithLast;
      hide Flat;
      hide Cut;
      ghost var v, c := View(mSegments), Contents();
      var numElements := n;
      while true
        invariant Valid() && mSegments <= old(mSegments)
        invariant 0 <= numElements <= |Contents()| && (numElements > 0 || IsEmpty() || n == 0)
        invariant n == 0 ==> mSegments == old(mSegments)
        invariant Contents() <= c && |Contents()| - numElements == |c| - n
        decreases |mSegments|
      {
        EmptyIffNothing();
        if IsEmpty() {
          assert Contents() == c[..|c| - n];
          FastPop(v, View(mSegments), segmentCapacity, n);
          return true;
        }
        var last := mSegments[|mSegments| - 1];
        var segmentLen := last.Length();
        if segmentLen > numElements {
          break;
        }
        ghost var before := Contents();
        LastSize(View(mSegments), segmentCapacity);
        PopSegment();
        assert Contents() == before[..|before| - segmentLen];
        numElements := numElements - segmentLen;
        if numElements == 0 {
          assert Contents() == c[..|c| - n];
          FastPop(v, View(mSegments), segmentCapacity, n);
          return true;
        }
      }
      passes := numElements != 0;
      PopInLast(numElements);
      assert Contents() == c[..|c| - n];
      FastPop(v, View(mSegments), segmentCapacity, n);
    }

    /** Drops the last segment with all that is in it. */
    method PopSegment()
      requires Valid() && mSegments != []
      modifies this
      ensures Valid() && mSegments == old(mSegments[..|mSegments| - 1])
      ensures old(mSegments[|mSegments| - 1].Length() <= |Contents()|)
      ensures Contents() == old(Contents()[..|Contents()| - mSegments[|mSegments| - 1].Length()])
    {
      hide Flat;
      hide Cut;
      ghost var v := View(mSegments);
      OnePieceLess(v, segmentCapacity);
      mSegments := mSegments[..|mSegments| - 1];
      assert View(mSegments) == v[..|v| - 1];
    }

    /** The last segment has more elements than are to go. */
    method PopInLast(n: nat)
      requires Valid() && mSegments != [] && n < mSegments[|mSegments| - 1].Length()
      modifies mSegments
      ensures Valid() && n <= |old(Contents())| && Contents() == old(Contents()[..|Contents()| - n])
    {
      hide View;
      hide Flat;
      hide Cut;
      hide WithLast;
      ghost var v := View(mSegments);
      var last := mSegments[|mSegments| - 1];
      ghost var p := last.mElems;
      last.PopSome(n);
      ViewWithLast(mSegments, v, p[..|p| - n]);
      ShortenLast(v, segmentCapacity, n);
    }

    /** Frees the segments from the front. */
    method Clear()
      requires Valid()
      modifies this
      ensures Valid() && Contents() == []
    {
      while mSegments != []
        decreases |mSegments|
      {
        mSegments := mSegments[1..];
      }
    }
  }

  /** An iterator: the segment it is in, or the end of the list, and an index there. */
  class Iter<T> {
    const vector: SegmentedVector<T>
    var mSegment: nat
    var mIndex: nat

    ghost predicate In()
      reads this, vector, vector.mSegments
    {
      && mSegment <= |vector.mSegments|
      && if mSegment == |vector.mSegments| then mIndex == 0 else mIndex < vector.mSegments[mSegment].Length()
    }

    /** How many elements the iterator has passed. */
    ghost function Pos(): nat
      requires In()
      reads this, vector, vector.mSegments
    {
      StartOf(View(vector.mSegments), mSegment) + mIndex
    }

    constructor (v: SegmentedVector<T>)
      requires v.Valid()
      ensures vector == v && In() && Pos() == 0
    {
      vector, mSegment, mIndex := v, 0, 0;
    }

    predicate Done()
      reads this, vector
    {
      mSegment == |vector.mSegments|
    }

    lemma DoneAtEnd()
      requires In()
      ensures Pos() <= |vector.Contents()|
      ensures Done() <==> Pos() == |vector.Contents()|
    {
      var v := View(vector.mSegments);
      EndOf(v);
      if !Done() {
        StartOfLater(v, mSegment, |v|);
      }
    }

    method Get() returns (x: T)
      requires In() && !Done()
      ensures Pos() < |vector.Contents()| && x == vector.Contents()[Pos()]
    {
      ghost var v := View(vector.mSegments);
      DoneAtEnd();
      PartAt(v, mSegment, mIndex, mIndex + 1);
      assert v[mSegment][mIndex..mIndex + 1][0] == v[mSegment][mIndex];
      ghost var p := Pos();
      assert Flat(v)[p..p + 1][0] == Flat(v)[p];
      x := vector.mSegments[mSegment].mElems[mIndex];
    }

    method Next()
      requires vector.Valid() && In() && !Done()
      modifies this
      ensures In() && Pos() == old(Pos()) + 1
    {
      ghost var v := View(vector.mSegments);
      StartOfNext(v, mSegment);
      mIndex := mIndex + 1;
      if mIndex == vector.mSegments[mSegment].Length() {
        mSegment := mSegment + 1;
        mIndex := 0;
        assert View(vector.mSegments) == v;
      }
      assert View(vector.mSegments) == v;
    }
  }

  /** Nothing is popped, of any vector that is not empty: that changes nothing, as it should, but the
      assertion does not hold. */
  method PopNothing<T>(v: SegmentedVector<T>) returns (passes: bool)
    requires v.Valid() && !v.IsEmpty()
    modifies v, v.mSegments
    ensures v.Valid() && v.Contents() == old(v.Contents()) && !passes
  {
    hide Flat;
    hide Cut;
    ghost var c := v.Contents();
    passes := v.PopLastN(0);
    assert c[..|c| - 0] == c;
  }
}
