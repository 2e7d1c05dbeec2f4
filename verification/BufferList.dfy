/** mfbt/BufferList.h: a byte stream kept in a list of buffers of unequal size.

    A char pointer into a buffer is an array together with an index. The stream is stated as
    `Flat` of the segments' contents. Allocation may fail at any point.
 */
module BufferLists {
  import opened Pieces

  /** size bytes of data, from start on, are in use; capacity of them may be. */
  datatype Segment = Segment(data: array<char>, start: nat, size: nat, capacity: nat)

  ghost predicate Fits(s: Segment) {
    0 < s.capacity && s.size <= s.capacity && s.start + s.capacity <= s.data.Length
  }

  ghost predicate AllFit(ss: seq<Segment>) {
    forall i :: 0 <= i < |ss| ==> Fits(ss[i])
  }

  ghost function Bufs(ss: seq<Segment>): set<array<char>> {
    set i | 0 <= i < |ss| :: ss[i].data
  }

  ghost function Bytes(s: Segment): (b: seq<char>)
    requires Fits(s)
    reads s.data
    ensures |b| == s.size
  {
    s.data[s.start..s.start + s.size]
  }

  /** The segments' contents, piece by piece. */
  ghost function View(ss: seq<Segment>): (v: seq<seq<char>>)
    requires AllFit(ss)
    reads Bufs(ss)
    ensures |v| == |ss|
    ensures forall i :: 0 <= i < |ss| ==> v[i] == Bytes(ss[i])
  {
    seq(|ss|, i requires 0 <= i < |ss| && Fits(ss[i]) reads Bufs(ss) => Bytes(ss[i]))
  }

  lemma ViewConcat(a: seq<Segment>, b: seq<Segment>)
    requires AllFit(a) && AllFit(b)
    ensures AllFit(a + b) && View(a + b) == View(a) + View(b)
  {
  }

  lemma ViewTake(ss: seq<Segment>, k: nat)
    requires AllFit(ss) && k <= |ss|
    ensures View(ss[..k]) == View(ss)[..k] && View(ss[k..]) == View(ss)[k..]
  {
  }

  function Total(ss: seq<Segment>): nat {
    if ss == [] then 0 else Total(ss[..|ss| - 1]) + ss[|ss| - 1].size
  }

  lemma {:induction false} TotalConcat(a: seq<Segment>, b: seq<Segment>)
    ensures Total(a + b) == Total(a) + Total(b)
  {
    if b == [] {
      assert a + b == a;
    } else {
      TotalConcat(a, b[..|b| - 1]);
      assert (a + b)[..|a + b| - 1] == a + b[..|b| - 1];
    }
  }

  /** The sizes add up to the length of the stream. */
  lemma {:induction false} TotalIsLength(ss: seq<Segment>)
    requires AllFit(ss)
    ensures Total(ss) == |Flat(View(ss))|
  {
    if ss != [] {
      var n := |ss| - 1;
      TotalIsLength(ss[..n]);
      ViewTake(ss, n);
      assert View(ss) == View(ss[..n]) + [Bytes(ss[n])];
      FlatSnoc(View(ss[..n]), Bytes(ss[n]));
    }
  }

  lemma TotalIsStart(ss: seq<Segment>, k: nat)
    requires AllFit(ss) && k <= |ss|
    ensures Total(ss[..k]) == StartOf(View(ss), k)
  {
    TotalIsLength(ss[..k]);
    ViewTake(ss, k);
  }

  lemma TotalStep(ss: seq<Segment>, k: nat)
    requires k < |ss|
    ensures Total(ss[..k + 1]) == Total(ss[..k]) + ss[k].size
  {
    assert ss[..k + 1][..k] == ss[..k];
  }

  /** What lies before, in, and after a segment adds up. */
  lemma TotalAround(ss: seq<Segment>, k: nat)
    requires k < |ss|
    ensures Total(ss[..k + 1]) == Total(ss[..k]) + ss[k].size
    ensures Total(ss) == Total(ss[..k + 1]) + Total(ss[k + 1..])
  {
    hide Total;
    TotalStep(ss, k);
    TotalConcat(ss[..k + 1], ss[k + 1..]);
    assert ss == ss[..k + 1] + ss[k + 1..];
  }

  lemma PartOfBuffer(s: Segment, lo: nat, hi: nat)
    requires Fits(s) && lo <= hi <= s.size
    ensures Bytes(s)[lo..hi] == s.data[s.start + lo..s.start + hi]
  {
    SliceOfSlice(s.data[..], s.start, s.start + s.size, lo, hi);
    assert s.data[s.start..s.start + s.size] == s.data[..][s.start..s.start + s.size];
    assert s.data[s.start + lo..s.start + hi] == s.data[..][s.start + lo..s.start + hi];
  }

  /** Part of one segment, as part of the stream. */
  lemma PartOfStream(ss: seq<Segment>, k: nat, lo: nat, hi: nat)
    requires AllFit(ss) && k < |ss| && lo <= hi <= ss[k].size
    ensures Total(ss[..k]) + hi <= |Flat(View(ss))| && Fits(ss[k])
    ensures Flat(View(ss))[Total(ss[..k]) + lo..Total(ss[..k]) + hi] == Bytes(ss[k])[lo..hi]
  {
    TotalIsStart(ss, k);
    PartAt(View(ss), k, lo, hi);
  }

  /** Every segment but the last is full, and none is empty unless it is the only one. */
  ghost predicate Packed(ss: seq<Segment>) {
    && (forall i :: 0 <= i < |ss| - 1 ==> ss[i].size == ss[i].capacity)
    && Solid(ss)
  }

  ghost predicate Solid(ss: seq<Segment>) {
    |ss| > 1 ==> forall i :: 0 <= i < |ss| ==> ss[i].size > 0
  }

  /** There is a segment with n bytes, unless there are none. */
  ghost predicate OneHolds(ss: seq<Segment>, n: nat) {
    n == 0 || exists i :: 0 <= i < |ss| && n <= ss[i].size
  }

  /** Segments begin and end where an offset of 8 begins or ends; the last one may end before. */
  ghost predicate Aligned(ss: seq<Segment>) {
    forall i :: 0 <= i < |ss| ==>
      ss[i].start % 8 == 0 && ss[i].capacity % 8 == 0 && (i < |ss| - 1 ==> ss[i].size % 8 == 0)
  }

  /** So does the last one. */
  ghost predicate Blocks(ss: seq<Segment>): (b: bool)
    ensures b ==> Aligned(ss)
  {
    forall i :: 0 <= i < |ss| ==> ss[i].start % 8 == 0 && ss[i].capacity % 8 == 0 && ss[i].size % 8 == 0
  }

  /** All but the last are full, which is all that Packed says of more than one. */
  ghost predicate FullButLast(ss: seq<Segment>) {
    forall i :: 0 <= i < |ss| - 1 ==> ss[i].size == ss[i].capacity
  }

  ghost predicate AllOf(ss: seq<Segment>, capacity: nat) {
    forall i :: 0 <= i < |ss| ==> ss[i].capacity == capacity
  }

  lemma {:induction false} TotalOfBlocks(ss: seq<Segment>)
    requires forall i :: 0 <= i < |ss| ==> ss[i].size % 8 == 0
    ensures Total(ss) % 8 == 0
  {
    if ss != [] {
      TotalOfBlocks(ss[..|ss| - 1]);
    }
  }

  /** The byte number j of the segment number k: its offset in the stream and its address, in a buffer
      that is aligned itself, agree modulo 2, 4 and 8. */
  lemma OffsetsAgree(ss: seq<Segment>, k: nat, j: nat, addr: array<char> -> nat)
    requires Aligned(ss) && k < |ss| && j < ss[k].size && addr(ss[k].data) % 8 == 0
    ensures (Total(ss[..k]) + j) % 8 == (addr(ss[k].data) + ss[k].start + j) % 8
    ensures (Total(ss[..k]) + j) % 4 == (addr(ss[k].data) + ss[k].start + j) % 4
    ensures (Total(ss[..k]) + j) % 2 == (addr(ss[k].data) + ss[k].start + j) % 2
  {
    var t, a := Total(ss[..k]), addr(ss[k].data);
    TotalOfBlocks(ss[..k]);
    SameRest(a, ss[k].start);
    hide Total;
    hide Aligned;
    SameRest(t, j);
    SameRest(a + ss[k].start, j);
  }

  lemma Rest8(q: int, j: int)
    ensures (8 * q + j) % 8 == j % 8
  {
  }

  lemma Rest4(q: int, j: int)
    ensures (4 * q + j) % 4 == j % 4
  {
  }

  lemma Rest2(q: int, j: int)
    ensures (2 * q + j) % 2 == j % 2
  {
  }

  lemma SameRest(a: int, j: int)
    requires a % 8 == 0
    ensures (a + j) % 8 == j % 8 && (a + j) % 4 == j % 4 && (a + j) % 2 == j % 2
  {
    var q := a / 8;
    Rest8(q, j);
    Rest4(2 * q, j);
    Rest2(4 * q, j);
  }

  /** If the buffers are aligned and all segments begin where they do, then only aligned segments have
      this property. */
  lemma {:induction false} OnlyAligned(ss: seq<Segment>, addr: array<char> -> nat)
    requires forall i :: 0 <= i < |ss| ==>
               addr(ss[i].data) % 8 == 0 && ss[i].start % 8 == 0 && ss[i].capacity % 8 == 0 && ss[i].size > 0
    requires forall k :: 0 <= k < |ss| ==> Total(ss[..k]) % 8 == (addr(ss[k].data) + ss[k].start) % 8
    ensures Aligned(ss)
  {
    hide Total;
    forall i | 0 <= i < |ss| - 1 ensures ss[i].size % 8 == 0 {
      TotalStep(ss, i);
      SameRest(addr(ss[i].data), ss[i].start);
      SameRest(addr(ss[i + 1].data), ss[i + 1].start);
      SameRest(Total(ss[..i]), ss[i].size);
    }
  }

  /** Packed segments are aligned if their capacities are. */
  lemma PackedAligned(ss: seq<Segment>)
    requires Packed(ss) && forall i :: 0 <= i < |ss| ==> ss[i].start % 8 == 0 && ss[i].capacity % 8 == 0
    ensures Aligned(ss)
  {
  }

  /** A write keeps segments aligned, packed or not. */
  lemma WriteAligned(ss: seq<Segment>, filled: nat, added: seq<Segment>, capacity: nat)
    requires Aligned(ss) && filled <= Room(ss) && (added != [] ==> filled == Room(ss)) && capacity % 8 == 0
    requires AllOf(added, capacity) && FullButLast(added) && StartsAtZero(added)
    ensures Aligned(Grown(ss, filled) + added)
  {
    var g := Grown(ss, filled);
    forall i | 0 <= i < |g + added| - 1 ensures (g + added)[i].size % 8 == 0 {
      if i < |g| {
        assert i == |ss| - 1 ==> g[i].size == g[i].capacity;
      } else {
        assert (g + added)[i] == added[i - |g|];
      }
    }
  }

  lemma LastBlock(ss: seq<Segment>)
    requires Aligned(ss) && ss != []
    ensures Total(ss) % 8 == 0 <==> ss[|ss| - 1].size % 8 == 0
  {
    var n := |ss| - 1;
    TotalOfBlocks(ss[..n]);
    SameRest(Total(ss[..n]), ss[n].size);
  }

  lemma TrimmedBlock(ss: seq<Segment>, t: seq<Segment>)
    requires Aligned(ss) && ss != [] && |t| == |ss| && forall i :: 0 <= i < |ss| ==> t[i] == ss[i].(capacity := ss[i].size)
    ensures Aligned(t) <==> ss[|ss| - 1].size % 8 == 0
  {
    var n := |ss| - 1;
    if Aligned(t) {
      assert t[n].capacity % 8 == 0;
    } else if ss[n].size % 8 == 0 {
      forall i | 0 <= i < |t|
        ensures t[i].start % 8 == 0 && t[i].capacity % 8 == 0 && (i < n ==> t[i].size % 8 == 0)
      {
        assert ss[i].start % 8 == 0 && (i < n ==> ss[i].size % 8 == 0);
      }
    }
  }

  /** Without the room behind its bytes, the last segment has to end where an offset of 8 does. */
  lemma TrimmedAligned(ss: seq<Segment>, k: nat)
    requires Aligned(ss) && (k == |ss| || (k == 0 && Total(ss) == 0))
    ensures Aligned(Trimmed(ss[..k])) <==> Total(ss) % 8 == 0
  {
    hide Total;
    assert Trimmed([]) == [] && Aligned([]);
    hide Aligned;
    hide Trimmed;
    if k == 0 {
      assert ss[..0] == [];
      if ss == [] { TotalOfBlocks(ss); }
    } else {
      LastBlock(ss);
      assert ss[..k] == ss;
      TrimmedBlock(ss, Trimmed(ss));
    }
  }

  lemma ErasedAligned(ss: seq<Segment>, st: Stretch)
    requires Aligned(ss) && st.first <= st.last <= |ss|
    ensures Aligned(st.Without(ss))
  {
  }

  lemma JoinedAligned(hs: seq<Segment>, ss: seq<Segment>, st: Stretch)
    requires Blocks(hs) && Aligned(ss) && st.first <= st.last <= |ss| && (st.first == st.last || st.last < |ss|)
    ensures Blocks(hs + st.In(ss))
  {
    hide Total;
  }

  /** What is held in successive segments of these capacities, if it has a multiple of 8 bytes. */
  lemma HeldAligned(ss: seq<Segment>)
    requires Packed(ss) && StartsAtZero(ss) && Total(ss) % 8 == 0
    requires forall i :: 0 <= i < |ss| ==> ss[i].capacity % 8 == 0
    ensures Blocks(ss)
  {
    hide Total;
    if ss != [] {
      var n := |ss| - 1;
      forall i | 0 <= i < n ensures ss[..n][i].size % 8 == 0 {
        assert ss[i].size == ss[i].capacity;
      }
      TotalOfBlocks(ss[..n]);
      TotalStep(ss, n);
      assert ss[..n + 1] == ss;
      SameRest(Total(ss[..n]), ss[n].size);
    }
  }

  /** Some successive segments, and how many bytes are in them. */
  datatype Stretch = Stretch(first: nat, last: nat, bytes: nat) {
    /** It is one of ss, and begins at the position x of the stream if it is not empty. */
    ghost predicate Of(ss: seq<Segment>, x: nat): (b: bool)
      ensures b ==> first <= last <= |ss|
    {
      && first <= last <= |ss| && Total(ss[..last]) == Total(ss[..first]) + bytes
      && (first == last <==> bytes == 0) && (first < last ==> Total(ss[..first]) == x)
    }

    ghost function In(ss: seq<Segment>): seq<Segment>
      requires first <= last <= |ss|
    {
      ss[first..last]
    }

    lemma Straight(ss: seq<Segment>, x: nat)
      requires Of(ss, x)
      ensures first <= last <= |ss| && (first == last <==> bytes == 0)
    {
    }

    lemma InAmong(ss: seq<Segment>)
      requires first <= last <= |ss|
      ensures Bufs(In(ss)) <= Bufs(ss)
    {
    }

    ghost function Without(ss: seq<Segment>): seq<Segment>
      requires first <= last <= |ss|
    {
      ss[..first] + ss[last..]
    }

    /** Where a segment after the stretch is when that is gone. */
    lemma After(ss: seq<Segment>, x: nat, m: nat)
      requires Of(ss, x) && m <= |ss| && (bytes == 0 || last <= m)
      ensures last - first <= m && |Without(ss)| == |ss| - (last - first)
      ensures m < |ss| ==> Without(ss)[m - (last - first)] == ss[m]
      ensures Total(Without(ss)[..m - (last - first)]) == Total(ss[..m]) - bytes
      ensures Total(Without(ss)) == Total(ss) - bytes
    {
      hide Total;
      TotalErase(ss, first, last);
      if first < last {
        TotalErase(ss[..m], first, last);
        EraseTake(ss, first, last, m);
      } else {
        assert Without(ss) == ss;
      }
    }
  }

  /** The segments an extraction has made itself: those for its head, once that has been copied, and
      those for its tail. */
  datatype Made = NoHead | Made(head: seq<Segment>, tail: seq<Segment>) {
    ghost predicate Some() {
      Made? && head != [] && DistinctBufs(head + tail)
    }

    /** The buffers of all but the first. */
    ghost function Rest(): set<array<char>> {
      if Some() then Bufs((head + tail)[1..]) else {}
    }

    lemma RestIsSome()
      requires Made? ==> Some()
      ensures Rest() != {} <==> Made? && (|head| > 1 || tail != [])
      ensures Made? ==> Rest() <= Bufs(head + tail)
    {
      if Made? {
        AllButFirst(head + tail, head + tail);
        if |head + tail| > 1 {
          assert (head + tail)[1..][0].data in Bufs((head + tail)[1..]);
        }
      }
    }
  }

  /** What is left of the stream c when the n bytes from x on are gone, and at pos of it what came
      after them. */
  ghost predicate Left(c: seq<char>, now: seq<char>, pos: nat, x: nat, n: nat) {
    && x <= pos <= |now| && pos + n <= |c|
    && now == c[..x] + c[x + n..] && now[pos..] == c[pos + n..]
  }

  lemma LeftRest(c: seq<char>, now: seq<char>, pos: nat, x: nat, n: nat)
    requires Left(c, now, pos, x, n)
    ensures x <= pos <= |now| && pos + n <= |c| && now == c[..x] + c[x + n..] && now[pos..] == c[pos + n..]
  {
  }

  lemma WithoutApart(ss: seq<Segment>, st: Stretch, x: nat)
    requires Sound(ss, true) && st.Of(ss, x)
    ensures Bufs(st.Without(ss)) !! Bufs(st.In(ss)) && Bufs(st.Without(ss)) <= Bufs(ss)
    ensures Packed(ss) ==> Packed(st.Without(ss))
  {
    ErasedApart(ss, st.first, st.last);
    SoundErase(ss, st.first, st.last);
  }

  ghost predicate DistinctBufs(ss: seq<Segment>) {
    forall i, j :: 0 <= i < j < |ss| ==> ss[i].data != ss[j].data
  }

  class Iter {
    var mSegment: nat
    var mBuf: array?<char>    // mData points into this buffer, at index mData
    var mData: nat
    var mDataEnd: nat

    /** The stated invariants (0) to (2), and that the pointers are those of the segment. */
    ghost predicate In(ss: seq<Segment>)
      reads this
    {
      if ss == [] then mSegment == 0 && mBuf == null && mData == 0 == mDataEnd
      else
        && mSegment < |ss| && mBuf == ss[mSegment].data
        && ss[mSegment].start <= mData <= mDataEnd == ss[mSegment].start + ss[mSegment].size
        && mDataEnd <= mBuf.Length
        && (mSegment + 1 < |ss| ==> mData < mDataEnd)
    }

    /** The position in the stream. */
    ghost function Pos(ss: seq<Segment>): nat
      requires In(ss)
      reads this
    {
      if ss == [] then 0 else Total(ss[..mSegment]) + (mData - ss[mSegment].start)
    }

    constructor (list: BufferList)
      requires AllFit(list.mSegments) && Solid(list.mSegments)
      ensures In(list.mSegments) && Pos(list.mSegments) == 0
      ensures mSegment == 0 && (list.mSegments != [] ==> mData == list.mSegments[0].start)
    {
      mSegment, mBuf, mData, mDataEnd := 0, null, 0, 0;
      new;
      if list.mSegments != [] {
        mBuf := list.mSegments[0].data;
        mData := list.mSegments[0].start;
        mDataEnd := list.mSegments[0].start + list.mSegments[0].size;
      }
    }

    constructor Copy(other: Iter)
      ensures mSegment == other.mSegment && mBuf == other.mBuf
      ensures mData == other.mData && mDataEnd == other.mDataEnd
    {
      mSegment, mBuf, mData, mDataEnd := other.mSegment, other.mBuf, other.mData, other.mDataEnd;
    }

    predicate HasRoomFor(n: nat)
      requires mData <= mDataEnd
      reads this
    {
      mDataEnd - mData >= n
    }

    function RemainingInSegment(): nat
      requires mData <= mDataEnd
      reads this
    {
      mDataEnd - mData
    }

    predicate Done()
      reads this
    {
      mData == mDataEnd
    }

    lemma RoomInOne(ss: seq<Segment>, n: nat)
      requires In(ss) && Solid(ss) && (Done() || HasRoomFor(n))
      ensures Pos(ss) + n <= Total(ss) ==> OneHolds(ss, n)
    {
      hide Total;
      DoneAtEnd(ss);
      if ss != [] && HasRoomFor(n) {
        assert n <= ss[mSegment].size;
      }
    }

    /** The head that Extract copies, if there are as many bytes as it is asked for. */
    lemma HeadAligned(ss: seq<Segment>, n: nat)
      requires In(ss) && Aligned(ss) && mData % 8 == 0 && n % 8 == 0 && Pos(ss) + n <= Total(ss)
      ensures n < RemainingInSegment() || RemainingInSegment() % 8 == 0 || n == RemainingInSegment()
    {
      hide Total;
      if ss != [] {
        TotalAround(ss, mSegment);
        if mSegment == |ss| - 1 {
          assert ss[..mSegment + 1] == ss;
        }
      }
    }

    /** An iterator in a segment after the stretch, and another one that follows it when that is gone. */
    lemma Shifted(other: Iter, ss: seq<Segment>, st: Stretch, x: nat)
      requires In(ss) && Solid(ss) && st.Of(ss, x) && (st.bytes == 0 || st.last <= mSegment)
      requires other.mSegment == mSegment - (st.last - st.first)
      requires other.mBuf == mBuf && other.mData == mData && other.mDataEnd == mDataEnd
      ensures other.In(st.Without(ss)) && other.Pos(st.Without(ss)) == Pos(ss) - st.bytes <= Total(st.Without(ss))
    {
      hide Total;
      hide Stretch.Of;
      st.After(ss, x, mSegment);
      DoneAtEnd(ss);
    }

    lemma InBounds(ss: seq<Segment>)
      requires In(ss)
      ensures mSegment < |ss| || (ss == [] && mSegment == 0 && Done())
    {
    }

    /** The end of the data in a segment is the end of the stream only in the last one. */
    lemma DoneAtEnd(ss: seq<Segment>)
      requires Solid(ss) && In(ss)
      ensures Pos(ss) + RemainingInSegment() <= Total(ss)
      ensures Done() <==> Pos(ss) == Total(ss)
    {
      if ss != [] {
        TotalAround(ss, mSegment);
        if mSegment + 1 < |ss| {
          TotalAround(ss, mSegment + 1);
        }
      }
    }

    /** The first k segments lie behind the iterator, which is at the start of the next one. */
    ghost predicate Reached(ss: seq<Segment>, k: nat)
      requires k <= |ss|
      reads this
    {
      && In(ss) && (k > 0 ==> Total(ss) > 0)
      && (if Done() then k == |ss| || (k == 0 && Total(ss) == 0) else k == mSegment && mData == ss[k].start)
    }

    /** The bytes at Data() are those of the stream at the iterator's position. */
    lemma DataHere(ss: seq<Segment>, n: nat)
      requires AllFit(ss) && In(ss) && ss != [] && n <= RemainingInSegment()
      ensures Pos(ss) + n <= |Flat(View(ss))|
      ensures Flat(View(ss))[Pos(ss)..Pos(ss) + n] == mBuf[mData..mData + n]
    {
      hide Flat;
      hide Total;
      hide View;
      var lo := mData - ss[mSegment].start;
      PartOfStream(ss, mSegment, lo, lo + n);
      PartOfBuffer(ss[mSegment], lo, lo + n);
    }

    /** Moves on within the segment, and to the start of the next one at its end. */
    method Advance(list: BufferList, n: nat)
      requires AllFit(list.mSegments) && Solid(list.mSegments)
      requires In(list.mSegments) && list.mSegments != [] && n <= RemainingInSegment()
      modifies this
      ensures In(list.mSegments) && Pos(list.mSegments) == old(Pos(list.mSegments)) + n
      ensures n < old(RemainingInSegment()) || old(mSegment) + 1 == |list.mSegments|
              ==> mSegment == old(mSegment) && mData == old(mData) + n
      ensures n == old(RemainingInSegment()) && old(mSegment) + 1 < |list.mSegments|
              ==> mSegment == old(mSegment) + 1 && mData == list.mSegments[mSegment].start
    {
      ghost var ss := list.mSegments;
      assert ss[..mSegment + 1][..mSegment] == ss[..mSegment];
      mData := mData + n;
      if mData == mDataEnd && mSegment + 1 < |list.mSegments| {
        mSegment := mSegment + 1;
        var nextSegment := list.mSegments[mSegment];
        mBuf := nextSegment.data;
        mData := nextSegment.start;
        mDataEnd := nextSegment.start + nextSegment.size;
        assert Fits(nextSegment) && mData < mDataEnd;
      }
    }

    /** Moves on over any number of segments; false, and at the end, if the stream is too short. */
    method AdvanceAcrossSegments(list: BufferList, n: nat) returns (ok: bool)
      requires AllFit(list.mSegments) && Solid(list.mSegments) && In(list.mSegments)
      modifies this
      ensures In(list.mSegments)
      ensures ok <==> old(Pos(list.mSegments)) + n <= Total(list.mSegments)
      ensures Pos(list.mSegments) == if ok then old(Pos(list.mSegments)) + n else Total(list.mSegments)
    {
      ghost var ss, p := list.mSegments, Pos(list.mSegments);
      var bytes := n;
      DoneAtEnd(ss);
      while bytes > 0
        invariant 0 <= bytes <= n && In(ss) && Pos(ss) == p + (n - bytes) <= Total(ss)
      {
        DoneAtEnd(ss);
        var toAdvance := if bytes < RemainingInSegment() then bytes else RemainingInSegment();
        if toAdvance == 0 {
          return false;
        }
        Advance(list, toAdvance);
        bytes := bytes - toAdvance;
      }
      return true;
    }

    ghost predicate IsIn(ss: seq<Segment>)
      reads this
    {
      mSegment < |ss| && mBuf == ss[mSegment].data && ss[mSegment].start <= mData < ss[mSegment].start + ss[mSegment].size
    }

    lemma Earlier(ss: seq<Segment>, target: Iter)
      requires AllFit(ss) && In(ss) && target.In(ss) && IsIn(ss) && target.IsIn(ss) && Pos(ss) <= target.Pos(ss)
      ensures mSegment <= target.mSegment
      ensures mSegment == target.mSegment ==> mData <= target.mData
    {
      if target.mSegment < mSegment {
        TotalIsStart(ss, target.mSegment);
        TotalIsStart(ss, mSegment);
        StartOfLater(View(ss), target.mSegment, mSegment);
      }
    }

    /** Meant to be the distance to target, summed up over the segments between. Having taken the
        rest of a segment, the loop goes on from the start of that same segment, not of the next
        one, so the differences it adds are between buffers: the sum is off by as much as the
        segments of the two iterators are apart in memory. addr says where a buffer is, and word
        how many values a size_t has. ok is false where the release assertion fails. */
    method BytesUntil(list: BufferList, target: Iter, addr: array<char> -> nat, word: nat) returns (ok: bool, offset: nat)
      requires AllFit(list.mSegments) && In(list.mSegments) && target.In(list.mSegments) && word > 0
      requires IsIn(list.mSegments) && target.IsIn(list.mSegments)
      requires Pos(list.mSegments) <= target.Pos(list.mSegments)
      ensures mSegment <= target.mSegment
      ensures ok <==> Reaches(list.mSegments, target, addr)
      ensures ok ==> offset == Wrap(target.Pos(list.mSegments) - Pos(list.mSegments)
                                    + Address(list.mSegments[target.mSegment], addr)
                                    - Address(list.mSegments[mSegment], addr), word)
    {
      hide Wrap;
      hide Total;
      ghost var ss := list.mSegments;
      ghost var p, q := Pos(ss), target.Pos(ss);
      Earlier(ss, target);
      offset := 0;
      ghost var sum := 0;
      WrapStart(word);
      var data: nat := addr(mBuf) + mData;
      for segment := mSegment to target.mSegment
        invariant offset == Wrap(sum, word)
        invariant data == if segment == mSegment then addr(mBuf) + mData else Address(ss[segment - 1], addr)
        invariant p + sum == Total(ss[..segment])
                             + (if segment == mSegment then mData - ss[segment].start
                                else Address(ss[segment - 1], addr) - Address(ss[mSegment], addr))
      {
        TotalStep(ss, segment);
        var end := Address(list.mSegments[segment], addr) + list.mSegments[segment].size;
        WrapSum(sum, end - data, word);
        offset := Wrap(offset + (end - data), word);
        sum := sum + (end - data);
        data := Address(list.mSegments[segment], addr);
      }
      var last: nat := addr(target.mBuf) + target.mData;
      if last < data {
        return false, 0;
      }
      WrapSum(sum, last - data, word);
      offset := Wrap(offset + (last - data), word);
      return true, offset;
    }

    /** The release assertion: target is not below the segment the loop has come to, in memory. */
    ghost predicate Reaches(ss: seq<Segment>, target: Iter, addr: array<char> -> nat)
      requires IsIn(ss) && target.IsIn(ss) && mSegment <= target.mSegment
      reads this, target
    {
      mSegment < target.mSegment ==> addr(target.mBuf) + target.mData >= Address(ss[target.mSegment - 1], addr)
    }
  }

  /** Where the segment's bytes are in memory. */
  function Address(s: Segment, addr: array<char> -> nat): nat {
    addr(s.data) + s.start
  }

  /** Arithmetic in a size_t. */
  function Wrap(x: int, word: nat): (r: nat)
    requires word > 0
    ensures r < word
  {
    x % word
  }

  lemma WrapStart(word: nat)
    requires word > 0
    ensures Wrap(0, word) == 0
  {
  }

  lemma WrapSum(a: int, b: int, word: nat)
    requires word > 0
    ensures Wrap(Wrap(a, word) + b, word) == Wrap(a + b, word)
  {
    var q := a / word;
    var c := a % word + b;
    assert a + b == q * word + c;
    WrapTimes(q, c, word);
  }

  lemma WrapTimes(q: int, c: int, word: nat)
    requires word > 0
    ensures (q * word + c) % word == c % word
  {
    var x := q * word + c;
    assert c == (c / word) * word + c % word && x == (x / word) * word + x % word;
    SmallMultiple(x / word - q - c / word, c % word - x % word, word);
  }

  lemma Multiples(k: int, word: nat)
    ensures k >= 1 ==> k * word >= word
    ensures k <= -1 ==> k * word + word <= 0
  {
    if k >= 1 {
      assert (k - 1) * word >= 0;
    } else if k <= -1 {
      assert (-k - 1) * word >= 0;
    }
  }

  lemma SmallMultiple(k: int, r: int, word: nat)
    requires k * word == r && 0 < r + word && r < word
    ensures k == 0 && r == 0
  {
    Multiples(k, word);
  }

  /** A sum that is off comes out right in a size_t only if it is off by nothing. */
  lemma WrapRight(d: nat, off: int, word: nat)
    requires d < word && 0 < off + word && off < word
    ensures Wrap(d + off, word) == d <==> off == 0
  {
    if Wrap(d + off, word) == d {
      var x := d + off;
      assert x == (x / word) * word + d;
      SmallMultiple(x / word, off, word);
    }
  }

  /** What every completed operation leaves behind, apart from the byte count. */
  ghost predicate Sound(ss: seq<Segment>, owning: bool): (b: bool)
    ensures b ==> AllFit(ss) && Solid(ss)
  {
    AllFit(ss) && Solid(ss) && (owning ==> DistinctBufs(ss) && StartsAtZero(ss))
  }

  ghost predicate StartsAtZero(ss: seq<Segment>) {
    forall i :: 0 <= i < |ss| ==> ss[i].start == 0
  }

  // The answers of the allocator are given as a function of the number of the request; at is the number
  // of the next one. A place in a vector of segments that has room left counts as a request that is granted.

  /** A new segment takes two requests, for its buffer and for its place in the list. */
  predicate Had(memory: nat -> bool, at: nat) {
    memory(at) && memory(at + 1)
  }

  /** The number of the next request after those. */
  function Asked(memory: nat -> bool, at: nat): nat {
    if memory(at) then at + 2 else at + 1
  }

  ghost predicate Granted(memory: nat -> bool, at: nat, upto: nat) {
    at <= upto && forall i :: at <= i < upto ==> memory(i)
  }

  /** The last request was refused, and no other. */
  ghost predicate Refused(memory: nat -> bool, at: nat, upto: nat) {
    at < upto && !memory(upto - 1) && Granted(memory, at, upto - 1)
  }

  /** An operation that needs memory succeeds if it got all it asked for, and stops at the first refusal. */
  ghost predicate AsAnswered(ok: bool, memory: nat -> bool, at: nat, upto: nat) {
    if ok then Granted(memory, at, upto) else Refused(memory, at, upto)
  }

  lemma NothingAsked(memory: nat -> bool, at: nat)
    ensures AsAnswered(true, memory, at, at)
  {
  }

  lemma OneAsked(memory: nat -> bool, at: nat)
    ensures AsAnswered(memory(at), memory, at, at + 1)
  {
  }

  lemma SegmentAsked(memory: nat -> bool, at: nat)
    ensures AsAnswered(Had(memory, at), memory, at, Asked(memory, at))
  {
  }

  lemma AskedOn(ok: bool, memory: nat -> bool, at: nat, next: nat, upto: nat)
    requires AsAnswered(true, memory, at, next) && AsAnswered(ok, memory, next, upto)
    ensures AsAnswered(ok, memory, at, upto)
  {
  }

  class BufferList {
    var mOwning: bool
    var mSegments: seq<Segment>
    var mSize: nat
    var mStandardCapacity: nat

    ghost predicate Valid()
      reads this
    {
      Sound(mSegments, mOwning) && mSize == Total(mSegments)
    }

    ghost function Contents(): seq<char>
      requires AllFit(mSegments)
      reads this`mSegments, Bufs(mSegments)
    {
      Flat(View(mSegments))
    }

    /** The buffers that are freed with the list. */
    ghost function Owned(): set<array<char>>
      reads this
    {
      if mOwning then Bufs(mSegments) else {}
    }

    /** An initial buffer is allocated if asked for; its bytes are whatever memory held. */
    constructor (initialSize: nat, initialCapacity: nat, standardCapacity: nat, memory: nat -> bool, at: nat)
      requires initialSize <= initialCapacity
      ensures Valid() && mOwning && mStandardCapacity == standardCapacity
      ensures |mSegments| <= 1 && fresh(Bufs(mSegments)) && Packed(mSegments)
      ensures mSegments != [] <==> initialCapacity > 0 && Had(memory, at)
      ensures mSegments != [] ==> mSegments[0].size == initialSize && mSegments[0].capacity == initialCapacity
      ensures mSize == if mSegments == [] then 0 else initialSize
    {
      mOwning, mSegments, mSize, mStandardCapacity := true, [], 0, standardCapacity;
      new;
      if initialCapacity > 0 {
        var data := AllocateSegment(initialSize, initialCapacity, memory, at);
        if data != null {
          assert mSegments == [Segment(data, 0, initialSize, initialCapacity)];
          assert mSegments[..0] == [];
        }
      }
    }

    /** The private constructor, for a list that does not own its buffers. */
    constructor Borrowing()
      ensures Valid() && !mOwning && mSegments == [] && mSize == 0
    {
      mOwning, mSegments, mSize, mStandardCapacity := false, [], 0, 0;
    }

    method AllocateSegment(size: nat, capacity: nat, memory: nat -> bool, at: nat) returns (data: array?<char>)
      requires mOwning && size <= capacity && 0 < capacity
      modifies this`mSegments, this`mSize
      ensures data != null <==> Had(memory, at)
      ensures data == null ==> mSegments == old(mSegments) && mSize == old(mSize)
      ensures data != null ==> fresh(data) && data.Length == capacity
      ensures data != null ==> mSegments == old(mSegments) + [Segment(data, 0, size, capacity)]
      ensures data != null ==> mSize == old(mSize) + size
    {
      if !memory(at) {
        return null;
      }
      var buffer := new char[capacity];
      if !memory(at + 1) {
        return null;
      }
      mSegments := mSegments + [Segment(buffer, 0, size, capacity)];
      mSize := mSize + size;
      data := buffer;
    }

    ghost function LastBuf(): set<array<char>>
      reads this
    {
      if mSegments == [] then {} else {mSegments[|mSegments| - 1].data}
    }

    /** Copies part into the room left in the last segment. The bytes already there stay. */
    method PutInLast(part: seq<char>)
      requires mSegments != [] && AllFit(mSegments) && DistinctBufs(mSegments)
      requires mSegments[|mSegments| - 1].start == 0 && |part| <= Room(mSegments)
      modifies this`mSegments, this`mSize, LastBuf()
      ensures mSegments == Grown(old(mSegments), |part|) && mSize == old(mSize) + |part|
      ensures AllFit(mSegments) && View(mSegments) == old(GrownView(View(mSegments), part))
      ensures Bytes(old(mSegments)[|old(mSegments)| - 1]) == old(Bytes(mSegments[|mSegments| - 1]))
    {
      hide Bufs;
      hide Total;
      hide Flat;
      var n := |mSegments| - 1;
      var last := mSegments[n];
      assert Fits(last);
      ghost var ss, head := mSegments, mSegments[..n];
      ghost var was, lastWas := View(head), Bytes(last);
      Memcpy(last.data, last.size, part);
      var grown := last.(size := last.size + |part|);
      mSegments := mSegments[n := grown];
      mSize := mSize + |part|;
      assert View(head) == was;
      LastGrows(last, grown, lastWas, part);
      ViewSnoc(head, grown);
      assert mSegments == head + [grown];
    }

    /** The first part of WriteBytes: uses up the room left in the last segment. */
    method FillLast(src: seq<char>) returns (copied: nat)
      requires mOwning && Sound(mSegments, true)
      modifies this`mSegments, this`mSize, LastBuf()
      ensures mSegments == Grown(old(mSegments), copied) && mSize == old(mSize) + copied
      ensures copied <= |src| && (copied < |src| ==> Room(mSegments) == 0)
      ensures copied == if |src| < Room(old(mSegments)) then |src| else Room(old(mSegments))
      ensures AllFit(mSegments) && Contents() == old(Contents()) + src[..copied]
      ensures LastKept(old(mSegments))
    {
      if mSegments == [] {
        assert old(Contents()) + src[..0] == old(Contents());
        return 0;
      }
      var last := mSegments[|mSegments| - 1];
      assert last in mSegments && Fits(last);
      copied := last.capacity - last.size;
      if |src| < copied {
        copied := |src|;
      }
      FlatGrown(View(mSegments), src[..copied]);
      PutInLast(src[..copied]);
    }

    /** One round of WriteBytes' loop: a new segment that holds chunk. */
    method AppendSegment(chunk: seq<char>, capacity: nat, memory: nat -> bool, at: nat)
      returns (ok: bool, ghost s: Segment)
      requires mOwning && AllFit(mSegments) && |chunk| <= capacity && 0 < capacity
      modifies this`mSegments, this`mSize
      ensures ok <==> Had(memory, at)
      ensures !ok ==> mSegments == old(mSegments) && mSize == old(mSize)
      ensures ok ==> mSegments == old(mSegments) + [s] && mSize == old(mSize) + |chunk|
      ensures ok ==> NewSegment(s, |chunk|, capacity) && fresh(s.data)
      ensures ok ==> AllFit(mSegments) && View(mSegments) == old(View(mSegments)) + [chunk]
    {
      hide Total;
      hide Flat;
      ghost var ss, v := mSegments, View(mSegments);
      assert allocated(Bufs(ss));
      var data := AllocateSegment(|chunk|, capacity, memory, at);
      if data == null {
        s := *;
        return false, s;
      }
      Memcpy(data, 0, chunk);
      s := Segment(data, 0, |chunk|, capacity);
      assert Bytes(s) == chunk;
      assert View(ss) == v;
      ViewSnoc(ss, s);
      return true, s;
    }

    /** One more segment keeps the list sound. */
    method AddChunk(chunk: seq<char>, memory: nat -> bool, at: nat) returns (ok: bool, ghost s: Segment)
      requires mOwning && Sound(mSegments, true) && 0 < |chunk| <= mStandardCapacity && Room(mSegments) == 0
      modifies this`mSegments, this`mSize
      ensures Sound(mSegments, true) && (old(Packed(mSegments)) ==> Packed(mSegments))
      ensures ok <==> Had(memory, at)
      ensures !ok ==> mSegments == old(mSegments) && mSize == old(mSize)
      ensures ok ==> mSegments == old(mSegments) + [s] && mSize == old(mSize) + |chunk|
      ensures ok ==> fresh(s.data) && Room(mSegments) == mStandardCapacity - |chunk|
      ensures ok ==> s.capacity == mStandardCapacity && s.start == 0
      ensures Contents() == if ok then old(Contents()) + chunk else old(Contents())
    {
      hide Sound;
      hide Packed;
      hide Flat;
      ghost var ss, v := mSegments, View(mSegments);
      assert allocated(Bufs(ss));
      ok, s := AppendSegment(chunk, mStandardCapacity, memory, at);
      if ok {
        assert s.data !in Bufs(ss);
        FullLastIsFilled(ss);
        SoundSnoc(ss, s);
        FlatSnoc(v, chunk);
      }
    }

    /** The loop of WriteBytes. */
    method WriteRest(src: seq<char>, memory: nat -> bool, at: nat)
      returns (ok: bool, upto: nat, ghost written: nat, ghost added: seq<Segment>)
      requires mOwning && Sound(mSegments, true) && mStandardCapacity > 0 && (src != [] ==> Room(mSegments) == 0)
      modifies this`mSegments, this`mSize
      ensures Sound(mSegments, true) && (old(Packed(mSegments)) ==> Packed(mSegments))
      ensures AsAnswered(ok, memory, at, upto)
      ensures written <= |src| && (ok <==> written == |src|) && mSize == old(mSize) + written
      ensures Contents() == old(Contents()) + src[..written]
      ensures mSegments == old(mSegments) + added && fresh(Bufs(added)) && (src == [] ==> added == [])
      ensures ok && src != [] ==> Room(mSegments) == Unused(|src|, mStandardCapacity)
      ensures AllOf(added, mStandardCapacity) && FullButLast(added) && StartsAtZero(added)
    {
      hide Sound;
      hide Packed;
      hide Contents;
      hide Room;
      hide Unused;
      hide Bufs;
      hide AllOf;
      hide FullButLast;
      hide StartsAtZero;
      hide AsAnswered;
      var copied := 0;
      added, upto := [], at;
      NothingAsked(memory, at);
      NoneAdded(mStandardCapacity);
      NoBufs();
      NoneUnused(mStandardCapacity);
      ghost var s;
      assert old(Contents()) + src[..0] == old(Contents()) && old(mSegments) + [] == old(mSegments);
      while copied < |src|
        invariant 0 <= copied <= |src| && Sound(mSegments, true) && mSize == old(mSize) + copied
        invariant AsAnswered(true, memory, at, upto)
        invariant Contents() == old(Contents()) + src[..copied]
        invariant copied < |src| ==> Room(mSegments) == Unused(copied, mStandardCapacity) == 0
        invariant copied > 0 ==> Room(mSegments) == Unused(copied, mStandardCapacity)
        invariant old(Packed(mSegments)) ==> Packed(mSegments)
        invariant mSegments == old(mSegments) + added && fresh(Bufs(added)) && (src == [] ==> added == [])
        invariant AllOf(added, mStandardCapacity) && FullButLast(added) && StartsAtZero(added)
      {
        var toCopy := if |src| - copied < mStandardCapacity then |src| - copied else mStandardCapacity;
        var appended;
        assert Room(old(mSegments) + added) == 0;
        appended, s := AddChunk(src[copied..copied + toCopy], memory, upto);
        SegmentAsked(memory, upto);
        AskedOn(appended, memory, at, upto, Asked(memory, upto));
        upto := Asked(memory, upto);
        if !appended {
          return false, upto, copied, added;
        }
        FullSnoc(old(mSegments), added, s, mStandardCapacity);
        AppendMore(old(Contents()), src, copied, toCopy);
        BufsSnoc(added, s);
        Regroup(old(mSegments), added, s);
        UnusedStep(copied, toCopy, mStandardCapacity);
        copied, added := copied + toCopy, added + [s];
      }
      return true, upto, copied, added;
    }

    /** Appends src, over as many segments as it takes. If memory runs out, part of it has been
        appended. No byte already in the list, or in any other list, is touched. */
    method WriteBytes(src: seq<char>, memory: nat -> bool, at: nat)
      returns (ok: bool, upto: nat, ghost written: nat, ghost filled: nat, ghost added: seq<Segment>)
      requires mOwning && Sound(mSegments, true) && mStandardCapacity > 0
      modifies this`mSegments, this`mSize, LastBuf()
      ensures AsAnswered(ok, memory, at, upto)
      ensures filled <= written <= |src| && (ok <==> written == |src|)
      ensures ok && added != [] ==> Room(mSegments) == Unused(|src| - filled, mStandardCapacity)
      ensures Sound(mSegments, true) && (old(Packed(mSegments)) ==> Packed(mSegments))
      ensures mSize == old(mSize) + written && (old(Valid()) ==> Valid())
      ensures Contents() == old(Contents()) + src[..written]
      ensures filled == if |src| < Room(old(mSegments)) then |src| else Room(old(mSegments))
      ensures mSegments == Grown(old(mSegments), filled) + added && fresh(Bufs(added))
      ensures LastKept(old(mSegments))
      ensures filled == |src| ==> added == []
      ensures AllOf(added, mStandardCapacity) && FullButLast(added) && StartsAtZero(added)
      ensures old(Aligned(mSegments)) && mStandardCapacity % 8 == 0 ==> Aligned(mSegments)
    {
      hide Aligned;
      hide AllOf;
      hide FullButLast;
      hide StartsAtZero;
      hide Contents;
      hide Packed;
      hide Sound;
      hide Unused;
      hide Total;
      hide Room;
      hide Grown;
      hide AllFit;
      hide LastKept;
      hide AsAnswered;
      ghost var c0 := Contents();
      ghost var t0 := Total(mSegments);
      SizeIsLength();
      var copied := FillLast(src);
      filled := copied;
      ghost var g, c1 := mSegments, Contents();
      assert c1 == c0 + src[..filled];
      GrownSound(old(mSegments), filled);
      ok, upto, written, added := WriteRest(src[copied..], memory, at);
      assert mSegments == g + added;
      AppendRest(c0, src, filled, written);
      written := filled + written;
      SizeIsLength();
      if old(Aligned(mSegments)) && mStandardCapacity % 8 == 0 {
        WriteAligned(old(mSegments), filled, added, mStandardCapacity);
      }
    }

    /** Copies n bytes of the stream into dst, as many as there are. */
    method ReadBytes(iter: Iter, dst: array<char>, n: nat) returns (ok: bool, ghost read: nat)
      requires Sound(mSegments, mOwning) && iter.In(mSegments)
      requires n <= dst.Length && dst !in Bufs(mSegments)
      modifies iter, dst
      ensures iter.In(mSegments) && iter.Pos(mSegments) == old(iter.Pos(mSegments)) + read
      ensures ok <==> old(iter.Pos(mSegments)) + n <= |Contents()|
      ensures ok ==> read == n
      ensures !ok ==> read < n && old(iter.Pos(mSegments)) + read == |Contents()|
      ensures Contents() == old(Contents())
      ensures dst[..read] == Contents()[old(iter.Pos(mSegments))..old(iter.Pos(mSegments)) + read]
      ensures dst[read..] == old(dst[read..])
    {
      hide Sound;
      hide Contents;
      hide Total;
      hide Flat;
      hide Iter.Pos;
      ghost var ss, c, p := mSegments, Contents(), iter.Pos(mSegments);
      ghost var d := dst[..];
      var copied := 0;
      SizeIsLength();
      iter.DoneAtEnd(ss);
      assert p <= |c| && dst[..0] == c[p..p];
      while copied < n
        invariant 0 <= copied <= n && iter.In(ss) && iter.Pos(ss) == p + copied <= |c|
        invariant dst[..copied] == c[p..p + copied] && dst[copied..] == d[copied..]
        invariant Contents() == c
      {
        iter.DoneAtEnd(ss);
        var toCopy := if n - copied < iter.RemainingInSegment() then n - copied else iter.RemainingInSegment();
        if toCopy == 0 {
          return false, copied;
        }
        DropMore(dst[..], d, copied, copied + toCopy);
        CopyNext(iter, dst, copied, toCopy, p);
        copied := copied + toCopy;
      }
      return true, copied;
    }

    /** One round of ReadBytes' loop. */
    method CopyNext(iter: Iter, dst: array<char>, copied: nat, n: nat, ghost p: nat)
      requires Sound(mSegments, mOwning) && iter.In(mSegments) && 0 < n <= iter.RemainingInSegment()
      requires copied + n <= dst.Length && dst !in Bufs(mSegments)
      requires iter.Pos(mSegments) == p + copied <= |Contents()|
      requires dst[..copied] == Contents()[p..p + copied]
      modifies iter, dst
      ensures iter.In(mSegments) && iter.Pos(mSegments) == p + copied + n <= |Contents()|
      ensures Contents() == old(Contents())
      ensures dst[..copied + n] == Contents()[p..p + copied + n]
      ensures dst[copied + n..] == old(dst[copied + n..])
    {
      hide Contents;
      hide Total;
      hide Flat;
      StreamAt(iter, n);
      CopyOn(dst, copied, iter.mBuf[iter.mData..iter.mData + n], Contents(), p);
      iter.Advance(this, n);
    }

    /** What Data() shows is the stream at the iterator's position. */
    lemma StreamAt(iter: Iter, n: nat)
      requires AllFit(mSegments) && iter.In(mSegments) && mSegments != [] && n <= iter.RemainingInSegment()
      ensures iter.Pos(mSegments) + n <= |Contents()|
      ensures Contents()[iter.Pos(mSegments)..iter.Pos(mSegments) + n] == iter.mBuf[iter.mData..iter.mData + n]
    {
      iter.DataHere(mSegments, n);
    }

    /** Meant to be the number of bytes between two iterators inside the list. It is, if and only if
        both are in the same segment, where no two segments begin at the same address. */
    method RangeLength(first: Iter, last: Iter, addr: array<char> -> nat, word: nat) returns (ok: bool, length: nat)
      requires AllFit(mSegments) && first.In(mSegments) && last.In(mSegments) && word > 0
      requires first.IsIn(mSegments) && last.IsIn(mSegments)
      requires first.Pos(mSegments) <= last.Pos(mSegments) < word
      requires forall i, j :: 0 <= i < j < |mSegments| ==> Address(mSegments[i], addr) != Address(mSegments[j], addr)
      requires forall i :: 0 <= i < |mSegments| ==> Address(mSegments[i], addr) < word
      ensures ok && length == last.Pos(mSegments) - first.Pos(mSegments) <==> first.mSegment == last.mSegment
    {
      ok, length := first.BytesUntil(this, last, addr, word);
      WrapRight(last.Pos(mSegments) - first.Pos(mSegments),
                Address(mSegments[last.mSegment], addr) - Address(mSegments[first.mSegment], addr), word);
    }

    /** A read-only list over the next n bytes, which shares the buffers of this one. A failed one
        is left with the segments found so far and a byte count of zero. */
    method Borrow(iter: Iter, n: nat, memory: nat -> bool, at: nat)
      returns (ok: bool, result: BufferList, upto: nat, ghost taken: nat)
      requires Sound(mSegments, mOwning) && iter.In(mSegments)
      modifies iter
      ensures fresh(result) && !result.mOwning && Sound(result.mSegments, false) && Packed(result.mSegments)
      ensures Bufs(result.mSegments) <= Bufs(mSegments)
      ensures iter.In(mSegments) && iter.Pos(mSegments) == old(iter.Pos(mSegments)) + taken
      ensures taken <= n && (ok <==> taken == n) && iter.Pos(mSegments) <= |Contents()|
      ensures result.Contents() == Contents()[old(iter.Pos(mSegments))..iter.Pos(mSegments)]
      ensures Granted(memory, at, upto) || (!ok && Refused(memory, at, upto))
      ensures !ok ==> Refused(memory, at, upto)
                      || (iter.Pos(mSegments) == |Contents()| && old(iter.Pos(mSegments)) + n > |Contents()|)
      ensures ok ==> result.mSize == n
      ensures !ok ==> result.mSize == 0
      ensures result.Valid() <==> ok || taken == 0
    {
      hide Solid;
      hide Iter.In;
      hide Flat;
      hide Total;
      hide Contents;
      hide Packed;
      hide Valid;
      hide Lent;
      hide Iter.Pos;
      hide Granted;
      hide Refused;
      ghost var ss, c, p := mSegments, Contents(), iter.Pos(mSegments);
      SizeIsLength();
      iter.DoneAtEnd(ss);
      result := new BufferList.Borrowing();
      upto, taken := at, 0;
      NothingAsked(memory, at);
      var size := n;
      result.EmptyContents();
      while size > 0
        invariant 0 <= size <= n && taken == n - size && iter.In(ss) && iter.Pos(ss) == p + taken <= |c|
        invariant fresh(result) && !result.mOwning && result.mSize == 0
        invariant Lent(result.mSegments) && Bufs(result.mSegments) <= Bufs(ss)
        invariant result.Contents() == c[p..p + taken]
        invariant Granted(memory, at, upto)
      {
        iter.DoneAtEnd(ss);
        var toAdvance := if size < iter.RemainingInSegment() then size else iter.RemainingInSegment();
        if toAdvance == 0 {
          result.LentValid();
          return false, result, upto, taken;
        }
        OneAsked(memory, upto);
        AskedOn(memory(upto), memory, at, upto, upto + 1);
        upto := upto + 1;
        if !memory(upto - 1) {
          result.LentValid();
          return false, result, upto, taken;
        }
        LendNext(iter, result, toAdvance);
        SliceGrows(c, p, p + taken, p + taken + toAdvance);
        taken, size := taken + toAdvance, size - toAdvance;
      }
      result.mSize := n;
      result.LentValid();
      ok := true;
    }

    /** One round of Borrow's loop. */
    method LendNext(iter: Iter, result: BufferList, n: nat)
      requires Sound(mSegments, mOwning) && iter.In(mSegments) && 0 < n <= iter.RemainingInSegment()
      requires result != this && Lent(result.mSegments)
      modifies iter, result`mSegments
      ensures iter.In(mSegments) && iter.Pos(mSegments) == old(iter.Pos(mSegments)) + n <= |Contents()|
      ensures Lent(result.mSegments) && Bufs(result.mSegments) <= old(Bufs(result.mSegments)) + Bufs(mSegments)
      ensures result.Contents() == old(result.Contents()) + Contents()[old(iter.Pos(mSegments))..iter.Pos(mSegments)]
    {
      hide Flat;
      hide Total;
      hide Contents;
      hide Lent;
      StreamAt(iter, n);
      assert Fits(mSegments[iter.mSegment]) && iter.mBuf in Bufs(mSegments);
      result.AppendLent(Segment(iter.mBuf, iter.mData, n, n));
      iter.Advance(this, n);
    }

    lemma EmptyContents()
      requires mSegments == []
      ensures Contents() == [] && Lent(mSegments)
    {
    }

    lemma LentValid()
      requires Lent(mSegments)
      ensures Sound(mSegments, false) && Packed(mSegments)
      ensures !mOwning ==> (Valid() <==> mSize == |Contents()|)
    {
      SizeIsLength();
    }

    method AppendLent(s: Segment)
      requires Lent(mSegments) && Fits(s) && s.size == s.capacity
      modifies this`mSegments
      ensures mSegments == old(mSegments) + [s] && Lent(mSegments)
      ensures Bufs(mSegments) == old(Bufs(mSegments)) + {s.data}
      ensures Contents() == old(Contents()) + s.data[s.start..s.start + s.size]
    {
      hide Flat;
      ViewSnoc(mSegments, s);
      FlatSnoc(View(mSegments), Bytes(s));
      BufsSnoc(mSegments, s);
      mSegments := mSegments + [s];
    }

    /** Hands the buffers over to a new list; this one is empty afterwards. The buffer of a list
        without a byte in it is neither handed over nor freed. */
    method MoveFallible(memory: nat -> bool, at: nat) returns (ok: bool, result: BufferList, upto: nat)
      requires Valid()
      modifies this
      ensures fresh(result) && result.mOwning && result.mStandardCapacity == mStandardCapacity
      ensures AsAnswered(ok, memory, at, upto)
      ensures Valid() && mOwning == old(mOwning) && mStandardCapacity == old(mStandardCapacity)
      ensures ok ==> mSegments == [] && Packed(result.mSegments)
      ensures ok ==> AllFit(result.mSegments) && result.Contents() == old(Contents()) && result.mSize == old(mSize)
      ensures ok && old(mOwning) ==> result.Valid()
      ensures ok ==> Bufs(result.mSegments) == if old(mSize) == 0 then {} else old(Bufs(mSegments))
      ensures ok ==> Owned() == {} && (result.Owned() == old(Owned())
                                       <==> old(mSegments) == [] || (old(mOwning) <==> old(mSize) > 0))
      ensures ok && old(Aligned(mSegments)) ==> (Aligned(result.mSegments) <==> old(mSize) % 8 == 0)
      ensures old(mSize) == 0 ==> ok
      ensures !ok ==> mSegments == old(mSegments) && mSize == old(mSize) && result.mSegments == []
    {
      hide Total;
      hide Aligned;
      hide Flat;
      hide AllFit;
      hide Sound;
      hide Solid;
      hide Packed;
      hide AsAnswered;
      ghost var ss, v := mSegments, View(mSegments);
      assert allocated(Bufs(ss));
      result := new BufferList(0, 0, mStandardCapacity, memory, at);
      ghost var k;
      ok, upto, k := Collect(result, memory, at);
      if !ok {
        result.mSegments := [];
        return;
      }
      assert View(ss) == v;
      TrimmedSame(ss, k, mOwning);
      result.mSize := mSize;
      mSegments := [];
      mSize := 0;
      EmptySound(mOwning);
      SomeBuf(ss);
      if Aligned(ss) {
        TrimmedAligned(ss, k);
      }
    }

    /** MoveFallible's loop. */
    method Collect(result: BufferList, memory: nat -> bool, at: nat) returns (ok: bool, upto: nat, ghost k: nat)
      requires AllFit(mSegments) && Solid(mSegments) && result != this && result.mSegments == []
      modifies result`mSegments
      ensures AsAnswered(ok, memory, at, upto)
      ensures Total(mSegments) == 0 ==> ok
      ensures ok ==> k <= |mSegments| && result.mSegments == Trimmed(mSegments[..k])
      ensures ok ==> (k > 0 ==> Total(mSegments) > 0) && (k == |mSegments| || (k == 0 && Total(mSegments) == 0))
    {
      hide Total;
      hide AsAnswered;
      var iter := new Iter(this);
      k, upto := 0, at;
      NothingAsked(memory, at);
      iter.DoneAtEnd(mSegments);
      while !iter.Done()
        invariant Total(mSegments) == 0 ==> iter.Done()
        invariant AsAnswered(true, memory, at, upto) && fresh(iter) && k <= |mSegments| && iter.Reached(mSegments, k)
        invariant result.mSegments == Trimmed(mSegments[..k])
        decreases |mSegments| - k
      {
        ok := TakeSegment(iter, result, memory(upto), k);
        OneAsked(memory, upto);
        AskedOn(ok, memory, at, upto, upto + 1);
        upto := upto + 1;
        if !ok {
          return;
        }
        k := k + 1;
      }
      ok := true;
    }

    /** One round of MoveFallible's loop. */
    method TakeSegment(iter: Iter, result: BufferList, memory: bool, ghost k: nat) returns (ok: bool)
      requires AllFit(mSegments) && Solid(mSegments) && result != this
      requires k <= |mSegments| && iter.Reached(mSegments, k) && !iter.Done()
      requires result.mSegments == Trimmed(mSegments[..k])
      modifies iter, result`mSegments
      ensures ok == memory
      ensures ok ==> k < |mSegments| && iter.Reached(mSegments, k + 1)
      ensures ok ==> result.mSegments == Trimmed(mSegments[..k + 1])
    {
      hide Total;
      var toAdvance := iter.RemainingInSegment();
      if toAdvance == 0 || !memory {
        return false;
      }
      TrimmedSnoc(mSegments, k);
      iter.DoneAtEnd(mSegments);
      result.mSegments := result.mSegments + [Segment(iter.mBuf, iter.mData, toAdvance, toAdvance)];
      iter.Advance(this, toAdvance);
      iter.DoneAtEnd(mSegments);
      return true;
    }

    /** A new list that holds src. Its own first buffer takes it whole, unless that could not be
        had (initial tells). */
    static method Holding(src: seq<char>, standardCapacity: nat, memory: nat -> bool, at: nat)
      returns (ok: bool, result: BufferList, upto: nat, ghost initial: bool, ghost room: nat)
      requires src != [] && standardCapacity > 0
      ensures fresh(result) && result.mOwning && result.mStandardCapacity == standardCapacity
      ensures fresh(Bufs(result.mSegments)) && Sound(result.mSegments, true)
      ensures (initial <==> Had(memory, at)) && AsAnswered(ok, memory, Asked(memory, at), upto)
      ensures ok ==> Filled(result.mSegments) && result.mSegments != [] && Packed(result.mSegments)
      ensures ok ==> result.Contents() == src
      ensures ok ==> room == Room(result.mSegments) == if initial then 0 else Unused(|src|, standardCapacity)
      ensures ok ==> (|result.mSegments| > 1 <==> !initial && |src| > standardCapacity)
      ensures ok && |src| % 8 == 0 && standardCapacity % 8 == 0 ==> Blocks(result.mSegments)
    {
      hide Blocks;
      hide Aligned;
      hide Filled;
      hide Total;
      hide Flat;
      hide Unused;
      hide View;
      hide AsAnswered;
      hide Asked;
      hide Had;
      result := new BufferList(0, |src|, standardCapacity, memory, at);
      ghost var r0 := result.mSegments;
      initial := r0 != [];
      result.SizeIsLength();
      GrownSound(r0, if initial then |src| else 0);
      assert result.LastBuf() <= Bufs(r0);
      ghost var written, filled, added;
      ok, upto, written, filled, added := result.WriteBytes(src, memory, Asked(memory, at));
      BufsConcat(Grown(r0, filled), added);
      result.SizeIsLength();
      room := 0;
      if ok {
        room := Room(result.mSegments);
        assert initial ==> |result.mSegments| == 1 && result.mSegments[0].capacity == |src|;
        assert !initial ==> result.mSegments == added;
        Held(result.mSegments, initial, standardCapacity);
      }
    }

    /** The second step of Extract: whole segments pass to result while more is wanted than the
        iterator's segment holds. */
    method Transplant(iter: Iter, size: nat, result: BufferList, memory: nat -> bool, at: nat, ghost x: nat)
      returns (ok: bool, st: Stretch, upto: nat)
      requires AllFit(mSegments) && Solid(mSegments) && iter.In(mSegments) && result != this
      requires iter.Pos(mSegments) == x
      requires size > 0 && !iter.Done() ==> iter.mData == mSegments[iter.mSegment].start
      modifies iter, result`mSegments
      ensures AsAnswered(ok, memory, at, upto)
      ensures st.Of(mSegments, x) && result.mSegments == old(result.mSegments) + st.In(mSegments)
      ensures iter.In(mSegments) && iter.Pos(mSegments) == x + st.bytes
      ensures st.bytes <= size && (size > 0 ==> st.bytes < size)
      ensures ok ==> iter.Done() || iter.HasRoomFor(size - st.bytes)
      ensures iter.mSegment == st.last || (iter.Done() && st.last == |mSegments|)
    {
      hide Total;
      hide AsAnswered;
      ghost var ss, rs := mSegments, result.mSegments;
      upto := at;
      NothingAsked(memory, at);
      var moved, first, last := 0, iter.mSegment, iter.mSegment;
      assert rs + ss[first..first] == rs;
      while !iter.Done() && !iter.HasRoomFor(size - moved)
        invariant first <= last <= |ss| && 0 <= moved <= size && (size > 0 ==> moved < size)
        invariant Stretch(first, last, moved).Of(ss, x)
        invariant result.mSegments == rs + ss[first..last]
        invariant iter.In(ss) && iter.Pos(ss) == x + moved
        invariant size > 0 && !iter.Done() ==> iter.mData == ss[iter.mSegment].start
        invariant iter.mSegment == last || (iter.Done() && last == |ss|)
        invariant AsAnswered(true, memory, at, upto)
        decreases |ss| - last
      {
        OneAsked(memory, upto);
        AskedOn(memory(upto), memory, at, upto, upto + 1);
        upto := upto + 1;
        if !memory(upto - 1) {
          return false, Stretch(first, last, moved), upto;
        }
        assert ss[first..last] + [ss[last]] == ss[first..last + 1];
        result.mSegments := result.mSegments + [mSegments[iter.mSegment]];
        var remaining := iter.RemainingInSegment();
        TotalAround(ss, last);
        moved := moved + remaining;
        last := last + 1;
        iter.Advance(this, remaining);
      }
      return true, Stretch(first, last, moved), upto;
    }

    /** Appends src to a list that begins with segments of its own and goes on with some of this
        list's. It may use the room left in the last of those, but touches no byte they hold. */
    method WriteBehind(src: seq<char>, result: BufferList, memory: nat -> bool, at: nat,
                       ghost head: seq<Segment>, ghost first: nat, ghost last: nat)
      returns (ok: bool, upto: nat, ghost added: seq<Segment>)
      requires Sound(mSegments, true) && result != this && first <= last <= |mSegments|
      requires head != [] && Bufs(head) !! Bufs(mSegments)
      requires result.mOwning && result.mStandardCapacity > 0
      requires Sound(result.mSegments, true) && result.mSegments == head + mSegments[first..last]
      modifies result`mSegments, result`mSize, result.LastBuf()
      ensures View(mSegments) == old(View(mSegments)) && Contents() == old(Contents())
      ensures Sound(result.mSegments, true) && (Packed(result.mSegments) <==> old(Packed(result.mSegments)))
      ensures Bufs(result.mSegments) * Bufs(mSegments) <= old(Bufs(result.mSegments))
      ensures result.mSegments != [] && result.mSegments[0].data == head[0].data
      ensures Bufs(result.mSegments) == old(Bufs(result.mSegments)) + Bufs(added) && fresh(Bufs(added))
      ensures DistinctBufs(head + added)
      ensures old(Aligned(result.mSegments)) && result.mStandardCapacity % 8 == 0 ==> Aligned(result.mSegments)
      ensures ok ==> result.Contents() == old(result.Contents()) + src
      ensures AsAnswered(ok, memory, at, upto)
    {
      hide AsAnswered;
      hide Solid;
      hide Aligned;
      hide Room;
      hide Flat;
      hide Total;
      hide Contents;
      hide View;
      hide AllFit;
      ghost var ss, v, rs := mSegments, View(mSegments), result.mSegments;
      SameContents(v);
      assert allocated(Bufs(ss));
      ghost var written, filled;
      ok, upto, written, filled, added := result.WriteBytes(src, memory, at);
      assert first < last ==> LastOf(rs) == ss[last - 1];
      ViewKept(ss, v, head, first, last);
      SameContents(v);
      WrittenBehind(rs, head, filled, added);
    }

    /** The third step of Extract: the rest is copied behind the segments that were passed on. */
    method CopyTail(iter: Iter, size: nat, result: BufferList, memory: nat -> bool, at: nat,
                    ghost head: seq<Segment>, ghost first: nat, ghost last: nat)
      returns (ok: bool, upto: nat, ghost added: seq<Segment>)
      requires Sound(mSegments, true) && iter.In(mSegments) && result != this
      requires first <= last <= |mSegments| && result.mSegments == head + mSegments[first..last]
      requires head != [] && Bufs(head) !! Bufs(mSegments)
      requires result.mOwning && result.mStandardCapacity > 0 && Sound(result.mSegments, true)
      requires iter.Done() || iter.HasRoomFor(size)
      modifies iter, result`mSegments, result`mSize, result.LastBuf()
      ensures View(mSegments) == old(View(mSegments)) && Contents() == old(Contents())
      ensures Sound(result.mSegments, true) && (Packed(result.mSegments) <==> old(Packed(result.mSegments)))
      ensures Bufs(result.mSegments) * Bufs(mSegments) <= old(Bufs(result.mSegments))
      ensures result.mSegments != [] && result.mSegments[0].data == head[0].data
      ensures Bufs(result.mSegments) == old(Bufs(result.mSegments)) + Bufs(added) && fresh(Bufs(added))
      ensures DistinctBufs(head + added)
      ensures old(Aligned(result.mSegments)) && result.mStandardCapacity % 8 == 0 ==> Aligned(result.mSegments)
      ensures iter.mSegment >= old(iter.mSegment) && (old(iter.Done()) ==> iter.mSegment == old(iter.mSegment))
      ensures ok ==> iter.In(mSegments) && iter.Pos(mSegments) == old(iter.Pos(mSegments)) + size <= |Contents()|
      ensures ok ==> result.Contents() == old(result.Contents()) + Contents()[old(iter.Pos(mSegments))..iter.Pos(mSegments)]
      ensures AsAnswered(ok, memory, at, upto) || (!ok && old(iter.Pos(mSegments)) + size > |Contents()|)
    {
      hide AsAnswered;
      hide Fits;
      hide Aligned;
      hide DistinctBufs;
      hide Total;
      hide Flat;
      hide Sound;
      hide Packed;
      hide Contents;
      hide Solid;
      hide AllFit;
      hide View;
      ok, upto, added := true, at, [];
      NothingAsked(memory, at);
      HeadApart(head, mSegments[first..last]);
      iter.DoneAtEnd(mSegments);
      SizeIsLength();
      ghost var c, r, p := Contents(), result.Contents(), iter.Pos(mSegments);
      assert r + c[p..p] == r;
      if size > 0 {
        if !iter.HasRoomFor(size) {
          return false, at, [];
        }
        StreamAt(iter, size);
        ok, upto, added :=
          WriteBehind(iter.mBuf[iter.mData..iter.mData + size], result, memory, at, head, first, last);
        if ok {
          iter.Advance(this, size);
        }
      }
    }

    /** The last step of Extract: the segments that were passed on leave this list, and the caller's
        iterator goes where the working one is. */
    method Commit(aIter: Iter, iter: Iter, st: Stretch, ghost x: nat)
      requires Valid() && mOwning && iter.In(mSegments) && aIter != iter
      requires st.Of(mSegments, x) && (st.bytes == 0 || st.last <= iter.mSegment)
      modifies this`mSegments, this`mSize, aIter
      ensures Valid() && mSegments == old(st.Without(mSegments))
      ensures aIter.In(mSegments) && aIter.Pos(mSegments) == old(iter.Pos(mSegments)) - st.bytes <= Total(mSegments)
    {
      hide Stretch.Of;
      hide Sound;
      hide Total;
      hide AllFit;
      hide Solid;
      hide Iter.In;
      hide Iter.Pos;
      ghost var ss := mSegments;
      SoundErase(ss, st.first, st.last);
      iter.InBounds(ss);
      st.After(ss, x, iter.mSegment);
      mSegments := mSegments[..st.first] + mSegments[st.last..];
      mSize := mSize - st.bytes;
      aIter.mSegment := iter.mSegment - (st.last - st.first);
      aIter.mBuf, aIter.mData, aIter.mDataEnd := iter.mBuf, iter.mData, iter.mDataEnd;
      iter.Shifted(aIter, ss, st, x);
    }

    /** What is left of the stream c when the stretch of segments is gone. */
    lemma Remains(ss: seq<Segment>, c: seq<char>, st: Stretch, x: nat, q: nat)
      requires Sound(ss, true) && Flat(View(ss)) == c && st.Of(ss, x) && mSegments == st.Without(ss)
      requires x + st.bytes <= q <= |c|
      ensures AllFit(mSegments) && Left(c, Contents(), q - st.bytes, x, st.bytes)
    {
      hide Total;
      hide Flat;
      hide Sound;
      SoundErase(ss, st.first, st.last);
      ErasedBytes(ss, st.first, st.last);
      Excised(c, Total(ss[..st.first]), Total(ss[..st.last]), x, q - st.bytes);
    }

    /** The first step of Extract: the head is copied. */
    method CopyHead(aIter: Iter, aSize: nat, memory: nat -> bool, at: nat, ghost p: nat)
      returns (ok: bool, result: BufferList, iter: Iter, head: nat, upto: nat, ghost made: Made, ghost initial: bool)
      requires Sound(mSegments, true) && mStandardCapacity > 0 && aSize > 0
      requires aIter.In(mSegments) && !aIter.Done() && aIter.Pos(mSegments) == p
      ensures fresh(result) && fresh(iter) && result.mOwning && result.mStandardCapacity == mStandardCapacity
      ensures fresh(Bufs(result.mSegments)) && 0 < head <= aSize && p + head <= |Contents()|
      ensures (initial <==> Had(memory, at)) && AsAnswered(ok, memory, Asked(memory, at), upto)
      ensures made == if ok then Made(result.mSegments, []) else NoHead
      ensures ok ==> made.Some() && (|made.head| > 1 <==> !initial && head > mStandardCapacity)
      ensures ok ==> Sound(made.head, true) && Filled(made.head) && Packed(made.head)
      ensures ok ==> Room(made.head) == if initial then 0 else Unused(head, mStandardCapacity)
      ensures ok && head % 8 == 0 && mStandardCapacity % 8 == 0 ==> Blocks(made.head)
      ensures head == if aSize < aIter.RemainingInSegment() then aSize else aIter.RemainingInSegment()
      ensures ok ==> result.Contents() == Contents()[p..p + head]
      ensures ok ==> iter.In(mSegments) && iter.Pos(mSegments) == p + head
      ensures ok && aSize > head && !iter.Done() ==> iter.mData == mSegments[iter.mSegment].start
    {
      hide Total;
      hide Flat;
      hide View;
      hide Sound;
      hide Packed;
      hide Unused;
      hide Contents;
      hide Room;
      hide Bufs;
      hide AllFit;
      hide Filled;
      hide Blocks;
      hide Aligned;
      hide AsAnswered;
      hide Asked;
      hide Had;
      ghost var c := Contents();
      assert allocated(Bufs(mSegments));
      iter := new Iter.Copy(aIter);
      head := if aSize < aIter.RemainingInSegment() then aSize else aIter.RemainingInSegment();
      StreamAt(aIter, head);
      ghost var room;
      ok, result, upto, initial, room :=
        Holding(aIter.mBuf[aIter.mData..aIter.mData + head], mStandardCapacity, memory, at);
      made := NoHead;
      if ok {
        made := Made(result.mSegments, []);
        assert result.mSegments + [] == result.mSegments;
        HeadApart(result.mSegments, []);
        ghost var v := View(result.mSegments);
        result.SameContents(v);
        iter.Advance(this, head);
        assert View(result.mSegments) == v;
        result.SameContents(v);
      }
      assert Contents() == c;
    }

    /** The first two steps of Extract together. A failure drops what was passed on, so that the new
        list frees no buffer of this one. */
    method PassOn(aIter: Iter, aSize: nat, memory: nat -> bool, at: nat, ghost p: nat)
      returns (ok: bool, result: BufferList, iter: Iter, head: nat, st: Stretch, upto: nat, ghost made: Made,
               ghost lost: set<array<char>>, ghost initial: bool)
      requires Sound(mSegments, true) && mStandardCapacity > 0 && aSize > 0
      requires aIter.In(mSegments) && !aIter.Done() && aIter.Pos(mSegments) == p
      ensures fresh(result) && fresh(iter) && result.mOwning && result.mStandardCapacity == mStandardCapacity
      ensures Contents() == old(Contents()) && 0 < head <= aSize
      ensures head == if aSize < aIter.RemainingInSegment() then aSize else aIter.RemainingInSegment()
      ensures (initial <==> Had(memory, at)) && AsAnswered(ok, memory, Asked(memory, at), upto)
      ensures !ok ==> fresh(Bufs(result.mSegments))
      ensures made.Made? ==> made.Some() && made.tail == [] && fresh(Bufs(made.head))
      ensures made.Made? ==> (|made.head| > 1 <==> !initial && head > mStandardCapacity)
      ensures lost == if ok then {} else made.Rest()
      ensures ok ==> made.Made? && Sound(result.mSegments, true)
      ensures ok ==> st.Of(mSegments, p + head) && result.mSegments == made.head + st.In(mSegments)
      ensures ok ==> iter.In(mSegments) && iter.Pos(mSegments) == p + head + st.bytes <= |Contents()|
      ensures ok ==> head + st.bytes <= aSize && (st.bytes > 0 ==> head + st.bytes < aSize)
      ensures ok && (st.last < |mSegments| || st.bytes == 0) ==>
                (head % 8 == 0 && mStandardCapacity % 8 == 0 && Aligned(mSegments) ==> Aligned(result.mSegments))
      ensures ok ==> iter.Done() || iter.HasRoomFor(aSize - head - st.bytes)
      ensures ok ==> iter.mSegment == st.last || (iter.Done() && st.last == |mSegments|) || st.bytes == 0
      ensures ok ==> result.Contents() == Contents()[p..p + head + st.bytes]
      ensures ok && Packed(mSegments) && (st.last < |mSegments| || st.bytes == 0) ==>
                (Packed(result.mSegments) <==> initial || st.bytes == 0 || Unused(head, mStandardCapacity) == 0)
    {
      hide Stretch.Of;
      hide Stretch.In;
      hide Total;
      hide Flat;
      hide View;
      hide Sound;
      hide Packed;
      hide Unused;
      hide Contents;
      hide Room;
      hide Bufs;
      hide Solid;
      hide Filled;
      hide Fits;
      hide Iter.In;
      hide Iter.Pos;
      hide Aligned;
      hide Blocks;
      hide AsAnswered;
      hide Asked;
      hide Had;
      ghost var ss, c := mSegments, Contents();
      assert allocated(Bufs(ss));
      st, lost := Stretch(0, 0, 0), {};
      ok, result, iter, head, upto, made, initial := CopyHead(aIter, aSize, memory, at, p);
      if ok {
        ghost var hs, r, v := made.head, result.Contents(), View(made.head);
        result.SameContents(v);
        ghost var next := upto;
        ok, st, upto := Transplant(iter, aSize - head, result, memory, upto, p + head);
        AskedOn(ok, memory, Asked(memory, at), next, upto);
        assert hs + [] == hs;
        if ok {
          assert View(hs) == v;
          result.Joined(this, hs, st, r, p, head);
          st.Straight(ss, p + head);
          if head % 8 == 0 && mStandardCapacity % 8 == 0 && Aligned(ss) && (st.last < |ss| || st.bytes == 0) {
            JoinedAligned(hs, ss, st);
          }
        } else {
          BufsConcat(hs, st.In(ss));
          NoBufs();
          lost := result.Rollback(made, ss, st);
        }
      }
    }

    /** What the guard does: the first segment, which was not passed on, is all that stays. Of the
        segments the list has made itself, the others are in no list afterwards. */
    method Rollback(ghost made: Made, ghost ss: seq<Segment>, ghost st: Stretch) returns (ghost lost: set<array<char>>)
      requires made.Some() && mSegments != [] && mSegments[0].data == made.head[0].data
      requires st.first <= st.last <= |ss| && Bufs(made.head + made.tail) !! Bufs(ss)
      requires Bufs(mSegments) == Bufs(made.head) + Bufs(st.In(ss)) + Bufs(made.tail)
      modifies this`mSegments
      ensures mSegments == old(mSegments)[..1] && Bufs(mSegments) <= Bufs(made.head + made.tail)
      ensures lost == old(Bufs(mSegments)) - Bufs(ss) - Bufs(mSegments)
      ensures lost == made.Rest()
    {
      hide Bufs;
      hide Stretch.In;
      st.InAmong(ss);
      BufsConcat(made.head, made.tail);
      AllButFirst(mSegments, made.head + made.tail);
      lost := Bufs(mSegments) - Bufs(ss) - Bufs(mSegments[..1]);
      mSegments := mSegments[..1];
    }

    /** What a list holds that began as hs and was passed on some segments of list. */
    lemma Joined(list: BufferList, hs: seq<Segment>, st: Stretch, r: seq<char>, p: nat, head: nat)
      requires Sound(list.mSegments, true) && Sound(hs, true) && Filled(hs) && hs != [] && Bufs(hs) !! Bufs(list.mSegments)
      requires st.Of(list.mSegments, p + head) && mSegments == hs + st.In(list.mSegments) && head > 0
      requires Flat(View(hs)) == r && p + head <= |list.Contents()| && r == list.Contents()[p..p + head]
      ensures Sound(mSegments, true) && p + head + st.bytes <= |list.Contents()|
      ensures Contents() == list.Contents()[p..p + head + st.bytes]
      ensures Packed(hs) && Packed(list.mSegments) && (st.bytes == 0 || st.last < |list.mSegments|)
              ==> (Packed(mSegments) <==> st.bytes == 0 || Room(hs) == 0)
    {
      hide Total;
      hide Flat;
      hide Packed;
      hide Sound;
      NotFirst(list.mSegments, st.first, st.last, p + head);
      JoinSegments(list.mSegments, hs, st.first, st.last);
      if st.first < st.last {
        SliceGrows(list.Contents(), p, p + head, p + head + st.bytes);
      }
    }

    /** Extract up to the point where nothing can fail any more; this list is as it was. */
    method Gather(aIter: Iter, aSize: nat, memory: nat -> bool, at: nat, ghost p: nat)
      returns (ok: bool, result: BufferList, iter: Iter, head: nat, st: Stretch, upto: nat, ghost made: Made,
               ghost lost: set<array<char>>, ghost initial: bool)
      requires Sound(mSegments, true) && mStandardCapacity > 0 && aSize > 0
      requires aIter.In(mSegments) && !aIter.Done() && aIter.Pos(mSegments) == p
      modifies Bufs(mSegments)
      ensures fresh(result) && fresh(iter) && result.mOwning
      ensures Contents() == old(Contents()) && 0 < head <= aSize
      ensures head == if aSize < aIter.RemainingInSegment() then aSize else aIter.RemainingInSegment()
      ensures !ok ==> fresh(Bufs(result.mSegments))
      ensures made.Made? ==> made.Some() && fresh(Bufs(made.head + made.tail))
      ensures made.Made? ==> (|made.head| > 1 <==> !initial && head > mStandardCapacity)
      ensures lost == if ok then {} else made.Rest()
      ensures initial <==> Had(memory, at)
      ensures AsAnswered(ok, memory, Asked(memory, at), upto) || (!ok && made.Made? && p + aSize > |Contents()|)
      ensures ok ==> iter.In(mSegments) && iter.Pos(mSegments) == p + aSize <= |Contents()|
      ensures ok ==> Sound(result.mSegments, true)
      ensures ok ==> result.Contents() == Contents()[p..p + aSize]
      ensures ok ==> st.Of(mSegments, p + head) && head + st.bytes <= aSize
      ensures ok ==> st.bytes == 0 || st.last <= iter.mSegment
      ensures ok ==> OneHolds(mSegments, aSize - head - st.bytes)
      ensures ok ==> Bufs(result.mSegments) * Bufs(mSegments) <= Bufs(st.In(mSegments)) <= Bufs(mSegments)
      ensures ok && head % 8 == 0 && mStandardCapacity % 8 == 0 && Aligned(mSegments) ==> Aligned(result.mSegments)
      ensures ok && Packed(mSegments) ==>
                (Packed(result.mSegments) <==> initial || st.bytes == 0 || Unused(head, mStandardCapacity) == 0)
    {
      hide Stretch.Of;
      hide Total;
      hide Flat;
      hide View;
      hide Sound;
      hide Packed;
      hide Unused;
      hide Contents;
      hide Bufs;
      hide AllFit;
      hide Solid;
      hide Iter.Pos;
      hide Iter.In;
      hide Iter.HasRoomFor;
      hide Aligned;
      hide OneHolds;
      hide AsAnswered;
      hide Asked;
      hide Had;
      ghost var ss, c := mSegments, Contents();
      assert allocated(Bufs(ss));
      aIter.InBounds(ss);
      ok, result, iter, head, st, upto, made, lost, initial := PassOn(aIter, aSize, memory, at, p);
      assert made.Made? ==> made.head + [] == made.head;
      if ok {
        ghost var hs, added := made.head, [];
        LastAmong(hs, ss, st.first, st.last);
        assert Bufs(hs) !! Bufs(ss);
        iter.DoneAtEnd(ss);
        SizeIsLength();
        BufsConcat(hs, st.In(ss));
        iter.RoomInOne(ss, aSize - head - st.bytes);
        ghost var next := upto;
        ok, upto, added :=
          CopyTail(iter, aSize - head - st.bytes, result, memory, upto, hs, st.first, st.last);
        if AsAnswered(ok, memory, next, upto) {
          AskedOn(ok, memory, Asked(memory, at), next, upto);
        }
        BufsConcat(hs, added);
        made := Made(hs, added);
        if ok {
          iter.InBounds(ss);
          OnlyPassed(result.mSegments, hs, ss, st);
          SliceGrows(c, p, p + head + st.bytes, p + aSize);
        } else {
          lost := result.Rollback(made, ss, st);
        }
      }
    }

    /** What Extract does once nothing can fail any more. In the stream c, the copied head ends at x
        and the bytes for the new list end at q. */
    method Deliver(aIter: Iter, iter: Iter, result: BufferList, aSize: nat, st: Stretch,
                   ghost c: seq<char>, ghost x: nat, ghost q: nat)
      requires x + st.bytes <= q <= |c|
      requires Valid() && mOwning && iter.In(mSegments) && aIter != iter && result != this
      requires Contents() == c && iter.Pos(mSegments) == q
      requires st.Of(mSegments, x) && (st.bytes == 0 || st.last <= iter.mSegment)
      requires Sound(result.mSegments, result.mOwning) && |result.Contents()| == aSize
      modifies this`mSegments, this`mSize, aIter, result`mSize
      ensures Valid() && mSegments == old(st.Without(mSegments)) && aIter.In(mSegments)
      ensures Left(c, Contents(), aIter.Pos(mSegments), x, st.bytes)
      ensures aIter.Pos(mSegments) == q - st.bytes
      ensures result.Valid() && result.mSize == aSize && result.Contents() == old(result.Contents())
    {
      hide Total;
      hide Flat;
      hide View;
      hide Contents;
      hide Sound;
      hide AllFit;
      hide Solid;
      hide Left;
      hide Stretch.Of;
      ghost var ss := mSegments;
      SameContents(View(ss));
      assert allocated(Bufs(ss)) && allocated(Bufs(result.mSegments));
      Commit(aIter, iter, st, x);
      result.mSize := aSize;
      result.SizeIsLength();
      Remains(ss, c, st, x, q);
    }

    /** Splits the aSize bytes at the iterator off into a new list: its head is copied, whole
        segments in the middle change hands, and what is left is copied too. The moved bytes after
        the head leave this list. c is the stream and p the iterator's position before. After a failure
        nobody frees the buffers in lost. */
    method Extract(aIter: Iter, aSize: nat, memory: nat -> bool, at: nat, ghost c: seq<char>, ghost p: nat)
      returns (ok: bool, result: BufferList, upto: nat, ghost head: nat, ghost moved: nat,
               ghost made: Made, ghost lost: set<array<char>>, ghost initial: bool)
      requires Valid() && mOwning && mStandardCapacity > 0 && aSize > 0
      requires aIter.In(mSegments) && !aIter.Done()
      requires Contents() == c && aIter.Pos(mSegments) == p
      modifies this`mSegments, this`mSize, aIter, Bufs(mSegments)
      ensures 0 < head && head + moved <= aSize && p < |c|
      ensures head == old(if aSize < aIter.RemainingInSegment() then aSize else aIter.RemainingInSegment())
      ensures Valid() && fresh(result) && result.Valid() && result.mOwning
      ensures Bufs(result.mSegments) !! Bufs(mSegments)
      ensures ok ==> p + aSize <= |c| && result.Contents() == c[p..p + aSize] && result.mSize == aSize
      ensures ok ==> OneHolds(old(mSegments), aSize - head - moved)
      ensures ok ==> Contents() == c[..p + head] + c[p + head + moved..]
      ensures aIter.In(mSegments) && aIter.Pos(mSegments) == if ok then p + aSize - moved else p
      ensures ok ==> p + aSize - moved <= |Contents()| && Contents()[p + aSize - moved..] == c[p + aSize..]
      ensures ok && old(Packed(mSegments)) ==> Packed(mSegments)
      ensures ok && old(Packed(mSegments)) ==>
                (Packed(result.mSegments) <==> initial || moved == 0 || Unused(head, mStandardCapacity) == 0)
      ensures ok && old(Aligned(mSegments)) && old(aIter.mData) % 8 == 0 && aSize % 8 == 0 ==>
                (mStandardCapacity % 8 == 0 ==> Aligned(result.mSegments) && Aligned(mSegments))
      ensures !ok ==> mSegments == old(mSegments) && mSize == old(mSize) && Contents() == c && result.mSegments == []
      ensures !ok ==> aIter.mSegment == old(aIter.mSegment) && aIter.mData == old(aIter.mData)
      ensures initial <==> Had(memory, at)
      ensures AsAnswered(ok, memory, Asked(memory, at), upto) || (!ok && made.Made? && p + aSize > |c|)
      ensures fresh(lost) && lost == if ok then {} else made.Rest()
      ensures lost != {} <==> !ok && made.Made? && (made.tail != [] || (!initial && head > mStandardCapacity))
    {
      hide Iter.In;
      hide Iter.Pos;
      hide Aligned;
      hide OneHolds;
      hide Stretch.Of;
      hide Stretch.In;
      hide Stretch.Without;
      hide Left;
      hide Total;
      hide Flat;
      hide View;
      hide Packed;
      hide Unused;
      hide Contents;
      hide Sound;
      hide AllFit;
      hide Bufs;
      hide AsAnswered;
      hide Asked;
      hide Had;
      ghost var ss := mSegments;
      aIter.DoneAtEnd(ss);
      SizeIsLength();
      assert allocated(Bufs(ss));
      var error := new BufferList(0, 0, mStandardCapacity, memory, at);
      var iter, st;
      ok, result, iter, head, st, upto, made, lost, initial := Gather(aIter, aSize, memory, at, p);
      moved := 0;
      made.RestIsSome();
      if !ok {
        NoBufs();
        return false, error, upto, head, 0, made, lost, initial;
      }
      moved := st.bytes;
      WithoutApart(ss, st, p + head);
      if Aligned(ss) && aIter.mData % 8 == 0 && aSize % 8 == 0 && mStandardCapacity % 8 == 0 {
        SizeIsLength();
        aIter.HeadAligned(ss, aSize);
        st.Straight(ss, p + head);
        ErasedAligned(ss, st);
      }
      Deliver(aIter, iter, result, aSize, st, c, p + head, p + aSize);
      LeftRest(c, Contents(), aIter.Pos(mSegments), p + head, moved);
    }

    lemma SameContents(v: seq<seq<char>>)
      requires AllFit(mSegments) && View(mSegments) == v
      ensures Contents() == Flat(v)
    {
    }

    lemma SizeIsLength()
      requires AllFit(mSegments)
      ensures Total(mSegments) == |Contents()|
    {
      TotalIsLength(mSegments);
    }
  }

  /** Segments that are full and not empty. */
  ghost predicate Lent(ss: seq<Segment>): (b: bool)
    ensures b ==> AllFit(ss)
  {
    AllFit(ss) && forall i :: 0 <= i < |ss| ==> ss[i].size == ss[i].capacity
  }

  /** Copies the next bytes of c, which has been copied from p on. */
  method CopyOn(dst: array<char>, copied: nat, part: seq<char>, ghost c: seq<char>, ghost p: nat)
    requires copied + |part| <= dst.Length && p + copied + |part| <= |c|
    requires dst[..copied] == c[p..p + copied] && part == c[p + copied..p + copied + |part|]
    modifies dst
    ensures dst[..copied + |part|] == c[p..p + copied + |part|]
    ensures dst[copied + |part|..] == old(dst[copied + |part|..])
  {
    Memcpy(dst, copied, part);
    assert dst[..copied + |part|] == dst[..copied] + dst[copied..copied + |part|];
    SliceGrows(c, p, p + copied, p + copied + |part|);
  }

  /** A stretch of segments can be taken out. */
  lemma SoundErase(ss: seq<Segment>, a: nat, b: nat)
    requires Sound(ss, true) && a <= b <= |ss|
    ensures Sound(ss[..a] + ss[b..], true)
    ensures Packed(ss) ==> Packed(ss[..a] + ss[b..])
  {
    var rest := ss[..a] + ss[b..];
    forall i | 0 <= i < |rest| ensures rest[i] == ss[Kept(a, b, i)] {
    }
    forall i, j | 0 <= i < j < |rest| ensures rest[i].data != rest[j].data {
      assert Kept(a, b, i) < Kept(a, b, j);
    }
    if |rest| > 1 {
      assert forall i :: 0 <= i < |rest| ==> ss[Kept(a, b, i)].size > 0;
    }
  }

  /** Where the segment number i was before those from a to b left. */
  ghost function Kept(a: nat, b: nat, i: nat): nat
    requires a <= b
  {
    if i < a then i else i + (b - a)
  }

  lemma ErasedApart(ss: seq<Segment>, a: nat, b: nat)
    requires Sound(ss, true) && a <= b <= |ss|
    ensures Bufs(ss[..a] + ss[b..]) !! Bufs(ss[a..b]) && Bufs(ss[a..b]) <= Bufs(ss)
    ensures Bufs(ss[..a] + ss[b..]) <= Bufs(ss)
  {
    var rest := ss[..a] + ss[b..];
    forall i, k | 0 <= i < |rest| && a <= k < b ensures rest[i].data != ss[k].data {
      assert rest[i] == ss[Kept(a, b, i)];
    }
  }

  lemma EraseTake<T>(ss: seq<T>, a: nat, b: nat, m: nat)
    requires a <= b <= m <= |ss|
    ensures ss[..m][..a] == ss[..a] && ss[..m][..b] == ss[..b]
    ensures (ss[..a] + ss[b..])[..m - (b - a)] == ss[..m][..a] + ss[..m][b..]
  {
  }

  lemma TotalErase(ss: seq<Segment>, a: nat, b: nat)
    requires a <= b <= |ss|
    ensures Total(ss[..a] + ss[b..]) + (Total(ss[..b]) - Total(ss[..a])) == Total(ss)
    ensures Total(ss[..a]) + Total(ss[a..b]) == Total(ss[..b])
  {
    hide Total;
    TotalConcat(ss[..a], ss[b..]);
    TotalConcat(ss[..b], ss[b..]);
    TotalConcat(ss[..a], ss[a..b]);
    assert ss[..a] + ss[a..b] == ss[..b] && ss[..b] + ss[b..] == ss;
  }

  lemma LastAmong(hs: seq<Segment>, ss: seq<Segment>, a: nat, b: nat)
    requires hs != [] && a <= b <= |ss|
    ensures LastOf(hs + ss[a..b]).data in Bufs(hs) + Bufs(ss) && Bufs(ss[a..b]) <= Bufs(ss)
  {
    assert hs[|hs| - 1].data in Bufs(hs);
    assert a < b ==> ss[b - 1].data in Bufs(ss);
  }

  /** Of the other list's buffers the new one has those that were passed on. */
  lemma OnlyPassed(rs: seq<Segment>, hs: seq<Segment>, ss: seq<Segment>, st: Stretch)
    requires st.first <= st.last <= |ss| && Bufs(hs) !! Bufs(ss) && Bufs(st.In(ss)) <= Bufs(ss)
    requires Bufs(rs) * Bufs(ss) <= Bufs(hs + st.In(ss))
    ensures Bufs(rs) * Bufs(ss) <= Bufs(st.In(ss))
  {
    hide Bufs;
    BufsConcat(hs, st.In(ss));
  }

  lemma AllButFirst(rs: seq<Segment>, own: seq<Segment>)
    requires rs != [] && own != [] && rs[0].data == own[0].data && DistinctBufs(own)
    ensures Bufs(rs[..1]) == {own[0].data} <= Bufs(own) && Bufs(own[1..]) == Bufs(own) - Bufs(rs[..1])
  {
    assert own == own[..1] + own[1..];
    BufsConcat(own[..1], own[1..]);
  }

  lemma NotFirst(ss: seq<Segment>, a: nat, b: nat, p: nat)
    requires a <= b <= |ss| && p > 0 && (a < b ==> Total(ss[..a]) == p)
    ensures a < b ==> |ss| > 1
  {
  }

  /** Own segments, followed by some that another list gives up. */
  lemma JoinSegments(ss: seq<Segment>, hs: seq<Segment>, a: nat, b: nat)
    requires Sound(ss, true) && Sound(hs, true) && Filled(hs) && hs != [] && Bufs(hs) !! Bufs(ss)
    requires a <= b <= |ss| && (a < b ==> |ss| > 1)
    ensures Sound(hs + ss[a..b], true) && Bufs(hs + ss[a..b]) == Bufs(hs) + Bufs(ss[a..b])
    ensures Total(ss[..a]) <= Total(ss[..b]) <= |Flat(View(ss))|
    ensures Flat(View(hs + ss[a..b])) == Flat(View(hs)) + Flat(View(ss))[Total(ss[..a])..Total(ss[..b])]
    ensures Packed(hs) && Packed(ss) && (a == b || b < |ss|)
            ==> (Packed(hs + ss[a..b]) <==> a == b || Room(hs) == 0)
  {
    hide Flat;
    hide Total;
    JoinBytes(ss, hs, a, b);
    JoinSound(ss, hs, a, b);
    JoinPacked(ss, hs, a, b);
  }

  lemma JoinSound(ss: seq<Segment>, hs: seq<Segment>, a: nat, b: nat)
    requires Sound(ss, true) && Sound(hs, true) && Filled(hs) && Bufs(hs) !! Bufs(ss)
    requires a <= b <= |ss| && (a < b ==> |ss| > 1)
    ensures Sound(hs + ss[a..b], true) && Bufs(hs + ss[a..b]) == Bufs(hs) + Bufs(ss[a..b])
    ensures Bufs(ss[a..b]) <= Bufs(ss)
  {
    BufsConcat(hs, ss[a..b]);
    var j := hs + ss[a..b];
    forall i | 0 <= i < |j| ensures j[i] == if i < |hs| then hs[i] else ss[a + i - |hs|] {
    }
    forall i, k | 0 <= i < k < |j| ensures j[i].data != j[k].data {
      if i < |hs| <= k {
        assert hs[i].data in Bufs(hs) && ss[a + k - |hs|].data in Bufs(ss);
      }
    }
  }

  lemma JoinPacked(ss: seq<Segment>, hs: seq<Segment>, a: nat, b: nat)
    requires Filled(hs) && hs != [] && a <= b <= |ss| && Solid(ss) && (a < b ==> |ss| > 1)
    ensures Packed(hs) && Packed(ss) && (a == b || b < |ss|)
            ==> (Packed(hs + ss[a..b]) <==> a == b || Room(hs) == 0)
  {
    var j := hs + ss[a..b];
    forall i | 0 <= i < |j| ensures j[i] == if i < |hs| then hs[i] else ss[a + i - |hs|] {
    }
    assert j[|hs| - 1] == hs[|hs| - 1];
  }

  lemma Excised(c: seq<char>, a: nat, b: nat, x: nat, q: nat)
    requires a <= b <= |c| && (a == b || a == x) && x <= q && q + (b - a) <= |c|
    ensures c[..a] + c[b..] == c[..x] + c[x + (b - a)..]
    ensures (c[..a] + c[b..])[q..] == c[q + (b - a)..]
  {
    var d := c[..a] + c[b..];
    assert forall i :: 0 <= i < |d| ==> d[i] == if i < a then c[i] else c[i + (b - a)];
  }

  lemma ErasedBytes(ss: seq<Segment>, a: nat, b: nat)
    requires AllFit(ss) && a <= b <= |ss|
    ensures AllFit(ss[..a] + ss[b..]) && Total(ss[..a]) <= Total(ss[..b]) <= |Flat(View(ss))|
    ensures Flat(View(ss[..a] + ss[b..])) == Flat(View(ss))[..Total(ss[..a])] + Flat(View(ss))[Total(ss[..b])..]
  {
    hide Flat;
    hide Total;
    ViewConcat(ss[..a], ss[b..]);
    ViewTake(ss, a);
    ViewTake(ss, b);
    FlatConcat(View(ss[..a]), View(ss[b..]));
    FlatRange(View(ss), a, b);
    TotalIsStart(ss, a);
    TotalIsStart(ss, b);
  }

  lemma JoinBytes(ss: seq<Segment>, hs: seq<Segment>, a: nat, b: nat)
    requires AllFit(ss) && AllFit(hs) && a <= b <= |ss|
    ensures AllFit(hs + ss[a..b]) && Total(ss[..a]) <= Total(ss[..b]) <= |Flat(View(ss))|
    ensures Flat(View(hs + ss[a..b])) == Flat(View(hs)) + Flat(View(ss))[Total(ss[..a])..Total(ss[..b])]
  {
    hide Flat;
    hide Total;
    ViewConcat(hs, ss[a..b]);
    FlatConcat(View(hs), View(ss[a..b]));
    FlatRange(View(ss), a, b);
    TotalIsStart(ss, a);
    TotalIsStart(ss, b);
    assert View(ss[a..b]) == View(ss)[a..b];
  }

  ghost predicate Filled(ss: seq<Segment>) {
    forall i :: 0 <= i < |ss| ==> ss[i].size > 0
  }

  lemma BufsConcat(a: seq<Segment>, b: seq<Segment>)
    ensures Bufs(a + b) == Bufs(a) + Bufs(b)
  {
    assert forall i :: 0 <= i < |a| ==> (a + b)[i] == a[i];
    assert forall i :: 0 <= i < |b| ==> (a + b)[|a| + i] == b[i];
    forall d | d in Bufs(a) ensures d in Bufs(a + b) {
      var i :| 0 <= i < |a| && a[i].data == d;
      assert (a + b)[i].data == d;
    }
    forall d | d in Bufs(b) ensures d in Bufs(a + b) {
      var i :| 0 <= i < |b| && b[i].data == d;
      assert (a + b)[|a| + i].data == d;
    }
  }

  /** A write behind head and some of the segments of ss leaves the bytes of ss alone. */
  lemma ViewKept(ss: seq<Segment>, v: seq<seq<char>>, head: seq<Segment>, first: nat, last: nat)
    requires AllFit(ss) && DistinctBufs(ss) && head != [] && Bufs(head) !! Bufs(ss) && first <= last <= |ss|
    requires |v| == |ss| && (first < last ==> Bytes(ss[last - 1]) == v[last - 1])
    requires forall i :: 0 <= i < |ss| && ss[i].data != LastOf(head + ss[first..last]).data ==> Bytes(ss[i]) == v[i]
    ensures View(ss) == v
  {
    var rs := head + ss[first..last];
    assert head[|head| - 1].data in Bufs(head);
    forall i | 0 <= i < |ss| ensures Bytes(ss[i]) == v[i] {
      if i != last - 1 || first == last {
        assert ss[i].data in Bufs(ss);
      } else {
        assert ss[i] == LastOf(rs);
      }
    }
  }

  ghost function LastOf(ss: seq<Segment>): Segment
    requires ss != []
  {
    ss[|ss| - 1]
  }

  /** What a list looks like that began with head, after a write. */
  lemma WrittenBehind(rs: seq<Segment>, head: seq<Segment>, filled: nat, added: seq<Segment>)
    requires AllFit(rs) && Solid(rs) && filled <= Room(rs) && head != [] && |head| <= |rs| && head == rs[..|head|]
    requires DistinctBufs(Grown(rs, filled) + added)
    ensures Bufs(Grown(rs, filled) + added) == Bufs(rs) + Bufs(added) && DistinctBufs(head + added)
    ensures (Grown(rs, filled) + added)[0].data == head[0].data
    ensures Packed(Grown(rs, filled) + added) ==> Packed(rs)
  {
    GrownSound(rs, filled);
    BufsConcat(Grown(rs, filled), added);
    OwnApart(head, rs, Grown(rs, filled), added);
    if Packed(Grown(rs, filled) + added) {
      StillPacked(rs, filled, added);
    }
  }

  lemma HeadApart(head: seq<Segment>, more: seq<Segment>)
    requires Sound(head + more, true)
    ensures DistinctBufs(head + [])
  {
    assert forall i :: 0 <= i < |head| ==> (head + more)[i] == head[i];
  }

  lemma OwnApart(head: seq<Segment>, rs: seq<Segment>, g: seq<Segment>, added: seq<Segment>)
    requires |head| <= |rs| == |g| && head == rs[..|head|] && DistinctBufs(g + added)
    requires forall i :: 0 <= i < |rs| ==> g[i].data == rs[i].data
    ensures DistinctBufs(head + added)
  {
    var all := g + added;
    forall i | 0 <= i < |head + added|
      ensures (head + added)[i].data == all[if i < |head| then i else i + (|g| - |head|)].data
    {
    }
  }

  lemma StillPacked(ss: seq<Segment>, filled: nat, added: seq<Segment>)
    requires Solid(ss) && Packed(Grown(ss, filled) + added)
    ensures Packed(ss)
  {
    var g := Grown(ss, filled) + added;
    forall i | 0 <= i < |ss| - 1 ensures ss[i].size == ss[i].capacity {
      assert g[i] == ss[i];
    }
  }

  /** The same bytes, with no room left after them. */
  ghost function Trimmed(ss: seq<Segment>): (t: seq<Segment>)
    ensures |t| == |ss| && forall i :: 0 <= i < |ss| ==> t[i] == ss[i].(capacity := ss[i].size)
  {
    seq(|ss|, i requires 0 <= i < |ss| => ss[i].(capacity := ss[i].size))
  }

  lemma TrimmedSnoc(ss: seq<Segment>, k: nat)
    requires k < |ss|
    ensures Trimmed(ss[..k + 1]) == Trimmed(ss[..k]) + [ss[k].(capacity := ss[k].size)]
  {
  }

  /** What MoveFallible hands over is the whole list, or nothing when there is no byte in it. */
  lemma TrimmedSame(ss: seq<Segment>, k: nat, owning: bool)
    requires Sound(ss, owning) && k <= |ss| && (k > 0 ==> Total(ss) > 0)
    requires k == |ss| || (k == 0 && Total(ss) == 0)
    ensures Sound(Trimmed(ss[..k]), owning) && Packed(Trimmed(ss[..k]))
    ensures Flat(View(Trimmed(ss[..k]))) == Flat(View(ss)) && Total(Trimmed(ss[..k])) == Total(ss)
    ensures Bufs(Trimmed(ss[..k])) == if Total(ss) == 0 then {} else Bufs(ss)
  {
    hide Flat;
    hide Total;
    var t := Trimmed(ss[..k]);
    TotalIsLength(ss);
    if k == |ss| {
      assert ss[..k] == ss;
      NoneEmpty(ss);
      SameView(ss);
    } else {
      NothingIn(ss);
      assert t == [] && Bufs(t) == {};
    }
    TotalIsLength(t);
  }

  lemma SameView(ss: seq<Segment>)
    requires AllFit(ss) && forall i :: 0 <= i < |ss| ==> ss[i].size > 0
    ensures AllFit(Trimmed(ss)) && View(Trimmed(ss)) == View(ss) && Bufs(Trimmed(ss)) == Bufs(ss)
  {
    var t := Trimmed(ss);
    assert forall i :: 0 <= i < |ss| ==> t[i].data == ss[i].data;
    forall i | 0 <= i < |ss| ensures Fits(t[i]) && Bytes(t[i]) == Bytes(ss[i]) {
      assert Fits(ss[i]);
    }
  }

  lemma EmptySound(owning: bool)
    ensures Sound([], owning) && Packed([]) && Total([]) == 0
  {
  }

  lemma NothingIn(ss: seq<Segment>)
    requires AllFit(ss) && Total(ss) == 0
    ensures Flat(View(ss)) == [] && Flat(View([])) == []
  {
    TotalIsLength(ss);
  }

  lemma MoreThanOne(ss: seq<Segment>, n: nat)
    requires AllFit(ss) && Packed(ss) && Total(ss) > 0 && forall i :: 0 <= i < |ss| ==> ss[i].capacity == n
    ensures |ss| > 1 <==> Total(ss) > n
  {
    if ss != [] {
      assert Fits(ss[0]) && ss[..1] == [ss[0]] && [ss[0]][..0] == [];
      TotalAround(ss, 0);
      if |ss| > 1 {
        TotalAround(ss, 1);
      }
    }
  }

  lemma NoneAdded(n: nat)
    ensures AllOf([], n) && FullButLast([]) && StartsAtZero([])
  {
  }

  lemma FullSnoc(ss: seq<Segment>, added: seq<Segment>, s: Segment, n: nat)
    requires Room(ss + added) == 0 && s.start == 0 && s.capacity == n
    requires AllOf(added, n) && FullButLast(added) && StartsAtZero(added)
    ensures AllOf(added + [s], n) && FullButLast(added + [s]) && StartsAtZero(added + [s])
  {
    assert added != [] ==> (ss + added)[|ss + added| - 1] == added[|added| - 1];
  }

  lemma Held(ss: seq<Segment>, initial: bool, n: nat)
    requires Sound(ss, true) && Packed(ss) && Total(ss) > 0
    requires if initial then |ss| == 1 && ss[0].capacity == Total(ss) else AllOf(ss, n)
    ensures Filled(ss) && ss != [] && (|ss| > 1 <==> !initial && Total(ss) > n)
    ensures Total(ss) % 8 == 0 && n % 8 == 0 ==> Blocks(ss)
  {
    assert Total([]) == 0;
    hide Total;
    hide Blocks;
    NoneEmpty(ss);
    if !initial {
      MoreThanOne(ss, n);
    }
    if Total(ss) % 8 == 0 && n % 8 == 0 {
      HeldAligned(ss);
    }
  }

  lemma NoneEmpty(ss: seq<Segment>)
    requires Solid(ss) && (ss != [] ==> Total(ss) > 0)
    ensures forall i :: 0 <= i < |ss| ==> ss[i].size > 0
  {
    if |ss| == 1 {
      TotalAround(ss, 0);
    }
  }

  /** The bytes the list ended in are untouched. */
  twostate predicate LastKept(ss: seq<Segment>)
    requires AllFit(ss)
    reads Bufs(ss)
  {
    ss != [] ==> Bytes(ss[|ss| - 1]) == old(Bytes(ss[|ss| - 1]))
  }

  /** What n bytes leave unused of the last of the blocks they are cut into. */
  ghost function Unused(n: nat, block: nat): nat
    requires block > 0
  {
    if n == 0 then 0 else if n <= block then block - n else Unused(n - block, block)
  }

  lemma NoneUnused(block: nat)
    requires block > 0
    ensures Unused(0, block) == 0
  {
  }

  lemma {:induction false} UnusedStep(done: nat, chunk: nat, block: nat)
    requires block > 0 && Unused(done, block) == 0 && 0 < chunk <= block
    ensures Unused(done + chunk, block) == block - chunk
  {
    if done > block {
      UnusedStep(done - block, chunk, block);
    }
  }

  lemma AppendMore(c: seq<char>, src: seq<char>, i: nat, n: nat)
    requires i + n <= |src|
    ensures (c + src[..i]) + src[i..i + n] == c + src[..i + n]
  {
  }

  lemma AppendRest(c: seq<char>, src: seq<char>, i: nat, n: nat)
    requires i + n <= |src|
    ensures (c + src[..i]) + src[i..][..n] == c + src[..i + n]
  {
  }

  lemma BufsSnoc(ss: seq<Segment>, s: Segment)
    ensures Bufs(ss + [s]) == Bufs(ss) + {s.data}
  {
    assert forall i :: 0 <= i < |ss| ==> (ss + [s])[i] == ss[i];
    assert (ss + [s])[|ss|] == s;
    forall d | d in Bufs(ss) ensures d in Bufs(ss + [s]) {
      var i :| 0 <= i < |ss| && ss[i].data == d;
      assert (ss + [s])[i].data == d;
    }
  }

  lemma SomeBuf(ss: seq<Segment>)
    ensures Bufs(ss) == {} <==> ss == []
  {
    if ss != [] {
      assert ss[0].data in Bufs(ss);
    }
  }

  lemma NoBufs()
    ensures Bufs([]) == {}
  {
  }

  lemma DropMore(a: seq<char>, b: seq<char>, i: nat, j: nat)
    requires i <= j <= |a| == |b| && a[i..] == b[i..]
    ensures a[j..] == b[j..]
  {
    assert a[j..] == a[i..][j - i..] && b[j..] == b[i..][j - i..];
  }

  lemma Regroup(a: seq<Segment>, b: seq<Segment>, s: Segment)
    ensures (a + b) + [s] == a + (b + [s])
  {
  }

  ghost predicate NewSegment(s: Segment, size: nat, capacity: nat) {
    s.start == 0 && s.size == size && s.capacity == capacity && s.data.Length == capacity
  }

  /** One more segment after a nonempty one. */
  lemma SoundSnoc(ss: seq<Segment>, s: Segment)
    requires Sound(ss, true) && Fits(s) && s.start == 0 && s.size > 0 && s.data !in Bufs(ss)
    requires ss != [] ==> ss[|ss| - 1].size > 0
    ensures Sound(ss + [s], true)
    ensures Packed(ss) && Room(ss) == 0 ==> Packed(ss + [s])
  {
    assert forall i :: 0 <= i < |ss| ==> ss[i].data in Bufs(ss);
  }

  lemma FullLastIsFilled(ss: seq<Segment>)
    requires AllFit(ss) && Room(ss) == 0
    ensures ss != [] ==> ss[|ss| - 1].size > 0
  {
    assert ss != [] ==> Fits(ss[|ss| - 1]);
  }

  /** How much more the last segment can take. */
  ghost function Room(ss: seq<Segment>): int {
    if ss == [] then 0 else ss[|ss| - 1].capacity - ss[|ss| - 1].size
  }

  /** The same buffers, with k more bytes of the last one in use. */
  ghost function Grown(ss: seq<Segment>, k: nat): seq<Segment> {
    if ss == [] then [] else ss[|ss| - 1 := ss[|ss| - 1].(size := ss[|ss| - 1].size + k)]
  }

  ghost function GrownView(v: seq<seq<char>>, part: seq<char>): seq<seq<char>>
    requires v != []
  {
    v[..|v| - 1] + [v[|v| - 1] + part]
  }

  lemma FlatGrown(v: seq<seq<char>>, part: seq<char>)
    requires v != []
    ensures Flat(GrownView(v, part)) == Flat(v) + part
  {
    var h, p := v[..|v| - 1], v[|v| - 1];
    FlatSnoc(h, p);
    FlatSnoc(h, p + part);
    assert v == h + [p];
  }

  lemma GrownSound(ss: seq<Segment>, k: nat)
    requires AllFit(ss) && k <= Room(ss)
    ensures AllFit(Grown(ss, k)) && Bufs(Grown(ss, k)) == Bufs(ss)
    ensures Sound(ss, true) ==> Sound(Grown(ss, k), true)
    ensures Packed(ss) ==> Packed(Grown(ss, k))
  {
    if ss != [] {
      var n, g := |ss| - 1, Grown(ss, k);
      assert Fits(ss[n]);
      assert forall i :: 0 <= i < |ss| ==> g[i].data == ss[i].data && g[i].start == ss[i].start;
    }
  }

  method Memcpy(dst: array<char>, at: nat, src: seq<char>)
    requires at + |src| <= dst.Length
    modifies dst
    ensures dst[..at] == old(dst[..at]) && dst[at..at + |src|] == src
    ensures dst[at + |src|..] == old(dst[at + |src|..])
  {
    forall i | 0 <= i < |src| {
      dst[at + i] := src[i];
    }
  }

  lemma LastGrows(last: Segment, grown: Segment, was: seq<char>, more: seq<char>)
    requires Fits(last) && Fits(grown) && last.start == 0
    requires grown == last.(size := last.size + |more|) && |was| == last.size
    requires last.data[..last.size] == was && last.data[last.size..grown.size] == more
    ensures Bytes(last) == was && Bytes(grown) == was + more
  {
  }

  lemma ViewSnoc(head: seq<Segment>, s: Segment)
    requires AllFit(head) && Fits(s)
    ensures AllFit(head + [s]) && View(head + [s]) == View(head) + [Bytes(s)]
  {
  }

  /** Two segments of 8 bytes, and iterators at the start of either. */
  method TwoSegments(a: array<char>, b: array<char>) returns (list: BufferList, first: Iter, second: Iter)
    requires a.Length == b.Length == 8
    ensures list.mSegments == [Segment(a, 0, 8, 8), Segment(b, 0, 8, 8)]
    ensures AllFit(list.mSegments) && first.In(list.mSegments) && second.In(list.mSegments)
    ensures first.mSegment == 0 && first.mData == 0 && second.mSegment == 1 && second.mData == 0
    ensures first.Pos(list.mSegments) == 0 && second.Pos(list.mSegments) == 8
  {
    hide Flat;
    hide Bufs;
    hide View;
    list := new BufferList.Borrowing();
    list.mSegments := [Segment(a, 0, 8, 8), Segment(b, 0, 8, 8)];
    first := new Iter(list);
    second := new Iter(list);
    second.Advance(list, 8);
  }

  /** The segments are 1000 apart in memory: RangeLength counts 1008 bytes. */
  method RangeAcross() returns (ok: bool, length: nat, ghost distance: nat)
    ensures ok && length == 1008 && distance == 8
  {
    hide Wrap;
    hide Iter.Pos;
    hide Total;
    var a := new char[8];
    var b := new char[8];
    var list, first, second := TwoSegments(a, b);
    distance := second.Pos(list.mSegments) - first.Pos(list.mSegments);
    var word := 0x1_0000_0000;
    ok, length := first.BytesUntil(list, second, d => if d == a then 1000 else 2000, word);
    assert Wrap(1008, word) == 1008 by {
      WrapRight(1008, 0, word);
    }
  }

  /** Two segments as they are after five bytes have been moved to a new list and eight written behind
      them: the byte at offset 5 is where a buffer begins. */
  lemma OffsetFive(a: array<char>, b: array<char>)
    ensures var ss := [Segment(a, 0, 5, 5), Segment(b, 0, 8, 8)];
            Packed(ss) && Total(ss[..1]) % 8 == 5
  {
    var ss := [Segment(a, 0, 5, 5), Segment(b, 0, 8, 8)];
    TotalStep(ss, 0);
    assert ss[..0] == [];
  }

  /** 16 bytes borrowed from a list of 8: there is a segment with all 8, and a byte count of 0. */
  method BorrowTooMuch() returns (result: BufferList)
    ensures result.mSize == 0 && Total(result.mSegments) == 8
  {
    hide Total;
    hide Flat;
    var a := new char[8];
    var list := new BufferList.Borrowing();
    list.mSegments := [Segment(a, 0, 8, 8)];
    OneSegment(list.mSegments);
    list.SizeIsLength();
    var iter := new Iter(list);
    var ok, upto;
    ghost var taken;
    ok, result, upto, taken := list.Borrow(iter, 16, _ => true, 0);
    result.SizeIsLength();
  }

  lemma OneSegment(ss: seq<Segment>)
    requires |ss| == 1
    ensures Total(ss) == ss[0].size && Total(ss[..0]) == 0 && Bufs(ss) == {ss[0].data}
  {
    assert ss[..0] == [];
    assert ss == [] + [ss[0]];
    BufsSnoc([], ss[0]);
  }

  /** A list with a buffer and no bytes: after a move neither list has the buffer. */
  method BufferForgotten() returns (list: BufferList, result: BufferList, a: array<char>)
    ensures old(!allocated(a)) && list.Owned() == {} && result.Owned() == {}
  {
    a := new char[8];
    list := new BufferList(0, 0, 8, _ => true, 0);
    list.mSegments := [Segment(a, 0, 0, 8)];
    OneSegment(list.mSegments);
    var ok, upto;
    assert list.Owned() == {a};
    ok, result, upto := list.MoveFallible(_ => true, 0);
  }

  /** A list with a buffer, and what was borrowed from it and then moved: both will free the buffer. */
  method FreedTwice() returns (list: BufferList, result: BufferList)
    ensures list.Owned() * result.Owned() != {}
  {
    hide Total;
    hide Flat;
    var memory := (i: nat) => true;
    var a := new char[8];
    list := new BufferList(0, 0, 8, memory, 0);
    list.mSegments := [Segment(a, 0, 8, 8)];
    list.mSize := 8;
    OneSegment(list.mSegments);
    list.SizeIsLength();
    var iter := new Iter(list);
    var ok, borrowed, upto;
    ghost var taken;
    ok, borrowed, upto, taken := list.Borrow(iter, 8, memory, 0);
    borrowed.SizeIsLength();
    SomeBuf(borrowed.mSegments);
    TotalOfNone(borrowed.mSegments);
    ok, result, upto := borrowed.MoveFallible(memory, upto);
    assert result.Owned() <= {a} && result.Owned() != {};
  }

  lemma TotalOfNone(ss: seq<Segment>)
    ensures Total(ss) > 0 ==> ss != []
  {
  }

  /** An Extract of 32 bytes in a list of 24, whose standard capacity is 8, fails. If there is memory for
      all but the copied head's own buffer, then some of the buffers made for it are lost. */
  method BuffersLost() returns (ok: bool, ghost lost: set<array<char>>)
    ensures !ok && lost != {}
  {
    hide Total;
    hide Flat;
    var memory := (i: nat) => i != 0;
    var a := new char[24];
    var list := new BufferList(0, 0, 8, memory, 0);
    list.mSegments := [Segment(a, 0, 24, 24)];
    list.mSize := 24;
    OneSegment(list.mSegments);
    list.SizeIsLength();
    var iter := new Iter(list);
    var result, upto;
    ghost var head, moved, made, initial;
    ok, result, upto, head, moved, made, lost, initial := list.Extract(iter, 32, memory, 0, list.Contents(), 0);
  }

  /** A list of three full segments of 16 bytes. */
  method ThreeSegments() returns (list: BufferList)
    ensures fresh(list) && fresh(Bufs(list.mSegments)) && |list.mSegments| == 3
    ensures list.mOwning && list.mStandardCapacity == 16 && Sound(list.mSegments, true) && list.mSize == 48
    ensures forall i :: 0 <= i < 3 ==> list.mSegments[i].size == list.mSegments[i].capacity == 16
    ensures forall i :: 0 <= i < 3 ==> list.mSegments[i].start == 0
  {
    hide Total;
    hide Flat;
    hide View;
    var a := new char[16];
    var b := new char[16];
    var c := new char[16];
    list := new BufferList(0, 0, 16, _ => true, 0);
    list.mSegments := [Segment(a, 0, 16, 16), Segment(b, 0, 16, 16), Segment(c, 0, 16, 16)];
    list.mSize := 48;
    ThreeFull(list.mSegments);
  }

  /** Such a list, and an iterator in the middle of its first segment. */
  method HalfWay() returns (list: BufferList, iter: Iter)
    ensures fresh(list) && fresh(iter) && fresh(Bufs(list.mSegments))
    ensures list.Valid() && list.mOwning && list.mStandardCapacity == 16 && Packed(list.mSegments)
    ensures |list.Contents()| == 48 && forall i :: 0 <= i < |list.mSegments| ==> list.mSegments[i].size == 16
    ensures iter.In(list.mSegments) && !iter.Done() && iter.Pos(list.mSegments) == 8 && iter.RemainingInSegment() == 8
  {
    hide Sound;
    hide Packed;
    hide Total;
    hide Flat;
    hide View;
    hide Bufs;
    list := ThreeSegments();
    ThreeFull(list.mSegments);
    iter := new Iter(list);
    iter.Advance(list, 8);
    list.SizeIsLength();
  }

  /** An Extract of 32 bytes there. If the first request for memory is refused, the copied head takes up
      half a segment, and a full segment comes to stand behind it. */
  method Unpacked(first: bool) returns (ok: bool, result: BufferList)
    ensures ok && result.mSize == 32 && (Packed(result.mSegments) <==> first)
  {
    hide BufferList.Contents;
    hide Sound;
    hide Packed;
    hide Aligned;
    hide Bufs;
    hide Flat;
    hide View;
    hide Iter.In;
    hide Iter.Pos;
    hide OneHolds;
    var list, iter := HalfWay();
    ghost var ss := list.mSegments;
    assert Unused(8, 16) == 8;
    var memory, upto := (i: nat) => i > 0 || first, 0;
    ghost var head, moved, made, lost, initial;
    ok, result, upto, head, moved, made, lost, initial := list.Extract(iter, 32, memory, 0, list.Contents(), 8);
    AtMostOne(ss, 24 - moved, 16);
  }

  lemma AtMostOne(ss: seq<Segment>, n: nat, size: nat)
    requires OneHolds(ss, n) && forall i :: 0 <= i < |ss| ==> ss[i].size == size
    ensures n <= size
  {
  }

  lemma ThreeFull(ss: seq<Segment>)
    requires |ss| == 3 && forall i :: 0 <= i < 3 ==> ss[i].size == ss[i].capacity == 16
    ensures Bufs(ss) == {ss[0].data, ss[1].data, ss[2].data}
    ensures Solid(ss) && Packed(ss) && Total(ss[..1]) == 16 && Total(ss[..0]) == 0 && Total(ss) == 48
  {
    TotalStep(ss, 0);
    TotalStep(ss, 1);
    TotalStep(ss, 2);
    assert ss[..3] == ss && ss[..0] == [];
  }

  /** The segments that such a run ends with: the head, the second segment, and half of the third. */
  lemma HalfThenFull(h: array<char>, b: array<char>, t: array<char>)
    ensures var rs := [Segment(h, 0, 8, 16), Segment(b, 0, 16, 16), Segment(t, 0, 8, 16)];
            Total(rs) == 32 && !Packed(rs) && Solid(rs) && Aligned(rs)
  {
    var rs := [Segment(h, 0, 8, 16), Segment(b, 0, 16, 16), Segment(t, 0, 8, 16)];
    TotalStep(rs, 0);
    TotalStep(rs, 1);
    TotalStep(rs, 2);
    assert rs[..3] == rs && rs[..0] == [];
    assert rs[0].size != rs[0].capacity;
  }
}
