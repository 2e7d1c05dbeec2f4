/** A stream cut into pieces: positions and slices, free of any heap. */
module Pieces {

  /** The pieces, one after the other. */
  function Flat<T>(v: seq<seq<T>>): seq<T> {
    if v == [] then [] else v[0] + Flat(v[1..])
  }

  lemma {:induction false} FlatConcat<T>(a: seq<seq<T>>, b: seq<seq<T>>)
    ensures Flat(a + b) == Flat(a) + Flat(b)
  {
    if a == [] {
      assert a + b == b;
    } else {
      FlatConcat(a[1..], b);
      assert (a + b)[1..] == a[1..] + b && (a + b)[0] == a[0];
      Associate(a[0], Flat(a[1..]), Flat(b));
    }
  }

  lemma Associate<T>(a: seq<T>, b: seq<T>, c: seq<T>)
    ensures (a + b) + c == a + (b + c)
  {
  }

  lemma FlatSplit<T>(v: seq<seq<T>>, k: nat)
    requires k <= |v|
    ensures Flat(v) == Flat(v[..k]) + Flat(v[k..])
  {
    assert v == v[..k] + v[k..];
    FlatConcat(v[..k], v[k..]);
  }

  lemma FlatOne<T>(p: seq<T>)
    ensures Flat([p]) == p
  {
    assert [p][1..] == [];
    assert Flat([p]) == p + [];
  }

  lemma FlatSnoc<T>(v: seq<seq<T>>, p: seq<T>)
    ensures Flat(v + [p]) == Flat(v) + p
  {
    FlatConcat(v, [p]);
    FlatOne(p);
  }

  /** Where the piece number k begins. */
  function StartOf<T>(v: seq<seq<T>>, k: nat): nat
    requires k <= |v|
  {
    |Flat(v[..k])|
  }

  lemma StartOfNext<T>(v: seq<seq<T>>, k: nat)
    requires k < |v|
    ensures StartOf(v, k + 1) == StartOf(v, k) + |v[k]|
  {
    assert v[..k + 1] == v[..k] + [v[k]];
    FlatSnoc(v[..k], v[k]);
  }

  lemma {:induction false} StartOfLater<T>(v: seq<seq<T>>, j: nat, k: nat)
    requires j <= k <= |v|
    ensures StartOf(v, j) <= StartOf(v, k)
    ensures j < k ==> StartOf(v, j) + |v[j]| <= StartOf(v, k)
    decreases k
  {
    if j < k {
      StartOfNext(v, k - 1);
      StartOfLater(v, j, k - 1);
    }
  }

  lemma EndOf<T>(v: seq<seq<T>>)
    ensures StartOf(v, |v|) == |Flat(v)|
  {
    assert v[..|v|] == v;
  }

  /** A piece is the slice of the stream that begins where it begins. */
  lemma PieceAt<T>(v: seq<seq<T>>, k: nat)
    requires k < |v|
    ensures StartOf(v, k) + |v[k]| <= |Flat(v)|
    ensures Flat(v)[StartOf(v, k)..StartOf(v, k) + |v[k]|] == v[k]
  {
    FlatSplit(v, k);
    assert v[k..][0] == v[k];
    Middle(Flat(v[..k]), v[k], Flat(v[k..][1..]));
  }

  lemma Middle<T>(a: seq<T>, b: seq<T>, c: seq<T>)
    ensures (a + (b + c))[|a|..|a| + |b|] == b
  {
  }

  /** And so for parts of it. */
  lemma PartAt<T>(v: seq<seq<T>>, k: nat, lo: nat, hi: nat)
    requires k < |v| && lo <= hi <= |v[k]|
    ensures StartOf(v, k) + hi <= |Flat(v)|
    ensures Flat(v)[StartOf(v, k) + lo..StartOf(v, k) + hi] == v[k][lo..hi]
  {
    PieceAt(v, k);
    var s := StartOf(v, k);
    SliceOfSlice(Flat(v), s, s + |v[k]|, lo, hi);
  }

  lemma SliceOfSlice<T>(f: seq<T>, s: nat, e: nat, lo: nat, hi: nat)
    requires s <= e <= |f| && lo <= hi <= e - s
    ensures f[s..e][lo..hi] == f[s + lo..s + hi]
  {
    forall i | 0 <= i < hi - lo ensures f[s..e][lo..hi][i] == f[s + lo..s + hi][i] {
    }
  }

  lemma FlatRange<T>(v: seq<seq<T>>, a: nat, b: nat)
    requires a <= b <= |v|
    ensures StartOf(v, a) <= StartOf(v, b) <= |Flat(v)|
    ensures Flat(v)[..StartOf(v, a)] == Flat(v[..a]) && Flat(v)[StartOf(v, b)..] == Flat(v[b..])
    ensures Flat(v)[StartOf(v, a)..StartOf(v, b)] == Flat(v[a..b])
  {
    FlatSplit(v, a);
    FlatSplit(v, b);
    assert v[..b][..a] == v[..a] && v[..b][a..] == v[a..b];
    FlatSplit(v[..b], a);
  }

  lemma SliceGrows<T>(f: seq<T>, p: nat, q: nat, r: nat)
    requires p <= q <= r <= |f|
    ensures f[p..r] == f[p..q] + f[q..r]
  {
  }
}
