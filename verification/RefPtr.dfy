/** mfbt/RefPtr.h, RefCounted.h, AlreadyAddRefed.h and WeakPtr.h: objects that count their owners,
    and pointers that do not own.

    A world is a list of owners, a set of objects and a set of weak pointers. Pointers and objects
    come from outside, so the members that need to know the world take it as ghost arguments.
 */
module RefPtrs {

  /** What weak pointers to an object share. It outlives the object. */
  class WeakReference {
    var mPtr: Counted?

    constructor (p: Counted?)
      ensures mPtr == p
    {
      mPtr := p;
    }

    method Detach()
      modifies this
      ensures mPtr == null
    {
      mPtr := null;
    }
  }

  /** An object that derives from RefCounted and SupportsWeakPtr. deleted tells that it has been
      deleted, owned that it ever had an owner. */
  class Counted {
    var mRefCnt: nat
    var mSelf: WeakReference
    var deleted: bool
    ghost var owned: bool

    constructor ()
      ensures mRefCnt == 0 && !deleted && !owned && fresh(mSelf) && mSelf.mPtr == null
    {
      mRefCnt, deleted, owned := 0, false, false;
      mSelf := new WeakReference(null);
    }

    method AddRef()
      requires !deleted
      modifies this`mRefCnt, this`owned
      ensures mRefCnt == old(mRefCnt) + 1 && owned
    {
      mRefCnt := mRefCnt + 1;
      owned := true;
    }

    /** The destructor detaches the weak reference. */
    method Release()
      requires !deleted && mRefCnt > 0
      modifies this`mRefCnt, this`deleted, mSelf
      ensures mRefCnt == old(mRefCnt) - 1 && (deleted <==> mRefCnt == 0)
      ensures mSelf.mPtr == if deleted then null else old(mSelf.mPtr)
    {
      mRefCnt := mRefCnt - 1;
      if mRefCnt == 0 {
        deleted := true;
        if mSelf.mPtr != null {
          mSelf.Detach();
        }
      }
    }

    method SelfReferencingWeakPtr() returns (ref: WeakReference)
      modifies this`mSelf
      ensures ref == mSelf
      ensures if old(mSelf.mPtr) == null then fresh(mSelf) && mSelf.mPtr == this else mSelf == old(mSelf)
    {
      if mSelf.mPtr == null {
        mSelf := new WeakReference(this);
      }
      ref := mSelf;
    }
  }

  /** An owner: a RefPtr, or an already_AddRefed on its way from one RefPtr to another. */
  class Owner {
    var mRawPtr: Counted?
    const inFlight: bool

    constructor (inFlight: bool, x: Counted?)
      ensures mRawPtr == x && this.inFlight == inFlight
    {
      this.inFlight, mRawPtr := inFlight, x;
    }
  }

  class WeakPtr {
    var mRef: WeakReference
    ghost var of: Counted?    // the object it was obtained from

    constructor ()
      ensures of == null && mRef.mPtr == null && fresh(mRef)
    {
      mRef := new WeakReference(null);
      of := null;
    }
  }

  /** What the owners point at, one after the other. */
  ghost function Raws(owners: seq<Owner>): (r: seq<Counted?>)
    reads owners
    ensures |r| == |owners| && forall i :: 0 <= i < |owners| ==> r[i] == owners[i].mRawPtr
  {
    seq(|owners|, i requires 0 <= i < |owners| reads owners => owners[i].mRawPtr)
  }

  /** The count is the number of owners, and an object is deleted if and only if it had an owner and
      has none any more. */
  ghost predicate Balanced(o: Counted, n: nat)
    reads o
  {
    o.mRefCnt == n && (n > 0 ==> o.owned) && (o.deleted <==> o.owned && n == 0)
  }

  /** All objects are balanced, if their owners are those counted in m. */
  ghost predicate Counts(m: multiset<Counted?>, objs: set<Counted>)
    reads objs
  {
    && (forall o :: o in m && o != null ==> o in objs)
    && forall o :: o in objs ==> Balanced(o, m[o])
  }

  ghost predicate Distinct(owners: seq<Owner>) {
    forall i, j :: 0 <= i < j < |owners| ==> owners[i] != owners[j]
  }

  /** A weak pointer that was obtained from an object is null exactly if that has been deleted. */
  ghost predicate Weaks(weaks: set<WeakPtr>, objs: set<Counted>)
    reads weaks, set w | w in weaks :: w.mRef, objs, set o | o in objs :: o.mSelf
  {
    && (forall o :: o in objs ==> o.mSelf.mPtr == null || (o.mSelf.mPtr == o && !o.deleted))
    && (forall o, p :: o in objs && p in objs && o != p ==> o.mSelf != p.mSelf)
    && forall w :: w in weaks ==>
         if w.of == null then w.mRef.mPtr == null
         else w.of in objs && w.mRef == w.of.mSelf && w.mRef.mPtr == if w.of.deleted then null else w.of
  }

  ghost function Selves(objs: set<Counted>): set<WeakReference>
    reads objs
  {
    set o | o in objs :: o.mSelf
  }

  ghost predicate World(owners: seq<Owner>, objs: set<Counted>, weaks: set<WeakPtr>)
    reads owners, objs, weaks, set w | w in weaks :: w.mRef, Selves(objs)
  {
    Distinct(owners) && Counts(multiset(Raws(owners)), objs) && Weaks(weaks, objs)
  }

  ghost function Deleted(objs: set<Counted>): set<Counted>
    reads objs
  {
    set o | o in objs && o.deleted
  }

  ghost function Owned(objs: set<Counted>): set<Counted>
    reads objs
  {
    set o | o in objs && o.owned
  }

  /** x is deleted if an owner of it has gone that was the last, no other object is, and what had an
      owner is remembered to have had one. */
  twostate predicate Deletes(objs: set<Counted>, x: Counted?, last: bool)
    reads objs
  {
    && Deleted(objs) == old(Deleted(objs)) + (if x != null && last then {x} else {})
    && old(Owned(objs)) <= Owned(objs)
  }

  /** Null pointers do not count. */
  lemma AddNull(m: multiset<Counted?>, objs: set<Counted>)
    requires Counts(m, objs)
    ensures Counts(m + multiset{null}, objs)
  {
  }

  method AddOne(o: Counted?, ghost m: multiset<Counted?>, ghost objs: set<Counted>, ghost weaks: set<WeakPtr>)
    requires Counts(m, objs) && Weaks(weaks, objs) && (o != null ==> o in objs && !o.deleted)
    modifies objs
    ensures Counts(m + multiset{o}, objs) && Weaks(weaks, objs)
    ensures Deletes(objs, null, false) && forall p :: p in objs ==> p.mSelf == old(p.mSelf)
  {
    if o != null {
      o.AddRef();
    }
  }

  method ReleaseOne(o: Counted?, ghost m: multiset<Counted?>, ghost objs: set<Counted>, ghost weaks: set<WeakPtr>)
    requires Counts(m, objs) && Weaks(weaks, objs) && (o != null ==> m[o] > 0)
    modifies objs, Selves(objs)
    ensures Counts(m - multiset{o}, objs) && Weaks(weaks, objs)
    ensures Deletes(objs, o, m[o] == 1) && forall p :: p in objs ==> p.mSelf == old(p.mSelf)
  {
    if o != null {
      o.Release();
    }
  }

  /** p.mRawPtr = x. */
  method SetRaw(p: Owner, x: Counted?, ghost owners: seq<Owner>, ghost i: nat)
    requires Distinct(owners) && i < |owners| && owners[i] == p
    modifies p
    ensures p.mRawPtr == x && Raws(owners) == old(Raws(owners))[i := x]
  {
    ghost var r := Raws(owners);
    p.mRawPtr := x;
    assert forall j :: 0 <= j < |owners| && j != i ==> owners[j].mRawPtr == r[j];
  }

  lemma RawsSnoc(owners: seq<Owner>, p: Owner)
    ensures Raws(owners + [p]) == Raws(owners) + [p.mRawPtr]
    ensures multiset(Raws(owners + [p])) == multiset(Raws(owners)) + multiset{p.mRawPtr}
  {
    assert Raws(owners + [p]) == Raws(owners) + [p.mRawPtr];
  }

  lemma SnocDistinct(owners: seq<Owner>, p: Owner)
    requires Distinct(owners) && p !in owners
    ensures Distinct(owners + [p])
  {
  }

  lemma WithoutDistinct(owners: seq<Owner>, i: nat)
    requires Distinct(owners) && i < |owners|
    ensures Distinct(owners[..i] + owners[i + 1..])
  {
  }

  lemma RawsWithout(owners: seq<Owner>, i: nat)
    requires i < |owners|
    ensures Raws(owners[..i] + owners[i + 1..]) == Raws(owners)[..i] + Raws(owners)[i + 1..]
  {
  }

  /** What a list points at when one place in it changes, when two are exchanged, and so on. */
  lemma SetBag<T>(r: seq<T>, i: nat, x: T)
    requires i < |r|
    ensures multiset(r)[r[i]] > 0
    ensures multiset(r[i := x]) == multiset(r) - multiset{r[i]} + multiset{x} == multiset(r) + multiset{x} - multiset{r[i]}
  {
    assert r[i] in r;
  }

  lemma LastOne<T>(r: seq<T>, i: nat, x: T)
    requires i < |r|
    ensures (multiset(r) + multiset{x})[r[i]] == 1 <==> r[i] !in r[i := x]
  {
    SetBag(r, i, x);
    assert r[i] in r[i := x] <==> multiset(r[i := x])[r[i]] > 0;
  }

  lemma SwapBag<T>(r: seq<T>, i: nat, j: nat)
    requires i < |r| && j < |r|
    ensures multiset(r[i := r[j]][j := r[i]]) == multiset(r)
  {
    var t := r[i := r[j]];
    SetBag(r, i, r[j]);
    SetBag(t, j, r[i]);
    assert t[j] == r[j];
  }

  lemma MoveBag<T>(r: seq<T>, i: nat, j: nat, x: T)
    requires i < |r| && j < |r|
    ensures multiset(r[i := r[j]][j := x]) == multiset(r) - multiset{r[i]} + multiset{x}
  {
    var t := r[i := r[j]];
    SetBag(r, i, r[j]);
    SetBag(t, j, x);
    assert t[j] == r[j];
  }

  lemma PassBag<T>(r: seq<T>, j: nat, x: T)
    requires j < |r|
    ensures multiset(r[j := x]) + multiset{r[j]} == multiset(r) + multiset{x}
  {
    SetBag(r, j, x);
  }

  lemma OverwrittenBag<T>(r: seq<T>, i: nat, j: nat, x: T)
    requires i < |r| && j < |r|
    ensures i == j ==> r[j := x][i := r[j]] == r
    ensures i != j ==> multiset(r[j := x][i := r[j]]) == multiset(r) - multiset{r[i]} + multiset{x}
  {
    if i != j {
      MoveBag(r, i, j, x);
      var t: seq<T> := r[i := r[j]][j := x];
      assert r[j := x][i := r[j]] == t;
    }
  }

  lemma RemoveBag<T>(r: seq<T>, i: nat)
    requires i < |r|
    ensures multiset(r[..i] + r[i + 1..]) == multiset(r) - multiset{r[i]}
  {
    assert r == r[..i] + [r[i]] + r[i + 1..];
  }

  /** assign_assuming_AddRef: x is counted already, what p pointed at is released. m counts the
      owners, and x once more. */
  method AssignAssumingAddRef(p: Owner, x: Counted?, ghost owners: seq<Owner>, ghost i: nat, ghost m: multiset<Counted?>,
                              ghost objs: set<Counted>, ghost weaks: set<WeakPtr>)
    requires Distinct(owners) && i < |owners| && owners[i] == p
    requires Counts(m, objs) && Weaks(weaks, objs) && m[p.mRawPtr] > 0
    modifies p, objs, Selves(objs)
    ensures Counts(m - multiset{old(p.mRawPtr)}, objs) && Weaks(weaks, objs)
    ensures p.mRawPtr == x && Raws(owners) == old(Raws(owners))[i := x]
    ensures Deletes(objs, old(p.mRawPtr), m[old(p.mRawPtr)] == 1)
  {
    hide Distinct;
    hide Counts;
    hide Weaks;
    hide Raws;
    var oldPtr := p.mRawPtr;
    SetRaw(p, x, owners, i);
    ReleaseOne(oldPtr, m, objs, weaks);
  }

  /** Assignment from a raw pointer or, with the pointer of another RefPtr, copy assignment. */
  method AssignWithAddRef(p: Owner, x: Counted?, ghost owners: seq<Owner>, ghost i: nat, ghost objs: set<Counted>,
                          ghost weaks: set<WeakPtr>)
    requires World(owners, objs, weaks) && i < |owners| && owners[i] == p
    requires x != null ==> x in objs && !x.deleted
    modifies p, objs, Selves(objs)
    ensures World(owners, objs, weaks) && Raws(owners) == old(Raws(owners))[i := x]
    ensures Deletes(objs, old(p.mRawPtr), old(p.mRawPtr) !in Raws(owners))
  {
    hide Deleted;
    hide Owned;
    hide Distinct;
    hide Counts;
    hide Weaks;
    hide Raws;
    ghost var r := Raws(owners);
    SetBag(r, i, x);
    LastOne(r, i, x);
    AddOne(x, multiset(r), objs, weaks);
    assert Selves(objs) == old(Selves(objs)) && p.mRawPtr == r[i];
    hide Selves;
    AssignAssumingAddRef(p, x, owners, i, multiset(r) + multiset{x}, objs, weaks);
  }

  /** Assignment of nullptr. */
  method AssignNull(p: Owner, ghost owners: seq<Owner>, ghost i: nat, ghost objs: set<Counted>, ghost weaks: set<WeakPtr>)
    requires World(owners, objs, weaks) && i < |owners| && owners[i] == p
    modifies p, objs, Selves(objs)
    ensures World(owners, objs, weaks) && Raws(owners) == old(Raws(owners))[i := null]
    ensures Deletes(objs, old(p.mRawPtr), old(p.mRawPtr) !in Raws(owners))
  {
    hide Distinct;
    hide Counts;
    hide Weaks;
    hide Raws;
    ghost var r := Raws(owners);
    SetBag(r, i, null);
    AssignAssumingAddRef(p, null, owners, i, multiset(r), objs, weaks);
    AddNull(multiset(r) - multiset{r[i]}, objs);
  }

  /** Move assignment, also from an already_AddRefed. A RefPtr that is moved to itself is null
      afterwards, and its object released. */
  method AssignMove(p: Owner, other: Owner, ghost owners: seq<Owner>, ghost i: nat, ghost j: nat, ghost objs: set<Counted>,
                    ghost weaks: set<WeakPtr>)
    requires World(owners, objs, weaks) && i < |owners| && j < |owners| && owners[i] == p && owners[j] == other
    modifies p, other, objs, Selves(objs)
    ensures World(owners, objs, weaks)
    ensures Raws(owners) == old(Raws(owners)[i := other.mRawPtr][j := null])
    ensures Deletes(objs, old(p.mRawPtr), old(p.mRawPtr) !in Raws(owners))
  {
    hide Distinct;
    hide Counts;
    hide Weaks;
    hide Raws;
    ghost var r := Raws(owners);
    SetBag(r, i, null);
    MoveBag(r, i, j, null);
    AssignAssumingAddRef(p, other.mRawPtr, owners, i, multiset(r), objs, weaks);
    SetRaw(other, null, owners, j);
    AddNull(multiset(r) - multiset{r[i]}, objs);
  }

  method Swap(p: Owner, other: Owner, ghost owners: seq<Owner>, ghost i: nat, ghost j: nat, ghost objs: set<Counted>,
              ghost weaks: set<WeakPtr>)
    requires World(owners, objs, weaks) && i < |owners| && j < |owners| && owners[i] == p && owners[j] == other
    modifies p, other
    ensures World(owners, objs, weaks)
    ensures Raws(owners) == old(Raws(owners)[j := p.mRawPtr][i := other.mRawPtr])
  {
    hide Distinct;
    hide Counts;
    hide Weaks;
    hide Raws;
    SwapBag(Raws(owners), j, i);
    var temp := other.mRawPtr;
    SetRaw(other, p.mRawPtr, owners, j);
    SetRaw(p, temp, owners, i);
  }

  /** A new RefPtr to what x points at: construction from a raw pointer, or copy construction. */
  method NewWithAddRef(x: Counted?, ghost owners: seq<Owner>, ghost objs: set<Counted>, ghost weaks: set<WeakPtr>)
    returns (p: Owner)
    requires World(owners, objs, weaks) && (x != null ==> x in objs && !x.deleted)
    modifies objs
    ensures fresh(p) && !p.inFlight && p.mRawPtr == x
    ensures World(owners + [p], objs, weaks) && Raws(owners) == old(Raws(owners))
    ensures Deletes(objs, null, false)
  {
    hide Distinct;
    hide Counts;
    hide Weaks;
    hide Raws;
    ghost var r := Raws(owners);
    assert allocated(owners);
    p := new Owner(false, x);
    SnocDistinct(owners, p);
    AddOne(x, multiset(r), objs, weaks);
    RawsSnoc(owners, p);
  }

  /** A new owner takes over from other: move construction, construction from an already_AddRefed, or
      forget, where the new one is in flight. */
  method NewFrom(other: Owner, inFlight: bool, ghost owners: seq<Owner>, ghost j: nat, ghost objs: set<Counted>,
                 ghost weaks: set<WeakPtr>)
    returns (p: Owner)
    requires World(owners, objs, weaks) && j < |owners| && owners[j] == other
    modifies other
    ensures fresh(p) && p.inFlight == inFlight && p.mRawPtr == old(other.mRawPtr)
    ensures World(owners + [p], objs, weaks) && Raws(owners) == old(Raws(owners))[j := null]
  {
    hide Distinct;
    hide Counts;
    hide Weaks;
    hide Raws;
    ghost var r := Raws(owners);
    assert allocated(owners);
    p := new Owner(inFlight, other.mRawPtr);
    SnocDistinct(owners, p);
    SetRaw(other, null, owners, j);
    PassBag(r, j, null);
    RawsSnoc(owners, p);
    AddNull(multiset(r), objs);
  }

  /** The destructor. That of an already_AddRefed asserts that it is empty. */
  method Destroy(p: Owner, ghost owners: seq<Owner>, ghost i: nat, ghost objs: set<Counted>, ghost weaks: set<WeakPtr>)
    requires World(owners, objs, weaks) && i < |owners| && owners[i] == p && (p.inFlight ==> p.mRawPtr == null)
    modifies objs, Selves(objs)
    ensures World(owners[..i] + owners[i + 1..], objs, weaks)
    ensures Raws(owners[..i] + owners[i + 1..]) == old(Raws(owners)[..i] + Raws(owners)[i + 1..])
    ensures Deletes(objs, p.mRawPtr, p.mRawPtr !in Raws(owners[..i] + owners[i + 1..]))
  {
    hide Distinct;
    hide Counts;
    hide Weaks;
    hide Raws;
    ghost var r := Raws(owners);
    SetBag(r, i, null);
    ReleaseOne(p.mRawPtr, multiset(r), objs, weaks);
    WithoutDistinct(owners, i);
    RawsWithout(owners, i);
    RemoveBag(r, i);
  }

  /** Move assignment between already_AddRefed. What p pointed at is overwritten and not released:
      that object keeps a count for an owner that is gone. */
  method AssignInFlight(p: Owner, other: Owner, ghost owners: seq<Owner>, ghost i: nat, ghost j: nat, ghost objs: set<Counted>,
                        ghost weaks: set<WeakPtr>)
    requires World(owners, objs, weaks) && i < |owners| && j < |owners| && owners[i] == p && owners[j] == other
    requires p.inFlight && other.inFlight
    modifies p, other
    ensures Raws(owners) == old(Raws(owners)[j := null][i := other.mRawPtr])
    ensures World(owners, objs, weaks) <==> old(p.mRawPtr) == null || p == other
  {
    hide Distinct;
    hide Counts;
    hide Weaks;
    hide Raws;
    ghost var r := Raws(owners);
    var taken := other.mRawPtr;
    SetRaw(other, null, owners, j);
    SetRaw(p, taken, owners, i);
    SameOwner(owners, i, j);
    Overwritten(r, i, j, objs);
    assert Weaks(weaks, objs);
    WorldIs(owners, objs, weaks);
    hide World;
  }

  lemma WorldIs(owners: seq<Owner>, objs: set<Counted>, weaks: set<WeakPtr>)
    requires Distinct(owners) && Weaks(weaks, objs)
    ensures World(owners, objs, weaks) <==> Counts(multiset(Raws(owners)), objs)
  {
  }

  lemma Overwritten(r: seq<Counted?>, i: nat, j: nat, objs: set<Counted>)
    requires Counts(multiset(r), objs) && i < |r| && j < |r|
    ensures Counts(multiset(r[j := null][i := r[j]]), objs) <==> r[i] == null || i == j
  {
    hide Counts;
    SetBag(r, i, null);
    OverwrittenBag(r, i, j, null);
    OverwrittenCounts(multiset(r), r[i], objs);
  }

  lemma SameOwner(owners: seq<Owner>, i: nat, j: nat)
    requires Distinct(owners) && i < |owners| && j < |owners|
    ensures owners[i] == owners[j] <==> i == j
  {
  }

  lemma OverwrittenCounts(m: multiset<Counted?>, a: Counted?, objs: set<Counted>)
    requires Counts(m, objs) && m[a] > 0
    ensures Counts(m - multiset{a} + multiset{null}, objs) <==> a == null
  {
    if a == null {
      assert m - multiset{a} + multiset{null} == m;
    } else {
      var n := m - multiset{a} + multiset{null};
      assert n[a] == m[a] - 1;
      assert a in objs && Balanced(a, m[a]);
    }
  }

  /** Assignment of an object, or of nullptr, to a weak pointer. */
  method AssignWeak(w: WeakPtr, o: Counted?, ghost objs: set<Counted>, ghost weaks: set<WeakPtr>)
    requires Weaks(weaks, objs) && w in weaks && (o != null ==> o in objs && !o.deleted)
    modifies w, objs`mSelf
    ensures Weaks(weaks, objs) && w.of == o
  {
    if o != null {
      w.mRef := o.SelfReferencingWeakPtr();
    } else if w.mRef.mPtr != null {
      w.mRef := new WeakReference(null);
    }
    w.of := o;
  }

  method CopyWeak(w: WeakPtr, other: WeakPtr, ghost objs: set<Counted>, ghost weaks: set<WeakPtr>)
    requires Weaks(weaks, objs) && w in weaks && other in weaks
    modifies w
    ensures Weaks(weaks, objs) && w.of == old(other.of)
  {
    w.mRef := other.mRef;
    w.of := other.of;
  }

  /** Null exactly if there was no object, or it has been deleted. */
  method GetWeak(w: WeakPtr, ghost owners: seq<Owner>, ghost objs: set<Counted>, ghost weaks: set<WeakPtr>) returns (o: Counted?)
    requires World(owners, objs, weaks) && w in weaks
    ensures o == if w.of == null || w.of.deleted then null else w.of
    ensures w.of != null && w.of.owned ==> (o == null <==> w.of !in multiset(Raws(owners)))
  {
    o := w.mRef.mPtr;
    if w.of != null {
      assert Balanced(w.of, multiset(Raws(owners))[w.of]);
    }
  }

  /** The count of an object is the number of its owners; it is deleted if and only if it has had one
      and has none left. */
  lemma CountIsOwners(owners: seq<Owner>, objs: set<Counted>, weaks: set<WeakPtr>, o: Counted)
    requires World(owners, objs, weaks) && o in objs
    ensures o.mRefCnt == |OwnersOf(owners, o)|
    ensures o.deleted <==> o.owned && OwnersOf(owners, o) == {}
  {
    assert Balanced(o, multiset(Raws(owners))[o]);
    OwnersCounted(owners, o);
  }

  /** The places in the list that point at o. */
  ghost function OwnersOf(owners: seq<Owner>, o: Counted): set<int>
    reads owners
  {
    set i | 0 <= i < |owners| && owners[i].mRawPtr == o
  }

  lemma {:induction false} OwnersCounted(owners: seq<Owner>, o: Counted)
    ensures |OwnersOf(owners, o)| == multiset(Raws(owners))[o]
  {
    if owners != [] {
      var n := |owners| - 1;
      var rest, p := owners[..n], owners[n];
      assert owners == rest + [p];
      RawsSnoc(rest, p);
      OwnersCounted(rest, o);
      if p.mRawPtr == o {
        assert OwnersOf(owners, o) == OwnersOf(rest, o) + {n};
      } else {
        assert OwnersOf(owners, o) == OwnersOf(rest, o);
      }
    }
  }

  method NewObject(ghost owners: seq<Owner>, ghost objs: set<Counted>, ghost weaks: set<WeakPtr>) returns (o: Counted)
    requires World(owners, objs, weaks)
    ensures fresh(o) && !o.deleted && !o.owned && World(owners, objs + {o}, weaks)
  {
    assert allocated(owners) && allocated(objs) && allocated(weaks);
    ghost var r := Raws(owners);
    o := new Counted();
    assert Raws(owners) == r;
    assert o !in multiset(r);
  }

  method NewWeak(ghost owners: seq<Owner>, ghost objs: set<Counted>, ghost weaks: set<WeakPtr>) returns (w: WeakPtr)
    requires World(owners, objs, weaks)
    ensures fresh(w) && w.of == null && World(owners, objs, weaks + {w})
  {
    assert allocated(owners) && allocated(objs) && allocated(weaks);
    w := new WeakPtr();
  }

  /** An object with one owner, which is in flight and is assigned another that is empty: nobody owns
      the object any more, its count is still 1, and it is not deleted. */
  method LeakedInFlight() returns (o: Counted, ghost owners: seq<Owner>)
    ensures OwnersOf(owners, o) == {} && o.mRefCnt == 1 && !o.deleted
  {
    hide World;
    hide Raws;
    hide Deletes;
    NothingYet();
    o := NewObject([], {}, {});
    assert {} + {o} == {o};
    var a := NewWithAddRef(o, [], {o}, {});
    owners := [] + [a];
    var b := NewFrom(a, true, owners, 0, {o}, {});
    owners := owners + [b];
    var c := NewFrom(a, true, owners, 0, {o}, {});
    owners := owners + [c];
    assert owners == [a, b, c] && a.mRawPtr == null && b.mRawPtr == o && c.mRawPtr == null;
    CountIsOwners(owners, {o}, {}, o);
    assert OwnersOf(owners, o) == {1};
    AssignInFlight(b, c, owners, 1, 2, {o}, {});
    assert a.mRawPtr == null && b.mRawPtr == null && c.mRawPtr == null;
  }

  lemma NothingYet()
    ensures World([], {}, {})
  {
  }
}
