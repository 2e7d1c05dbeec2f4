/** mfbt/LinkedList.h: lists whose links are kept in the elements themselves. A list is a ring of
    elements around a sentinel that belongs to the list.

    Which ring an element is in is not written in it, so the members that need to know take the
    ring, the sentinel first, as a ghost argument.
 */
module LinkedLists {

  class Element {
    var mNext: Element
    var mPrev: Element
    const mIsSentinel: bool

    constructor (isSentinel: bool)
      ensures mIsSentinel == isSentinel && Alone()
    {
      mIsSentinel, mNext, mPrev := isSentinel, this, this;
    }

    ghost predicate Alone()
      reads this
    {
      mNext == this && mPrev == this
    }

    predicate IsInList()
      reads this
    {
      mNext != this
    }

    function AsT(): Element? {
      if mIsSentinel then null else this
    }

    function GetNext(): Element?
      reads this
    {
      mNext.AsT()
    }

    function GetPrevious(): Element?
      reads this
    {
      mPrev.AsT()
    }

    method SetNextUnsafe(elem: Element, ghost ring: seq<Element>, ghost k: nat)
      requires Ring(ring) && k < |ring| && ring[k] == this && elem.Alone() && !elem.mIsSentinel
      modifies this`mNext, mNext`mPrev, elem
      ensures Ring(Inserted(ring, k + 1, elem))
    {
      AloneIsOutside(ring, elem);
      ghost var at := k + 1;
      LinkAround(ring, k);
      elem.mNext := mNext;
      elem.mPrev := this;
      mNext.mPrev := elem;
      mNext := elem;
      InsertedShape(ring, at, elem);
      forall i | 0 <= i <= |ring| ensures LinkAt(Inserted(ring, at, elem), i) {
        assert i < at ==> old(LinkAt(ring, i));
        assert i > at ==> old(LinkAt(ring, i - 1));
      }
    }

    method SetPreviousUnsafe(elem: Element, ghost ring: seq<Element>, ghost k: nat)
      requires Ring(ring) && k < |ring| && ring[k] == this && elem.Alone() && !elem.mIsSentinel
      modifies this`mPrev, mPrev`mNext, elem
      ensures Ring(Inserted(ring, if k == 0 then |ring| else k, elem))
    {
      AloneIsOutside(ring, elem);
      ghost var at := if k == 0 then |ring| else k;
      LinkAround(ring, k);
      elem.mNext := this;
      elem.mPrev := mPrev;
      mPrev.mNext := elem;
      mPrev := elem;
      InsertedShape(ring, at, elem);
      forall i | 0 <= i <= |ring| ensures LinkAt(Inserted(ring, at, elem), i) {
        assert i < at ==> old(LinkAt(ring, i));
        assert i > at ==> old(LinkAt(ring, i - 1));
      }
    }

    /** Inserts elem behind this element of a list. */
    method SetNext(elem: Element, ghost ring: seq<Element>, ghost k: nat)
      requires Ring(ring) && k < |ring| && ring[k] == this && elem.Alone() && !elem.mIsSentinel
      requires IsInList()
      modifies this`mNext, mNext`mPrev, elem
      ensures Ring(Inserted(ring, k + 1, elem))
    {
      SetNextUnsafe(elem, ring, k);
    }

    /** Inserts elem before this element of a list. */
    method SetPrevious(elem: Element, ghost ring: seq<Element>, ghost k: nat)
      requires Ring(ring) && k < |ring| && ring[k] == this && elem.Alone() && !elem.mIsSentinel
      requires IsInList()
      modifies this`mPrev, mPrev`mNext, elem
      ensures Ring(Inserted(ring, if k == 0 then |ring| else k, elem))
    {
      SetPreviousUnsafe(elem, ring, k);
    }

    /** Takes this element out of its list. */
    method Remove(ghost ring: seq<Element>, ghost k: nat)
      requires Ring(ring) && 0 < k < |ring| && ring[k] == this
      modifies this, mPrev`mNext, mNext`mPrev
      ensures Ring(ring[..k] + ring[k + 1..]) && Alone()
    {
      ghost var rest := ring[..k] + ring[k + 1..];
      LinkAround(ring, k);
      mPrev.mNext := mNext;
      mNext.mPrev := mPrev;
      mNext := this;
      mPrev := this;
      forall i | 0 <= i < |rest| ensures LinkAt(rest, i) {
        assert i < k ==> old(LinkAt(ring, i));
        assert i >= k - 1 ==> old(LinkAt(ring, i + 1));
      }
    }

    method RemoveAndGetNext(ghost ring: seq<Element>, ghost k: nat) returns (r: Element?)
      requires Ring(ring) && 0 < k < |ring| && ring[k] == this
      modifies this, mPrev`mNext, mNext`mPrev
      ensures Ring(ring[..k] + ring[k + 1..]) && Alone()
      ensures r == if k + 1 < |ring| then ring[k + 1] else null
    {
      LinkAround(ring, k);
      r := GetNext();
      Remove(ring, k);
    }

    method RemoveAndGetPrevious(ghost ring: seq<Element>, ghost k: nat) returns (r: Element?)
      requires Ring(ring) && 0 < k < |ring| && ring[k] == this
      modifies this, mPrev`mNext, mNext`mPrev
      ensures Ring(ring[..k] + ring[k + 1..]) && Alone()
      ensures r == if k > 1 then ring[k - 1] else null
    {
      LinkAround(ring, k);
      r := GetPrevious();
      Remove(ring, k);
    }

    /** Takes the place of other, if it is in a list. */
    method AdjustLinkForMove(other: Element, ghost ring: seq<Element>, ghost k: nat)
      requires (Ring(ring) && k < |ring| && ring[k] == other) || other.Alone()
      requires Alone() && mIsSentinel == other.mIsSentinel && this != other
      modifies this, other, other.mNext`mPrev, other.mPrev`mNext
      ensures other.Alone()
      ensures if old(other.IsInList()) then Ring(ring[k := this]) else Alone()
    {
      if !other.Alone() {
        LinkAround(ring, k);
      }
      if !other.IsInList() {
        mNext := this;
        mPrev := this;
        return;
      }
      ghost var moved := ring[k := this];
      ReplacedShape(ring, k, this);
      mNext := other.mNext;
      mPrev := other.mPrev;
      mNext.mPrev := this;
      mPrev.mNext := this;
      other.mNext := other;
      other.mPrev := other;
      forall i | 0 <= i < |ring| ensures LinkAt(moved, i) {
        assert old(LinkAt(ring, i));
      }
    }
  }

  function After(i: nat, n: nat): (j: nat)
    requires i < n
    ensures j < n
  {
    if i + 1 == n then 0 else i + 1
  }

  function Before(i: nat, n: nat): (j: nat)
    requires i < n
    ensures j < n
  {
    if i == 0 then n - 1 else i - 1
  }

  /** A sentinel and other elements, all different, linked in a circle both ways. */
  ghost predicate Ring(r: seq<Element>)
    reads r
  {
    Shape(r) && Linked(r)
  }

  ghost predicate Shape(r: seq<Element>) {
    && |r| > 0 && r[0].mIsSentinel && (forall i :: 0 < i < |r| ==> !r[i].mIsSentinel)
    && forall i, j :: 0 <= i < j < |r| ==> r[i] != r[j]
  }

  ghost predicate Linked(r: seq<Element>)
    reads r
  {
    forall i :: 0 <= i < |r| ==> LinkAt(r, i)
  }

  /** The link between the element number i and the one after it. */
  ghost predicate LinkAt(r: seq<Element>, i: nat)
    requires i < |r|
    reads r
  {
    r[i].mNext == r[After(i, |r|)] && r[After(i, |r|)].mPrev == r[i]
  }

  lemma LinkAround(r: seq<Element>, k: nat)
    requires Linked(r) && k < |r|
    ensures r[k].mNext == r[After(k, |r|)] && r[k].mPrev == r[Before(k, |r|)]
    ensures r[Before(k, |r|)].mNext == r[k] && r[After(k, |r|)].mPrev == r[k]
  {
    assert LinkAt(r, k) && LinkAt(r, Before(k, |r|));
  }

  ghost function Inserted(r: seq<Element>, k: nat, e: Element): seq<Element>
    requires k <= |r|
  {
    r[..k] + [e] + r[k..]
  }

  lemma AloneIsOutside(r: seq<Element>, e: Element)
    requires Ring(r) && e.Alone() && (e.mIsSentinel ==> |r| > 1)
    ensures e !in r
  {
    forall i | 0 <= i < |r| ensures r[i] != e {
      LinkAround(r, i);
    }
  }

  lemma InsertedShape(r: seq<Element>, k: nat, e: Element)
    requires Shape(r) && 0 < k <= |r| && e !in r && !e.mIsSentinel
    ensures Shape(Inserted(r, k, e))
  {
  }

  lemma ReplacedShape(r: seq<Element>, k: nat, e: Element)
    requires Ring(r) && k < |r| && e.Alone() && e.mIsSentinel == r[k].mIsSentinel && |r| > 1
    ensures e !in r && Shape(r[k := e])
  {
    AloneIsOutside(r, e);
  }

  /** Two lists have no element in common: who follows the links from a common one comes to both
      sentinels. */
  lemma {:induction false} RingsApart(r: seq<Element>, i: nat, q: seq<Element>, j: nat)
    requires Ring(r) && Ring(q) && i < |r| && j < |q| && r[i] == q[j]
    ensures r[0] == q[0] && i == j && r == q
    decreases |r| - i
  {
    LinkAround(r, i);
    LinkAround(q, j);
    if i == 0 {
      RingsEqual(r, q, 0);
    } else {
      var i', j' := After(i, |r|), After(j, |q|);
      if i' == 0 {
        RingsEqual(r, q, 0);
        assert r[i] == q[i];
      } else {
        RingsApart(r, i', q, j');
      }
    }
  }

  /** A sentinel determines its ring. */
  lemma {:induction false} RingsEqual(r: seq<Element>, q: seq<Element>, k: nat)
    requires Ring(r) && Ring(q) && r[0] == q[0] && k < |r| && k < |q| && r[..k + 1] == q[..k + 1]
    ensures r == q
    decreases |r| - k
  {
    LinkAround(r, k);
    LinkAround(q, k);
    assert r[k] == q[k];
    if k + 1 < |r| && k + 1 < |q| {
      assert r[..k + 2] == r[..k + 1] + [r[k + 1]] && q[..k + 2] == q[..k + 1] + [q[k + 1]];
      RingsEqual(r, q, k + 1);
    } else {
      assert r[0].mIsSentinel;
      assert |r| == |q| == k + 1;
    }
  }

  class LinkedList {
    const sentinel: Element

    ghost function Nodes(elems: seq<Element>): set<Element> {
      {sentinel} + (set e | e in elems)
    }

    /** The list consists of these elements, in this order. */
    ghost predicate Holds(elems: seq<Element>)
      reads Nodes(elems)
    {
      Ring([sentinel] + elems)
    }

    constructor ()
      ensures Holds([]) && fresh(sentinel) && sentinel.mIsSentinel
    {
      sentinel := new Element(true);
      new;
      assert LinkAt([sentinel], 0);
    }

    /** What a list holds is determined by the links. */
    lemma HoldsUnique(a: seq<Element>, b: seq<Element>)
      requires Holds(a) && Holds(b)
      ensures a == b
    {
      RingsEqual([sentinel] + a, [sentinel] + b, 0);
      assert a == ([sentinel] + a)[1..] && b == ([sentinel] + b)[1..];
    }

    /** No element is in two lists. */
    lemma ListsApart(elems: seq<Element>, other: LinkedList, others: seq<Element>)
      requires Holds(elems) && other.Holds(others) && sentinel != other.sentinel
      ensures Nodes(elems) !! other.Nodes(others)
    {
      var r, q := [sentinel] + elems, [other.sentinel] + others;
      forall i, j | 0 <= i < |r| && 0 <= j < |q| ensures r[i] != q[j] {
        if r[i] == q[j] {
          RingsApart(r, i, q, j);
          assert false;
        }
      }
      forall e | e in Nodes(elems) ensures e in r {
      }
      forall e | e in other.Nodes(others) ensures e in q {
      }
    }

    method InsertFront(elem: Element, ghost elems: seq<Element>)
      requires Holds(elems) && elem.Alone() && !elem.mIsSentinel
      modifies sentinel`mNext, sentinel.mNext`mPrev, elem
      ensures Holds([elem] + elems)
    {
      ghost var r := [sentinel] + elems;
      sentinel.SetNextUnsafe(elem, r, 0);
      assert Inserted(r, 1, elem) == [sentinel] + ([elem] + elems);
    }

    method InsertBack(elem: Element, ghost elems: seq<Element>)
      requires Holds(elems) && elem.Alone() && !elem.mIsSentinel
      modifies sentinel`mPrev, sentinel.mPrev`mNext, elem
      ensures Holds(elems + [elem])
    {
      ghost var r := [sentinel] + elems;
      sentinel.SetPreviousUnsafe(elem, r, 0);
      assert Inserted(r, |r|, elem) == [sentinel] + (elems + [elem]);
    }

    /** Takes elem out of the list, wherever in it it is. */
    method Remove(elem: Element, ghost elems: seq<Element>, ghost k: nat)
      requires Holds(elems) && k < |elems| && elems[k] == elem
      modifies elem, elem.mPrev`mNext, elem.mNext`mPrev
      ensures Holds(elems[..k] + elems[k + 1..]) && elem.Alone()
    {
      ghost var r := [sentinel] + elems;
      elem.Remove(r, k + 1);
      assert r[..k + 1] + r[k + 2..] == [sentinel] + (elems[..k] + elems[k + 1..]);
    }

    method GetFirst(ghost elems: seq<Element>) returns (e: Element?)
      requires Holds(elems)
      ensures e == if elems == [] then null else elems[0]
    {
      LinkAround([sentinel] + elems, 0);
      e := sentinel.GetNext();
    }

    method GetLast(ghost elems: seq<Element>) returns (e: Element?)
      requires Holds(elems)
      ensures e == if elems == [] then null else elems[|elems| - 1]
    {
      LinkAround([sentinel] + elems, 0);
      e := sentinel.GetPrevious();
    }

    method PopFirst(ghost elems: seq<Element>) returns (e: Element?)
      requires Holds(elems)
      modifies set x | x in [sentinel] + elems
      ensures if elems == [] then e == null && Holds([]) else e == elems[0] && e.Alone() && Holds(elems[1..])
    {
      e := GetFirst(elems);
      if e != null {
        LinkAround([sentinel] + elems, 1);
        Remove(e, elems, 0);
        assert elems[..0] + elems[1..] == elems[1..];
      }
    }

    method PopLast(ghost elems: seq<Element>) returns (e: Element?)
      requires Holds(elems)
      modifies set x | x in [sentinel] + elems
      ensures if elems == [] then e == null && Holds([])
              else e == elems[|elems| - 1] && e.Alone() && Holds(elems[..|elems| - 1])
    {
      e := GetLast(elems);
      if e != null {
        ghost var n := |elems| - 1;
        LinkAround([sentinel] + elems, n + 1);
        Remove(e, elems, n);
        assert elems[..n] + elems[n + 1..] == elems[..n];
      }
    }

    method IsEmpty(ghost elems: seq<Element>) returns (empty: bool)
      requires Holds(elems)
      ensures empty <==> elems == []
    {
      LinkAround([sentinel] + elems, 0);
      empty := !sentinel.IsInList();
    }

    /** Takes out all elements, each of which is on its own afterwards. */
    method Clear(ghost elems: seq<Element>)
      requires Holds(elems)
      modifies set x | x in [sentinel] + elems
      ensures Holds([]) && forall e :: e in elems ==> e.Alone()
    {
      ghost var r, k := [sentinel] + elems, 0;
      var e := PopFirst(elems);
      while e != null
        invariant k <= |elems| && (e == null ==> k == |elems|)
        invariant e != null ==> k < |elems|
        invariant Holds(if e == null then [] else elems[k + 1..])
        invariant forall i :: 0 <= i < |elems| && (e == null || i <= k) ==> elems[i].Alone()
        decreases |elems| - k
      {
        k := k + 1;
        forall i, j | 0 <= i < k <= j < |elems| ensures elems[i] != elems[j] && elems[i] != sentinel {
          assert r[i + 1] != r[j + 1] && r[0] != r[i + 1];
        }
        assert forall i :: 0 <= i < k ==> elems[i] != sentinel by {
          assert forall i :: 0 <= i < k ==> r[i + 1] == elems[i];
        }
        e := PopFirst(elems[k..]);
      }
    }

    /** Takes over the elements of other. */
    method MoveFrom(other: LinkedList, ghost elems: seq<Element>)
      requires Holds([]) && other.Holds(elems) && other.sentinel != sentinel
      modifies sentinel, other.sentinel, other.sentinel.mNext`mPrev, other.sentinel.mPrev`mNext
      ensures Holds(elems) && other.Holds([])
    {
      ghost var r := [other.sentinel] + elems;
      assert [sentinel] + [] == [sentinel];
      LinkAround([sentinel], 0);
      LinkAround(r, 0);
      sentinel.AdjustLinkForMove(other.sentinel, r, 0);
      assert r[0 := sentinel] == [sentinel] + elems;
    }

    /** The iterator's loop, looking for elem. */
    method Contains(elem: Element, ghost elems: seq<Element>) returns (found: bool)
      requires Holds(elems)
      ensures found <==> elem in elems
    {
      ghost var r, i := [sentinel] + elems, 0;
      var cur := GetFirst(elems);
      while cur != null
        invariant i <= |elems| && (cur == null <==> i == |elems|)
        invariant i < |elems| ==> cur == elems[i]
        invariant elem !in elems[..i]
        decreases |elems| - i
      {
        if cur == elem {
          return true;
        }
        LinkAround(r, i + 1);
        cur := cur.GetNext();
        i := i + 1;
      }
      return false;
    }
  }
}

/** LinkedList's debugAssertIsSane, on links that may be in any state: which assertions can fail, and
    whether its loops end. */
module ListSanity {
  import opened LinkedLists

  /** The elements there are; their links lead to some of them. */
  ghost predicate Closed(u: set<Element>)
    reads u
  {
    forall e :: e in u ==> e.mNext in u && e.mPrev in u
  }

  function Step(e: Element, forward: bool): Element
    reads e
  {
    if forward then e.mNext else e.mPrev
  }

  /** Where k links lead from e. */
  ghost function Walk(u: set<Element>, e: Element, forward: bool, k: nat): (w: Element)
    requires Closed(u) && e in u
    reads u
    ensures w in u
  {
    if k == 0 then e else Step(Walk(u, e, forward, k - 1), forward)
  }

  /** Following the links leads back to where one began. */
  ghost predicate Returns(u: set<Element>, s: Element, forward: bool)
    requires Closed(u) && s in u
    reads u
  {
    exists n :: n > 0 && Walk(u, s, forward, n) == s
  }

  /** A sequence longer than the set it is drawn from repeats itself. */
  lemma {:induction false} Pigeonhole(u: set<Element>, f: seq<Element>) returns (i: nat, j: nat)
    requires |f| > |u| && forall k :: 0 <= k < |f| ==> f[k] in u
    ensures i < j < |f| && f[i] == f[j]
    decreases |u|
  {
    var n := |f| - 1;
    if k :| 0 <= k < n && f[k] == f[n] {
      i, j := k, n;
    } else {
      assert f[n] in u;
      i, j := Pigeonhole(u - {f[n]}, f[..n]);
    }
  }

  /** Once a walk has come to a place again, it goes round. */
  lemma {:induction false} GoesRound(u: set<Element>, s: Element, fw: bool, i: nat, j: nat, k: nat)
    requires Closed(u) && s in u && i <= j && Walk(u, s, fw, i) == Walk(u, s, fw, j)
    ensures Walk(u, s, fw, i + k) == Walk(u, s, fw, j + k)
  {
    if k > 0 {
      GoesRound(u, s, fw, i, j, k - 1);
    }
  }

  lemma {:induction false} GoesRoundTimes(u: set<Element>, s: Element, fw: bool, i: nat, d: nat, m: nat, c: nat)
    requires Closed(u) && s in u && i <= m && Walk(u, s, fw, i) == Walk(u, s, fw, i + d)
    ensures Walk(u, s, fw, m + c * d) == Walk(u, s, fw, m)
    decreases c
  {
    if c > 0 {
      GoesRoundTimes(u, s, fw, i, d, m, c - 1);
      assert c * d == (c - 1) * d + d;
      GoesRound(u, s, fw, i, i + d, m + (c - 1) * d - i);
    }
  }

  /** There is a number of steps after which twice as many lead to the same place. */
  lemma Meets(u: set<Element>, s: Element, fw: bool) returns (m: nat)
    requires Closed(u) && s in u
    ensures m > 0 && Walk(u, s, fw, m) == Walk(u, s, fw, 2 * m)
  {
    var f := seq(|u| + 1, k requires k >= 0 reads u => if Closed(u) && s in u then Walk(u, s, fw, k) else s);
    var i, j := Pigeonhole(u, f);
    var d, c := j - i, i + 1;
    m := c * d;
    AtLeast(c, d);
    GoesRoundTimes(u, s, fw, i, d, m, c);
  }

  lemma AtLeast(c: nat, d: nat)
    requires d > 0
    ensures c * d >= c
  {
    assert c * (d - 1) >= 0;
  }

  /** Once a walk goes round without having come back to its start, it never will. */
  lemma {:induction false} NeverReturns(u: set<Element>, s: Element, fw: bool, i: nat, j: nat, n: nat)
    requires Closed(u) && s in u && 0 < i < j && 0 < n && Walk(u, s, fw, i) == Walk(u, s, fw, j)
    requires forall k :: 0 < k < j ==> Walk(u, s, fw, k) != s
    ensures Walk(u, s, fw, n) != s
    decreases n
  {
    if n >= j {
      NeverReturns(u, s, fw, i, j, n - (j - i));
      GoesRound(u, s, fw, i, j, n - j);
    }
  }

  /** The check for cycles: it ends, and passes exactly if the links lead back to the sentinel. */
  method TortoiseAndHare(sentinel: Element, forward: bool, ghost u: set<Element>) returns (ok: bool)
    requires Closed(u) && sentinel in u
    ensures ok <==> Returns(u, sentinel, forward)
  {
    ghost var m := Meets(u, sentinel, forward);
    ghost var i := 1;
    var slow := Step(sentinel, forward);
    var fast1 := Step(Step(sentinel, forward), forward);
    var fast2 := Step(Step(Step(sentinel, forward), forward), forward);
    assert slow == Walk(u, sentinel, forward, 1);
    assert fast1 == Walk(u, sentinel, forward, 2);
    assert fast2 == Walk(u, sentinel, forward, 3);
    while slow != sentinel && fast1 != sentinel && fast2 != sentinel
      invariant 1 <= i <= m
      invariant slow == Walk(u, sentinel, forward, i)
      invariant fast1 == Walk(u, sentinel, forward, 2 * i)
      invariant fast2 == Walk(u, sentinel, forward, 2 * i + 1)
      invariant forall k :: 0 < k < i || 2 <= k < 2 * i ==> Walk(u, sentinel, forward, k) != sentinel
      decreases m - i
    {
      if slow == fast1 || slow == fast2 {
        ghost var j := if slow == fast1 then 2 * i else 2 * i + 1;
        forall n | n > 0 ensures Walk(u, sentinel, forward, n) != sentinel {
          NeverReturns(u, sentinel, forward, i, j, n);
        }
        return false;
      }
      slow := Step(slow, forward);
      fast1 := Step(fast2, forward);
      fast2 := Step(fast1, forward);
      i := i + 1;
    }
    return true;
  }

  /** What is checked of the forward links and of the elements' backward ones. The backward link of
      the sentinel is compared with nothing. */
  ghost predicate ForwardRing(r: seq<Element>)
    reads r
  {
    && |r| > 0 && (forall i :: 0 < i < |r| ==> !r[i].mIsSentinel && r[i] != r[0])
    && (forall i :: 0 <= i < |r| ==> r[i].mNext == r[After(i, |r|)])
    && (forall i :: 0 < i < |r| ==> r[i].mPrev == r[i - 1])
    && (|r| == 1 ==> r[0].mPrev == r[0])
  }

  lemma {:induction false} ForwardWalk(u: set<Element>, r: seq<Element>, k: nat)
    requires Closed(u) && ForwardRing(r) && r[0] in u && k < |r|
    ensures Walk(u, r[0], true, k) == r[k] && r[k] in u
  {
    if k > 0 {
      ForwardWalk(u, r, k - 1);
      assert r[k - 1].mNext == r[After(k - 1, |r|)];
    }
  }

  lemma ForwardReturns(u: set<Element>, r: seq<Element>)
    requires Closed(u) && ForwardRing(r) && r[0] in u
    ensures Walk(u, r[0], true, |r|) == r[0]
  {
    ForwardWalk(u, r, |r| - 1);
    assert r[|r| - 1].mNext == r[After(|r| - 1, |r|)];
  }

  /** The elements that a walk meets before it is back. */
  ghost function Round(u: set<Element>, s: Element, n: nat): (r: seq<Element>)
    requires Closed(u) && s in u
    reads u
    ensures |r| == n && forall k :: 0 <= k < n ==> r[k] == Walk(u, s, true, k)
  {
    seq(n, k requires k >= 0 && Closed(u) && s in u reads u => Walk(u, s, true, k))
  }

  /** The least number of steps that lead back. */
  lemma {:induction false} FirstReturn(u: set<Element>, s: Element, n: nat) returns (m: nat)
    requires Closed(u) && s in u && n > 0 && Walk(u, s, true, n) == s
    ensures 0 < m <= n && Walk(u, s, true, m) == s && forall k :: 0 < k < m ==> Walk(u, s, true, k) != s
  {
    if k :| 0 < k < n && Walk(u, s, true, k) == s {
      m := FirstReturn(u, s, k);
    } else {
      m := n;
    }
  }

  /** The check for a second sentinel. */
  method NoOtherSentinel(sentinel: Element, ghost u: set<Element>, ghost n: nat) returns (ok: bool)
    requires Closed(u) && sentinel in u && n > 0 && Walk(u, sentinel, true, n) == sentinel
    requires forall k :: 0 < k < n ==> Walk(u, sentinel, true, k) != sentinel
    ensures ok <==> forall k :: 0 < k < n ==> !Walk(u, sentinel, true, k).mIsSentinel
  {
    var elem := sentinel.mNext;
    ghost var i := 1;
    assert elem == Walk(u, sentinel, true, 1);
    while elem != sentinel
      invariant 1 <= i <= n && elem == Walk(u, sentinel, true, i) && (elem != sentinel ==> i < n)
      invariant forall k :: 0 < k < i ==> !Walk(u, sentinel, true, k).mIsSentinel
      decreases n - i
    {
      if elem.mIsSentinel {
        return false;
      }
      elem := elem.mNext;
      i := i + 1;
    }
    return true;
  }

  /** The check that the links match up. It stops before the sentinel's own backward link, unless
      the list is empty. */
  method LinksMatch(sentinel: Element, ghost u: set<Element>, ghost n: nat) returns (ok: bool)
    requires Closed(u) && sentinel in u && n > 0 && Walk(u, sentinel, true, n) == sentinel
    requires forall k :: 0 < k < n ==> Walk(u, sentinel, true, k) != sentinel
    ensures ok <==> (forall k :: 0 < k < n ==> Walk(u, sentinel, true, k).mPrev == Walk(u, sentinel, true, k - 1))
                    && (n == 1 ==> sentinel.mPrev == sentinel)
  {
    var prev, cur := sentinel, sentinel.mNext;
    ghost var i := 1;
    assert cur == Walk(u, sentinel, true, 1);
    var again := true;
    while again
      invariant 1 <= i <= n + 1
      invariant again ==> cur == Walk(u, sentinel, true, i) && prev == Walk(u, sentinel, true, i - 1)
      invariant if again then i < n || i == n == 1 else i >= n && (n == 1 ==> sentinel.mPrev == sentinel)
      invariant forall k :: 0 < k < i && k < n ==> Walk(u, sentinel, true, k).mPrev == Walk(u, sentinel, true, k - 1)
      decreases n + 1 - i
    {
      if cur.mPrev != prev || prev.mNext != cur {
        return false;
      }
      prev, cur := cur, cur.mNext;
      i := i + 1;
      assert cur == Walk(u, sentinel, true, i);
      again := cur != sentinel;
    }
    return true;
  }

  /** What the checks can tell of the elements of a list. */
  ghost predicate LooksSane(u: set<Element>, s: Element, es: seq<Element>)
    requires Closed(u) && s in u
    reads u, s, set e | e in es
  {
    ForwardRing([s] + es) && Returns(u, s, false)
  }

  /** All of debugAssertIsSane; ok tells that no assertion failed. */
  method DebugAssertIsSane(list: LinkedList, ghost u: set<Element>) returns (ok: bool, ghost elems: seq<Element>)
    requires Closed(u) && list.sentinel in u
    ensures ok ==> LooksSane(u, list.sentinel, elems)
    ensures !ok ==> forall es :: !LooksSane(u, list.sentinel, es)
  {
    var s := list.sentinel;
    elems := [];
    ok := TortoiseAndHare(s, true, u);
    if !ok {
      forall es ensures !LooksSane(u, s, es) {
        if LooksSane(u, s, es) {
          ForwardReturns(u, [s] + es);
        }
      }
      return;
    }
    ghost var n :| n > 0 && Walk(u, s, true, n) == s;
    n := FirstReturn(u, s, n);
    ok := TortoiseAndHare(s, false, u);
    if ok {
      ok := NoOtherSentinel(s, u, n);
    }
    if ok {
      ok := LinksMatch(s, u, n);
    }
    if ok {
      elems := Round(u, s, n)[1..];
      assert [s] + elems == Round(u, s, n);
      CheckedIsRing(u, s, n);
    } else {
      forall es ensures !LooksSane(u, s, es) {
        if LooksSane(u, s, es) {
          ForwardChecked(u, [s] + es, n);
        }
      }
    }
  }

  /** What the last two checks see, on a walk that is back after n steps. */
  ghost predicate Checked(u: set<Element>, s: Element, n: nat)
    requires Closed(u) && s in u
    reads u
  {
    && (forall k :: 0 < k < n ==> !Walk(u, s, true, k).mIsSentinel)
    && (forall k :: 0 < k < n ==> Walk(u, s, true, k).mPrev == Walk(u, s, true, k - 1))
    && (n == 1 ==> s.mPrev == s)
  }

  lemma ForwardChecked(u: set<Element>, r: seq<Element>, n: nat)
    requires Closed(u) && ForwardRing(r) && r[0] in u && n > 0 && Walk(u, r[0], true, n) == r[0]
    requires forall k :: 0 < k < n ==> Walk(u, r[0], true, k) != r[0]
    ensures n == |r| && Checked(u, r[0], n)
  {
    ForwardReturns(u, r);
    if n < |r| {
      ForwardWalk(u, r, n);
    }
    forall k | 0 <= k < n ensures Walk(u, r[0], true, k) == r[k] {
      ForwardWalk(u, r, k);
    }
  }

  lemma CheckedIsRing(u: set<Element>, s: Element, n: nat)
    requires Closed(u) && s in u && n > 0 && Walk(u, s, true, n) == s && Checked(u, s, n)
    requires forall k :: 0 < k < n ==> Walk(u, s, true, k) != s
    ensures ForwardRing(Round(u, s, n))
  {
    var r := Round(u, s, n);
    forall i | 0 <= i < n ensures r[i].mNext == r[After(i, n)] {
      assert Walk(u, s, true, i + 1) == r[i].mNext;
    }
  }

  /** In a list that is a ring every check passes. */
  lemma RingIsSane(u: set<Element>, r: seq<Element>)
    requires Closed(u) && Ring(r) && r[0] in u
    ensures ForwardRing(r) && Returns(u, r[0], false) && r[0].mPrev == r[|r| - 1]
  {
    forall i | 0 <= i < |r| ensures r[i].mNext == r[After(i, |r|)] && r[i].mPrev == r[Before(i, |r|)] {
      LinkAround(r, i);
    }
    BackwardWalk(u, r, |r| - 1);
    assert Walk(u, r[0], false, |r|) == r[0];
  }

  lemma {:induction false} BackwardWalk(u: set<Element>, r: seq<Element>, k: nat)
    requires Closed(u) && Ring(r) && r[0] in u && k < |r|
    ensures Walk(u, r[0], false, k) == if k == 0 then r[0] else r[|r| - k]
  {
    if k > 0 {
      BackwardWalk(u, r, k - 1);
      LinkAround(r, if k == 1 then 0 else |r| - k + 1);
    }
  }

  /** Conversely, a list that passes is a ring if and only if the one link is right that is not
      checked. */
  lemma SaneIsRing(r: seq<Element>)
    requires ForwardRing(r) && r[0].mIsSentinel
    ensures Ring(r) <==> r[0].mPrev == r[|r| - 1]
  {
    if r[0].mPrev == r[|r| - 1] {
      forall i, j | 0 <= i < j < |r| ensures r[i] != r[j] {
        Distinct(r, i, j);
      }
      forall i | 0 <= i < |r| ensures LinkAt(r, i) {
        assert i + 1 < |r| ==> r[i + 1].mPrev == r[i];
      }
    } else if Ring(r) {
      LinkAround(r, 0);
    }
  }

  lemma {:induction false} Distinct(r: seq<Element>, i: nat, j: nat)
    requires ForwardRing(r) && i < j < |r|
    ensures r[i] != r[j]
  {
    if i > 0 {
      Distinct(r, i - 1, j - 1);
      assert r[i].mPrev == r[i - 1] && r[j].mPrev == r[j - 1];
    }
  }

  lemma LostLast(u: set<Element>, s: Element, a: Element, b: Element)
    requires s.mIsSentinel && !a.mIsSentinel && !b.mIsSentinel && a != b && u == {s, a, b}
    requires s.mNext == a && a.mNext == b && b.mNext == s && a.mPrev == s && b.mPrev == a && s.mPrev == a
    ensures Closed(u) && LooksSane(u, s, [a, b]) && !Ring([s] + [a, b])
  {
    assert Walk(u, s, false, 0) == s;
    assert Walk(u, s, false, 1) == a;
    assert Walk(u, s, false, 2) == s;
    var r := [s] + [a, b];
    assert r == [s, a, b];
    SaneIsRing(r);
  }

  /** A list with two elements whose sentinel has lost the last one passes the checks. */
  method Overlooked() returns (list: LinkedList, ghost elems: seq<Element>, ok: bool)
    ensures ok && ForwardRing([list.sentinel] + elems) && !Ring([list.sentinel] + elems)
  {
    hide LooksSane;
    hide Ring;
    list := new LinkedList();
    var a := new Element(false);
    var b := new Element(false);
    var s := list.sentinel;
    s.mNext, s.mPrev, a.mNext, a.mPrev, b.mNext, b.mPrev := a, a, b, s, s, a;
    elems := [a, b];
    ghost var u := {s, a, b};
    LostLast(u, s, a, b);
    ghost var found;
    ok, found := DebugAssertIsSane(list, u);
    LostLast(u, s, a, b);
    LooksForward(u, s, elems);
  }

  lemma LooksForward(u: set<Element>, s: Element, es: seq<Element>)
    requires Closed(u) && s in u && LooksSane(u, s, es)
    ensures ForwardRing([s] + es)
  {
  }
}

/** Any number of lists at once: an operation on one of them is an operation on its sequence, and the
    others keep theirs. */
module SeveralLists {
  import opened LinkedLists

  /** The elements that belong to the lists, sentinels included. */
  ghost function Linked(m: map<LinkedList, seq<Element>>): set<Element> {
    set l, e | l in m && e in l.Nodes(m[l]) :: e
  }

  /** What the lists hold. */
  ghost predicate Lists(m: map<LinkedList, seq<Element>>)
    reads Linked(m)
  {
    && (forall l :: l in m ==> l.Holds(m[l]))
    && forall l, k :: l in m && k in m && l != k ==> l.sentinel != k.sentinel
  }

  lemma AloneInNone(m: map<LinkedList, seq<Element>>, e: Element)
    requires Lists(m) && e.Alone() && !e.mIsSentinel
    ensures forall l :: l in m ==> e !in l.Nodes(m[l])
  {
    forall l | l in m ensures e !in l.Nodes(m[l]) {
      AloneIsOutside([l.sentinel] + m[l], e);
      assert forall d :: d in m[l] ==> d in [l.sentinel] + m[l];
    }
  }

  /** After a change to one ring the others hold what they held. */
  lemma OneChanged(m: map<LinkedList, seq<Element>>, l: LinkedList, es: seq<Element>)
    requires l in m && l.Holds(es)
    requires forall k :: k in m && k != l ==> k.Holds(m[k])
    requires forall k, j :: k in m && j in m && k != j ==> k.sentinel != j.sentinel
    ensures Lists(m[l := es])
  {
  }

  /** The ring of l is its own, and the elements around its sentinel are in it. */
  lemma Around(m: map<LinkedList, seq<Element>>, l: LinkedList)
    requires Lists(m) && l in m
    ensures l.sentinel.mNext in l.Nodes(m[l]) && l.sentinel.mPrev in l.Nodes(m[l])
    ensures l.Nodes(m[l]) <= Linked(m)
    ensures forall e :: e in [l.sentinel] + m[l] ==> e in l.Nodes(m[l])
    ensures forall k :: k in m && k != l ==> l.Nodes(m[l]) !! k.Nodes(m[k])
  {
    LinkAround([l.sentinel] + m[l], 0);
    forall k | k in m && k != l ensures l.Nodes(m[l]) !! k.Nodes(m[k]) {
      l.ListsApart(m[l], k, m[k]);
    }
  }

  method InsertFront(l: LinkedList, elem: Element, ghost m: map<LinkedList, seq<Element>>)
    requires Lists(m) && l in m && elem.Alone() && !elem.mIsSentinel
    modifies Linked(m), elem
    ensures Lists(m[l := [elem] + m[l]])
  {
    Around(m, l);
    AloneInNone(m, elem);
    l.InsertFront(elem, m[l]);
    OneChanged(m, l, [elem] + m[l]);
  }

  method InsertBack(l: LinkedList, elem: Element, ghost m: map<LinkedList, seq<Element>>)
    requires Lists(m) && l in m && elem.Alone() && !elem.mIsSentinel
    modifies Linked(m), elem
    ensures Lists(m[l := m[l] + [elem]])
  {
    Around(m, l);
    AloneInNone(m, elem);
    l.InsertBack(elem, m[l]);
    OneChanged(m, l, m[l] + [elem]);
  }

  method Remove(l: LinkedList, elem: Element, ghost k: nat, ghost m: map<LinkedList, seq<Element>>)
    requires Lists(m) && l in m && k < |m[l]| && m[l][k] == elem
    modifies Linked(m)
    ensures Lists(m[l := m[l][..k] + m[l][k + 1..]]) && elem.Alone()
  {
    Around(m, l);
    LinkAround([l.sentinel] + m[l], k + 1);
    l.Remove(elem, m[l], k);
    OneChanged(m, l, m[l][..k] + m[l][k + 1..]);
  }

  method PopFirst(l: LinkedList, ghost m: map<LinkedList, seq<Element>>) returns (e: Element?)
    requires Lists(m) && l in m
    modifies Linked(m)
    ensures if m[l] == [] then e == null && Lists(m) else e == m[l][0] && e.Alone() && Lists(m[l := m[l][1..]])
  {
    Around(m, l);
    e := l.PopFirst(m[l]);
    if m[l] == [] {
      OneChanged(m, l, []);
      assert m[l := []] == m;
    } else {
      OneChanged(m, l, m[l][1..]);
    }
  }

  method PopLast(l: LinkedList, ghost m: map<LinkedList, seq<Element>>) returns (e: Element?)
    requires Lists(m) && l in m
    modifies Linked(m)
    ensures if m[l] == [] then e == null && Lists(m)
            else e == m[l][|m[l]| - 1] && e.Alone() && Lists(m[l := m[l][..|m[l]| - 1]])
  {
    Around(m, l);
    e := l.PopLast(m[l]);
    if m[l] == [] {
      OneChanged(m, l, []);
      assert m[l := []] == m;
    } else {
      OneChanged(m, l, m[l][..|m[l]| - 1]);
    }
  }

  method Clear(l: LinkedList, ghost m: map<LinkedList, seq<Element>>)
    requires Lists(m) && l in m
    modifies Linked(m)
    ensures Lists(m[l := []]) && forall e :: e in m[l] ==> e.Alone()
  {
    Around(m, l);
    l.Clear(m[l]);
    OneChanged(m, l, []);
  }

  /** The elements of other go over to l, which has to be empty. */
  method MoveFrom(l: LinkedList, other: LinkedList, ghost m: map<LinkedList, seq<Element>>)
    requires Lists(m) && l in m && other in m && l != other && m[l] == []
    modifies Linked(m)
    ensures Lists(m[l := m[other]][other := []])
  {
    Around(m, l);
    Around(m, other);
    l.MoveFrom(other, m[other]);
  }

  /** elem goes behind the element number k of l. */
  method SetNext(l: LinkedList, at: Element, elem: Element, ghost k: nat, ghost m: map<LinkedList, seq<Element>>)
    requires Lists(m) && l in m && k < |m[l]| && m[l][k] == at && elem.Alone() && !elem.mIsSentinel
    modifies Linked(m), elem
    ensures Lists(m[l := m[l][..k + 1] + [elem] + m[l][k + 1..]])
  {
    ghost var es := m[l];
    Around(m, l);
    AloneInNone(m, elem);
    LinkAround([l.sentinel] + es, k + 1);
    at.SetNext(elem, [l.sentinel] + es, k + 1);
    assert Inserted([l.sentinel] + es, k + 2, elem) == [l.sentinel] + (es[..k + 1] + [elem] + es[k + 1..]);
    OneChanged(m, l, es[..k + 1] + [elem] + es[k + 1..]);
  }

  /** elem goes before it. */
  method SetPrevious(l: LinkedList, at: Element, elem: Element, ghost k: nat, ghost m: map<LinkedList, seq<Element>>)
    requires Lists(m) && l in m && k < |m[l]| && m[l][k] == at && elem.Alone() && !elem.mIsSentinel
    modifies Linked(m), elem
    ensures Lists(m[l := m[l][..k] + [elem] + m[l][k..]])
  {
    ghost var es := m[l];
    Around(m, l);
    AloneInNone(m, elem);
    LinkAround([l.sentinel] + es, k + 1);
    at.SetPrevious(elem, [l.sentinel] + es, k + 1);
    assert Inserted([l.sentinel] + es, k + 1, elem) == [l.sentinel] + (es[..k] + [elem] + es[k..]);
    OneChanged(m, l, es[..k] + [elem] + es[k..]);
  }

  /** elem takes the place of the element number k, which is on its own afterwards. */
  method MoveElement(l: LinkedList, elem: Element, other: Element, ghost k: nat, ghost m: map<LinkedList, seq<Element>>)
    requires Lists(m) && l in m && k < |m[l]| && m[l][k] == other && elem.Alone() && !elem.mIsSentinel
    modifies Linked(m), elem
    ensures Lists(m[l := m[l][k := elem]]) && other.Alone()
  {
    ghost var es := m[l];
    Around(m, l);
    AloneInNone(m, elem);
    LinkAround([l.sentinel] + es, k + 1);
    elem.AdjustLinkForMove(other, [l.sentinel] + es, k + 1);
    assert ([l.sentinel] + es)[k + 1 := elem] == [l.sentinel] + es[k := elem];
    OneChanged(m, l, es[k := elem]);
  }
}
