/** The intrusive, parent-pointered splay tree of mfbt/SplayTree.h.

    The nodes live on the heap and are relinked in place. A ghost value, the
    shape, records the binary tree the links currently spell out; `Linked` ties
    the two together. Code that works in the middle of the tree is specified
    with a context (a tree with one hole), so that one rotation is one local step.
 */
module SplayTrees {
  import PowersOfTwo

  // ---------------------------------------------------------------- the order

  ghost predicate AtMost<K>(cmp: (K, K) -> int, a: K, b: K) {
    cmp(a, b) <= 0
  }

  /** Comparator::compare is any total preorder; only the sign of its result matters. */
  ghost predicate TotalOrder<K(!new)>(cmp: (K, K) -> int) {
    && (forall a, b {:trigger AtMost(cmp, a, b)} :: cmp(a, b) < 0 <==> cmp(b, a) > 0)
    && (forall a, b, c :: AtMost(cmp, a, b) && AtMost(cmp, b, c) ==> AtMost(cmp, a, c))
  }

  lemma LessLess<K(!new)>(cmp: (K, K) -> int, a: K, b: K, c: K)
    requires TotalOrder(cmp)
    requires (cmp(a, b) < 0 && cmp(b, c) <= 0) || (cmp(a, b) <= 0 && cmp(b, c) < 0)
    ensures cmp(a, c) < 0
  {
    assert AtMost(cmp, a, b) && AtMost(cmp, b, c) && AtMost(cmp, a, c);
    assert AtMost(cmp, c, a) ==> AtMost(cmp, c, b) && AtMost(cmp, b, a);
  }

  lemma SignsMirror<K(!new)>(cmp: (K, K) -> int, a: K, b: K)
    requires TotalOrder(cmp)
    ensures cmp(a, b) < 0 <==> cmp(b, a) > 0
    ensures cmp(a, b) > 0 <==> cmp(b, a) < 0
    ensures cmp(a, a) == 0
  {
    assert AtMost(cmp, a, b) || !AtMost(cmp, a, b);
    assert AtMost(cmp, b, a) || !AtMost(cmp, b, a);
    assert AtMost(cmp, a, a) || !AtMost(cmp, a, a);
  }

  // ------------------------------------------------------------ nodes and shapes

  class Node<K> {
    const key: K
    var mLeft: Node?<K>
    var mRight: Node?<K>
    var mParent: Node?<K>

    constructor (key: K)
      ensures this.key == key
      ensures mLeft == null && mRight == null && mParent == null
    {
      this.key := key;
      mLeft, mRight, mParent := null, null, null;
    }
  }

  datatype Tree<K> = Leaf | Fork(left: Tree<K>, node: Node<K>, right: Tree<K>)

  /** A tree with a hole, read from the hole outwards. */
  datatype Ctx<K> =
    | Top
    | OnLeft(node: Node<K>, right: Tree<K>, up: Ctx<K>)
    | OnRight(left: Tree<K>, node: Node<K>, up: Ctx<K>)

  ghost function Plug<K>(c: Ctx<K>, t: Tree<K>): Tree<K>
    decreases c
  {
    match c
    case Top => t
    case OnLeft(x, r, up) => Plug(up, Fork(t, x, r))
    case OnRight(l, x, up) => Plug(up, Fork(l, x, t))
  }

  ghost function Depth<K>(c: Ctx<K>): nat {
    if c.Top? then 0 else 1 + Depth(c.up)
  }

  ghost function ParentOf<K>(c: Ctx<K>): Node?<K> {
    if c.Top? then null else c.node
  }

  ghost function NodesOf<K>(t: Tree<K>): set<Node<K>> {
    match t
    case Leaf => {}
    case Fork(l, x, r) => NodesOf(l) + {x} + NodesOf(r)
  }

  ghost function CtxNodes<K>(c: Ctx<K>): set<Node<K>> {
    match c
    case Top => {}
    case OnLeft(x, r, up) => {x} + NodesOf(r) + CtxNodes(up)
    case OnRight(l, x, up) => {x} + NodesOf(l) + CtxNodes(up)
  }

  ghost function Inorder<K>(t: Tree<K>): seq<Node<K>> {
    match t
    case Leaf => []
    case Fork(l, x, r) => Inorder(l) + [x] + Inorder(r)
  }

  /** What comes before, and after, the hole in the in-order sequence. */
  ghost function Before<K>(c: Ctx<K>): seq<Node<K>> {
    match c
    case Top => []
    case OnLeft(_, _, up) => Before(up)
    case OnRight(l, x, up) => Before(up) + (Inorder(l) + [x])
  }

  ghost function After<K>(c: Ctx<K>): seq<Node<K>> {
    match c
    case Top => []
    case OnLeft(x, r, up) => ([x] + Inorder(r)) + After(up)
    case OnRight(_, _, up) => After(up)
  }

  lemma {:induction false} InorderPlug<K>(c: Ctx<K>, t: Tree<K>)
    ensures Inorder(Plug(c, t)) == Before(c) + Inorder(t) + After(c)
    decreases c
  {
    match c
    case Top =>
    case OnLeft(x, r, up) => InorderPlug(up, Fork(t, x, r));
    case OnRight(l, x, up) => InorderPlug(up, Fork(l, x, t));
  }

  lemma {:induction false} NodesPlug<K>(c: Ctx<K>, t: Tree<K>)
    ensures NodesOf(Plug(c, t)) == CtxNodes(c) + NodesOf(t)
    decreases c
  {
    match c
    case Top =>
    case OnLeft(x, r, up) => NodesPlug(up, Fork(t, x, r));
    case OnRight(l, x, up) => NodesPlug(up, Fork(l, x, t));
  }

  lemma {:induction false} InorderNodes<K>(t: Tree<K>)
    ensures forall n :: n in NodesOf(t) <==> n in Inorder(t)
  {
    match t
    case Leaf =>
    case Fork(l, x, r) => InorderNodes(l); InorderNodes(r);
  }

  // ----------------------------------------------------------- no node occurs twice

  ghost predicate Distinct<K>(t: Tree<K>) {
    match t
    case Leaf => true
    case Fork(l, x, r) =>
      Distinct(l) && Distinct(r) && x !in NodesOf(l) && x !in NodesOf(r) && NodesOf(l) !! NodesOf(r)
  }

  ghost predicate CtxDistinct<K>(c: Ctx<K>) {
    match c
    case Top => true
    case OnLeft(x, r, up) =>
      CtxDistinct(up) && Distinct(r) && x !in NodesOf(r) && x !in CtxNodes(up) && NodesOf(r) !! CtxNodes(up)
    case OnRight(l, x, up) =>
      CtxDistinct(up) && Distinct(l) && x !in NodesOf(l) && x !in CtxNodes(up) && NodesOf(l) !! CtxNodes(up)
  }

  ghost predicate Apart<K>(t: Tree<K>, c: Ctx<K>) {
    Distinct(t) && CtxDistinct(c) && NodesOf(t) !! CtxNodes(c)
  }

  lemma {:induction false} DistinctPlug<K>(c: Ctx<K>, t: Tree<K>)
    ensures Distinct(Plug(c, t)) <==> Apart(t, c)
    decreases c
  {
    match c
    case Top =>
    case OnLeft(x, r, up) => DistinctPlug(up, Fork(t, x, r));
    case OnRight(l, x, up) => DistinctPlug(up, Fork(l, x, t));
  }

  // ------------------------------------------------------------------ sortedness

  ghost predicate Sorted<K>(cmp: (K, K) -> int, s: seq<Node<K>>) {
    forall i, j :: 0 <= i < j < |s| ==> cmp(s[i].key, s[j].key) < 0
  }

  lemma SortedSplit<K>(cmp: (K, K) -> int, s: seq<Node<K>>, t: seq<Node<K>>)
    ensures Sorted(cmp, s + t) <==>
            Sorted(cmp, s) && Sorted(cmp, t) && forall x, y :: x in s && y in t ==> cmp(x.key, y.key) < 0
  {
    if Sorted(cmp, s + t) {
      forall i, j | 0 <= i < j < |s| ensures cmp(s[i].key, s[j].key) < 0 {
        assert (s + t)[i] == s[i] && (s + t)[j] == s[j];
      }
      forall i, j | 0 <= i < j < |t| ensures cmp(t[i].key, t[j].key) < 0 {
        assert (s + t)[|s| + i] == t[i] && (s + t)[|s| + j] == t[j];
      }
      forall x, y | x in s && y in t ensures cmp(x.key, y.key) < 0 {
        var i :| 0 <= i < |s| && s[i] == x;
        var j :| 0 <= j < |t| && t[j] == y;
        assert (s + t)[i] == x && (s + t)[|s| + j] == y;
      }
    }
  }

  ghost predicate Below<K>(cmp: (K, K) -> int, s: seq<Node<K>>, t: seq<Node<K>>) {
    forall x, y :: x in s && y in t ==> cmp(x.key, y.key) < 0
  }

  /** Sortedness of a fork, taken apart. */
  lemma SortedFork<K>(cmp: (K, K) -> int, l: Tree<K>, x: Node<K>, r: Tree<K>)
    ensures Sorted(cmp, Inorder(Fork(l, x, r))) <==>
            && Sorted(cmp, Inorder(l)) && Sorted(cmp, Inorder(r))
            && Below(cmp, Inorder(l), [x]) && Below(cmp, [x], Inorder(r)) && Below(cmp, Inorder(l), Inorder(r))
  {
    SortedSplit(cmp, Inorder(l) + [x], Inorder(r));
    SortedSplit(cmp, Inorder(l), [x]);
    assert forall n :: n in Inorder(l) + [x] <==> n in Inorder(l) || n in [x];
  }

  lemma BelowDisjoint<K(!new)>(cmp: (K, K) -> int, s: seq<Node<K>>, t: seq<Node<K>>)
    requires TotalOrder(cmp) && Below(cmp, s, t)
    ensures forall n | n in s :: n !in t
  {
    forall n | n in s ensures n !in t {
      SignsMirror(cmp, n.key, n.key);
    }
  }

  lemma {:induction false} SortedDistinct<K(!new)>(cmp: (K, K) -> int, t: Tree<K>)
    requires TotalOrder(cmp) && Sorted(cmp, Inorder(t))
    ensures Distinct(t)
  {
    match t
    case Leaf =>
    case Fork(l, x, r) =>
      SortedFork(cmp, l, x, r);
      SortedDistinct(cmp, l);
      SortedDistinct(cmp, r);
      SortedForkDisjoint(cmp, l, x, r);
  }

  lemma SortedForkDisjoint<K(!new)>(cmp: (K, K) -> int, l: Tree<K>, x: Node<K>, r: Tree<K>)
    requires TotalOrder(cmp)
    requires Below(cmp, Inorder(l), [x]) && Below(cmp, [x], Inorder(r)) && Below(cmp, Inorder(l), Inorder(r))
    ensures x !in NodesOf(l) && x !in NodesOf(r) && NodesOf(l) !! NodesOf(r)
  {
    InorderNodes(l);
    InorderNodes(r);
    BelowDisjoint(cmp, Inorder(l), [x]);
    BelowDisjoint(cmp, [x], Inorder(r));
    BelowDisjoint(cmp, Inorder(l), Inorder(r));
    assert x in [x];
  }

  // --------------------------------------------------------- links spell the shape

  /** The links below n spell t, and n hangs under p. */
  ghost predicate Linked<K>(t: Tree<K>, n: Node?<K>, p: Node?<K>)
    reads NodesOf(t)
  {
    match t
    case Leaf => n == null
    case Fork(l, x, r) =>
      n == x && x.mParent == p && Linked(l, x.mLeft, x) && Linked(r, x.mRight, x)
  }

  /** The links outside the hole spell c, with `hole` stored where the hole is. */
  ghost predicate CtxLinked<K>(c: Ctx<K>, hole: Node?<K>, root: Node?<K>)
    reads CtxNodes(c)
  {
    match c
    case Top => root == hole
    case OnLeft(x, r, up) =>
      x.mLeft == hole && x.mParent == ParentOf(up) && Linked(r, x.mRight, x) && CtxLinked(up, x, root)
    case OnRight(l, x, up) =>
      x.mRight == hole && x.mParent == ParentOf(up) && Linked(l, x.mLeft, x) && CtxLinked(up, x, root)
  }

  /** The downward half of Linked: children only, nothing about parents. */
  ghost predicate Down<K>(t: Tree<K>, n: Node?<K>)
    reads NodesOf(t)
  {
    match t
    case Leaf => n == null
    case Fork(l, x, r) => n == x && Down(l, x.mLeft) && Down(r, x.mRight)
  }

  ghost predicate Hangs<K>(t: Tree<K>, p: Node?<K>)
    reads NodesOf(t)
  {
    t.Fork? ==> t.node.mParent == p
  }

  /** The upward half, for the nodes strictly below the top of t. */
  ghost predicate Up<K>(t: Tree<K>)
    reads NodesOf(t)
  {
    match t
    case Leaf => true
    case Fork(l, x, r) => Hangs(l, x) && Hangs(r, x) && Up(l) && Up(r)
  }

  lemma {:induction false} LinkedHalves<K>(t: Tree<K>, n: Node?<K>, p: Node?<K>)
    ensures Linked(t, n, p) <==> Down(t, n) && Up(t) && Hangs(t, p)
  {
    match t
    case Leaf =>
    case Fork(l, x, r) =>
      LinkedHalves(l, x.mLeft, x);
      LinkedHalves(r, x.mRight, x);
  }

  lemma {:induction false} LinkedPlug<K>(c: Ctx<K>, t: Tree<K>, hole: Node?<K>, root: Node?<K>)
    requires Linked(t, hole, ParentOf(c)) && CtxLinked(c, hole, root)
    ensures Linked(Plug(c, t), root, null)
    decreases c
  {
    match c
    case Top =>
    case OnLeft(x, r, up) => LinkedPlug(up, Fork(t, x, r), x, root);
    case OnRight(l, x, up) => LinkedPlug(up, Fork(l, x, t), x, root);
  }

  /** The root of a linked context with a node above the hole is one of its nodes. */
  lemma {:induction false} RootInCtx<K>(c: Ctx<K>, hole: Node?<K>, root: Node?<K>)
    requires CtxLinked(c, hole, root) && c != Top
    ensures root != null && root in CtxNodes(c)
  {
    if c.up != Top { RootInCtx(c.up, c.node, root); }
  }

  // ---------------------------------------------------------------------- spines

  /** d, standing at the hole of base. */
  ghost function Within<K>(d: Ctx<K>, base: Ctx<K>): Ctx<K> {
    match d
    case Top => base
    case OnLeft(x, r, up) => OnLeft(x, r, Within(up, base))
    case OnRight(l, x, up) => OnRight(l, x, Within(up, base))
  }

  lemma {:induction false} PlugWithin<K>(d: Ctx<K>, base: Ctx<K>, t: Tree<K>)
    ensures Plug(Within(d, base), t) == Plug(base, Plug(d, t))
    decreases d
  {
    match d
    case Top =>
    case OnLeft(x, r, up) => PlugWithin(up, base, Fork(t, x, r));
    case OnRight(l, x, up) => PlugWithin(up, base, Fork(l, x, t));
  }

  lemma {:induction false} WithinNodes<K>(d: Ctx<K>, base: Ctx<K>)
    ensures CtxNodes(Within(d, base)) == CtxNodes(d) + CtxNodes(base)
  {
    if d != Top { WithinNodes(d.up, base); }
  }

  /** Only right turns: the hole is at the far right. */
  ghost predicate RightSpine<K>(d: Ctx<K>) {
    d.Top? || (d.OnRight? && RightSpine(d.up))
  }

  ghost predicate LeftSpine<K>(d: Ctx<K>) {
    d.Top? || (d.OnLeft? && LeftSpine(d.up))
  }

  lemma {:induction false} SpineSides<K>(d: Ctx<K>)
    ensures RightSpine(d) ==> After(d) == []
    ensures LeftSpine(d) ==> Before(d) == []
  {
    if d != Top { SpineSides(d.up); }
  }

  lemma {:induction false} NothingBefore<K>(c: Ctx<K>)
    ensures Before(c) == [] ==> LeftSpine(c)
    ensures After(c) == [] ==> RightSpine(c)
  {
    if c != Top { NothingBefore(c.up); }
  }

  lemma SpineOrder<K>(d: Ctx<K>, t: Tree<K>)
    ensures RightSpine(d) ==> Inorder(Plug(d, t)) == Before(d) + Inorder(t)
    ensures LeftSpine(d) ==> Inorder(Plug(d, t)) == Inorder(t) + After(d)
  {
    SpineSides(d);
    InorderPlug(d, t);
  }

  // ------------------------------------------------------------------- rotations

  /** The subtree that stands at the hole of c.up after n was rotated over its parent. */
  ghost function RotateUp<K>(a: Tree<K>, n: Node<K>, b: Tree<K>, c: Ctx<K>): Tree<K>
    requires c != Top
  {
    match c
    case OnLeft(x, r, _) => Fork(a, n, Fork(b, x, r))
    case OnRight(l, x, _) => Fork(Fork(l, x, a), n, b)
  }

  lemma Regroup<T>(a: seq<T>, n: T, b: seq<T>, x: T, r: seq<T>)
    ensures (a + [n] + b) + [x] + r == a + [n] + (b + [x] + r)
  {
  }

  /** A rotation keeps the in-order sequence and the node set. */
  lemma RotateKeepsOrder<K>(a: Tree<K>, n: Node<K>, b: Tree<K>, c: Ctx<K>)
    requires c != Top
    ensures Inorder(Plug(c.up, RotateUp(a, n, b, c))) == Inorder(Plug(c, Fork(a, n, b)))
  {
    match c
    case OnLeft(x, r, up) =>
      Regroup(Inorder(a), n, Inorder(b), x, Inorder(r));
      PlugSameOrder(up, Fork(Fork(a, n, b), x, r), Fork(a, n, Fork(b, x, r)));
    case OnRight(l, x, up) =>
      Regroup(Inorder(l), x, Inorder(a), n, Inorder(b));
      PlugSameOrder(up, Fork(l, x, Fork(a, n, b)), Fork(Fork(l, x, a), n, b));
  }

  lemma PlugSameOrder<K>(c: Ctx<K>, t: Tree<K>, u: Tree<K>)
    requires Inorder(t) == Inorder(u)
    ensures Inorder(Plug(c, t)) == Inorder(Plug(c, u))
  {
    InorderPlug(c, t);
    InorderPlug(c, u);
  }

  lemma RotateKeepsNodes<K>(a: Tree<K>, n: Node<K>, b: Tree<K>, c: Ctx<K>)
    requires c != Top
    ensures NodesOf(RotateUp(a, n, b, c)) + CtxNodes(c.up) == NodesOf(Fork(a, n, b)) + CtxNodes(c)
    ensures Apart(Fork(a, n, b), c) ==> Apart(RotateUp(a, n, b, c), c.up)
  {
  }

  // -------------------------------------------------------------------- splaying

  /** The context of n after its parent was rotated over its grandparent, on the same side. */
  ghost function ParentUp<K>(c: Ctx<K>): Ctx<K>
    requires c != Top && c.up != Top && c.OnLeft? == c.up.OnLeft?
  {
    if c.OnLeft? then OnLeft(c.node, Fork(c.right, c.up.node, c.up.right), c.up.up)
    else OnRight(Fork(c.up.left, c.up.node, c.left), c.node, c.up.up)
  }

  /** One round of splay's loop: the subtree n is the root of afterwards, and where that stands. */
  ghost function StepUp<K>(a: Tree<K>, n: Node<K>, b: Tree<K>, c: Ctx<K>): (t: Tree<K>)
    requires c != Top
    ensures t.Fork? && t.node == n
  {
    if c.up == Top then RotateUp(a, n, b, c)
    else if c.OnLeft? == c.up.OnLeft? then RotateUp(a, n, b, ParentUp(c))
    else
      var t := RotateUp(a, n, b, c);
      RotateUp(t.left, n, t.right, c.up)
  }

  ghost function StepCtx<K>(c: Ctx<K>): (d: Ctx<K>)
    requires c != Top
    ensures Depth(d) < Depth(c)
  {
    if c.up == Top then Top else c.up.up
  }

  /** What splaying n makes of the tree. */
  ghost function SplayUp<K>(a: Tree<K>, n: Node<K>, b: Tree<K>, c: Ctx<K>): (t: Tree<K>)
    ensures t.Fork? && t.node == n
    decreases Depth(c)
  {
    if c == Top then Fork(a, n, b)
    else
      var t := StepUp(a, n, b, c);
      SplayUp(t.left, n, t.right, StepCtx(c))
  }

  // ------------------------------------------------------------------- potential

  ghost function Size<K>(t: Tree<K>): nat {
    if t.Leaf? then 0 else Size(t.left) + 1 + Size(t.right)
  }

  ghost function CtxSize<K>(c: Ctx<K>): nat {
    match c
    case Top => 0
    case OnLeft(_, r, up) => 1 + Size(r) + CtxSize(up)
    case OnRight(l, _, up) => 1 + Size(l) + CtxSize(up)
  }

  /** The whole part of the binary logarithm. */
  ghost function Log2(n: nat): nat {
    if n < 2 then 0 else 1 + Log2(n / 2)
  }

  lemma {:induction false} Log2Bounds(n: nat)
    requires n > 0
    ensures PowersOfTwo.Pow2(Log2(n)) <= n < 2 * PowersOfTwo.Pow2(Log2(n))
  {
    if n >= 2 {
      Log2Bounds(n / 2);
    }
  }

  lemma {:induction false} Log2Grows(m: nat, n: nat)
    requires m <= n
    ensures Log2(m) <= Log2(n)
  {
    if m >= 2 {
      Log2Grows(m / 2, n / 2);
    }
  }

  /** Two sizes with the same logarithm add up to one with a greater one. */
  lemma {:induction false} Log2Doubles(m: nat, n: nat)
    requires m > 0 && n > 0
    ensures Log2(m) == Log2(n) ==> Log2(m + n) >= Log2(m) + 1
  {
    if m < 2 || n < 2 {
      Log2Grows(m, m + n);
      Log2Grows(n, m + n);
    } else {
      Log2Doubles(m / 2, n / 2);
      Log2Grows(m / 2 + n / 2, (m + n) / 2);
    }
  }

  ghost function Rank<K>(t: Tree<K>): nat {
    Log2(Size(t))
  }

  /** The sum of the ranks of all subtrees. */
  ghost function Potential<K>(t: Tree<K>): nat {
    if t.Leaf? then 0 else Potential(t.left) + Potential(t.right) + Rank(t)
  }

  lemma PotentialFork<K>(t: Tree<K>)
    requires t.Fork?
    ensures Potential(t) == Potential(t.left) + Potential(t.right) + Rank(t)
  {
  }

  /** What the context adds to it, if there is a tree of size s in its hole. */
  ghost function CtxPotential<K>(c: Ctx<K>, s: nat): nat
    decreases c
  {
    match c
    case Top => 0
    case OnLeft(_, r, up) => Log2(s + 1 + Size(r)) + Potential(r) + CtxPotential(up, s + 1 + Size(r))
    case OnRight(l, _, up) => Log2(s + 1 + Size(l)) + Potential(l) + CtxPotential(up, s + 1 + Size(l))
  }

  lemma {:induction false} PotentialPlug<K>(c: Ctx<K>, t: Tree<K>)
    ensures Size(Plug(c, t)) == CtxSize(c) + Size(t)
    ensures Potential(Plug(c, t)) == CtxPotential(c, Size(t)) + Potential(t)
    decreases c
  {
    hide Log2;
    match c
    case Top =>
    case OnLeft(x, r, up) =>
      PotentialFork(Fork(t, x, r));
      PotentialPlug(up, Fork(t, x, r));
    case OnRight(l, x, up) =>
      PotentialFork(Fork(l, x, t));
      PotentialPlug(up, Fork(l, x, t));
  }

  /** The subtree that n is lifted to the root of in one round. */
  ghost function StepRange<K>(t: Tree<K>, c: Ctx<K>): Tree<K>
    requires c != Top
  {
    var u := if c.OnLeft? then Fork(t, c.node, c.right) else Fork(c.left, c.node, t);
    if c.up == Top then u
    else if c.up.OnLeft? then Fork(u, c.up.node, c.up.right) else Fork(c.up.left, c.up.node, u)
  }

  lemma RangePlugs<K>(t: Tree<K>, c: Ctx<K>)
    requires c != Top
    ensures Plug(c, t) == Plug(StepCtx(c), StepRange(t, c))
  {
  }

  /** The ranks of the three nodes of a round, before it and after it. Either n gains rank, or the
      potential goes down. */
  lemma RanksPay(n: nat, p: nat, g: nat, p': nat, g': nat)
    requires 0 < n < p < g && 0 < p' < g && 0 < g' < g && (n + g' <= g || p' + g' <= g)
    ensures Log2(n) <= Log2(g)
    ensures 1 + Log2(p') + Log2(g') <= Log2(n) + Log2(p) + 3 * (Log2(g) - Log2(n))
  {
    Log2Grows(n, p);
    Log2Grows(p, g);
    Log2Grows(p', g);
    Log2Grows(g', g);
    if Log2(n) == Log2(g) {
      NotBoth(n, p', g', g);
    }
  }

  /** Not all of them can have the rank of the whole. */
  lemma NotBoth(n: nat, p': nat, g': nat, g: nat)
    requires 0 < n && 0 < p' && 0 < g' && (n + g' <= g || p' + g' <= g) && Log2(n) == Log2(g)
    ensures Log2(p') != Log2(g) || Log2(g') != Log2(g)
  {
    hide Log2;
    if n + g' <= g {
      Log2Doubles(n, g');
      Log2Grows(n + g', g);
    } else {
      Log2Doubles(p', g');
      Log2Grows(p' + g', g);
    }
  }

  /** What a round of two rotations does: t is n's subtree before it, u the range of the round, and t'
      what stands there afterwards. */
  ghost predicate Pays<K>(t: Tree<K>, u: Tree<K>, t': Tree<K>) {
    Size(t') == Size(u) && Rank(t) <= Rank(t') && 1 + Potential(t') <= Potential(u) + 3 * (Rank(t') - Rank(t))
  }

  /** The four kinds of round of two rotations: t hangs under p, and p under g. */
  lemma ZigZigLeft<K>(a: Tree<K>, n: Node<K>, b: Tree<K>, x: Node<K>, r: Tree<K>, g: Node<K>, s: Tree<K>)
    ensures var t := Fork(a, n, b); Pays(t, Fork(Fork(t, x, r), g, s), Fork(a, n, Fork(b, x, Fork(r, g, s))))
  {
    var t := Fork(a, n, b);
    var p := Fork(t, x, r);
    var u := Fork(p, g, s);
    var g' := Fork(r, g, s);
    var p' := Fork(b, x, g');
    var t' := Fork(a, n, p');
    RanksPay(Size(t), Size(p), Size(u), Size(p'), Size(g'));
    PotentialFork(t);
    PotentialFork(p);
    PotentialFork(u);
    PotentialFork(p');
    PotentialFork(g');
    PotentialFork(t');
  }

  lemma ZigZigRight<K>(a: Tree<K>, n: Node<K>, b: Tree<K>, l: Tree<K>, x: Node<K>, s: Tree<K>, g: Node<K>)
    ensures var t := Fork(a, n, b); Pays(t, Fork(s, g, Fork(l, x, t)), Fork(Fork(Fork(s, g, l), x, a), n, b))
  {
    var t := Fork(a, n, b);
    var p := Fork(l, x, t);
    var u := Fork(s, g, p);
    var g' := Fork(s, g, l);
    var p' := Fork(g', x, a);
    var t' := Fork(p', n, b);
    RanksPay(Size(t), Size(p), Size(u), Size(p'), Size(g'));
    PotentialFork(t);
    PotentialFork(p);
    PotentialFork(u);
    PotentialFork(p');
    PotentialFork(g');
    PotentialFork(t');
  }

  lemma ZigZagLeft<K>(a: Tree<K>, n: Node<K>, b: Tree<K>, x: Node<K>, r: Tree<K>, l: Tree<K>, g: Node<K>)
    ensures var t := Fork(a, n, b); Pays(t, Fork(l, g, Fork(t, x, r)), Fork(Fork(l, g, a), n, Fork(b, x, r)))
  {
    var t := Fork(a, n, b);
    var p := Fork(t, x, r);
    var u := Fork(l, g, p);
    var p' := Fork(b, x, r);
    var g' := Fork(l, g, a);
    var t' := Fork(g', n, p');
    RanksPay(Size(t), Size(p), Size(u), Size(p'), Size(g'));
    PotentialFork(t);
    PotentialFork(p);
    PotentialFork(u);
    PotentialFork(p');
    PotentialFork(g');
    PotentialFork(t');
  }

  lemma ZigZagRight<K>(a: Tree<K>, n: Node<K>, b: Tree<K>, l: Tree<K>, x: Node<K>, g: Node<K>, r: Tree<K>)
    ensures var t := Fork(a, n, b); Pays(t, Fork(Fork(l, x, t), g, r), Fork(Fork(l, x, a), n, Fork(b, g, r)))
  {
    var t := Fork(a, n, b);
    var p := Fork(l, x, t);
    var u := Fork(p, g, r);
    var p' := Fork(l, x, a);
    var g' := Fork(b, g, r);
    var t' := Fork(p', n, g');
    RanksPay(Size(t), Size(p), Size(u), Size(p'), Size(g'));
    PotentialFork(t);
    PotentialFork(p);
    PotentialFork(u);
    PotentialFork(p');
    PotentialFork(g');
    PotentialFork(t');
  }

  lemma ZigPays<K>(a: Tree<K>, n: Node<K>, b: Tree<K>, c: Ctx<K>)
    requires c != Top && c.up == Top
    ensures var t, u, t' := Fork(a, n, b), StepRange(Fork(a, n, b), c), StepUp(a, n, b, c);
            Size(t') == Size(u) && Rank(t) <= Rank(t') && Potential(t') <= Potential(u) + (Rank(t') - Rank(t))
  {
    var t, u, t' := Fork(a, n, b), StepRange(Fork(a, n, b), c), StepUp(a, n, b, c);
    var x := if c.OnLeft? then t'.right else t'.left;
    assert Size(t') == Size(u) && Size(t) < Size(u) && Size(x) < Size(t');
    hide Log2;
    Log2Grows(Size(t), Size(u));
    Log2Grows(Size(x), Size(t'));
  }

  /** One round is paid for by what it takes off the potential, and by the rank that n gains. */
  lemma StepPays<K>(a: Tree<K>, n: Node<K>, b: Tree<K>, c: Ctx<K>)
    requires c != Top && c.up != Top
    ensures Pays(Fork(a, n, b), StepRange(Fork(a, n, b), c), StepUp(a, n, b, c))
  {
    hide Pays;
    match c
    case OnLeft(x, r, OnLeft(g, s, _)) => ZigZigLeft(a, n, b, x, r, g, s);
    case OnRight(l, x, OnRight(s, g, _)) => ZigZigRight(a, n, b, l, x, s, g);
    case OnLeft(x, r, OnRight(l, g, _)) => ZigZagLeft(a, n, b, x, r, l, g);
    case OnRight(l, x, OnLeft(g, r, _)) => ZigZagRight(a, n, b, l, x, g, r);
  }

  /** The access lemma. The number of rotations that lift n to the root is bounded by six times the rank
      that it gains, and by twice what they take off the potential. */
  lemma {:induction false} SplayPays<K>(a: Tree<K>, n: Node<K>, b: Tree<K>, c: Ctx<K>)
    ensures var t, u, t' := Fork(a, n, b), Plug(c, Fork(a, n, b)), SplayUp(a, n, b, c);
            && Size(t') == Size(u) && Rank(t) <= Rank(u)
            && Depth(c) + 2 * Potential(t') <= 2 * Potential(u) + 6 * (Rank(u) - Rank(t)) + 1
    decreases Depth(c)
  {
    if c != Top {
      var t, t' := Fork(a, n, b), StepUp(a, n, b, c);
      if c.up == Top {
        ZigPays(a, n, b, c);
      } else {
        StepPays(a, n, b, c);
      }
      RangePlugs(t, c);
      PotentialPlug(StepCtx(c), t');
      PotentialPlug(StepCtx(c), StepRange(t, c));
      SplayPays(t'.left, n, t'.right, StepCtx(c));
    }
  }

  /** A new leaf adds no more than one rank to the potential. */
  lemma {:induction false} GrowthPays<K>(c: Ctx<K>, s: nat)
    ensures CtxPotential(c, s + 1) + Log2(s + 1) <= CtxPotential(c, s) + Log2(s + 1 + CtxSize(c))
    decreases c
  {
    hide Log2;
    hide Potential;
    match c
    case Top =>
    case OnLeft(_, r, up) =>
      GrowthPays(up, s + 1 + Size(r));
      Log2Grows(s + 1, s + 1 + Size(r));
    case OnRight(l, _, up) =>
      GrowthPays(up, s + 1 + Size(l));
      Log2Grows(s + 1, s + 1 + Size(l));
  }

  lemma LeafPays<K>(c: Ctx<K>, n: Node<K>)
    ensures Size(Plug(c, Fork(Leaf, n, Leaf))) == Size(Plug(c, Leaf)) + 1
    ensures Potential(Plug(c, Fork(Leaf, n, Leaf))) <= Potential(Plug(c, Leaf)) + Rank(Plug(c, Fork(Leaf, n, Leaf)))
  {
    GrowthPays(c, 0);
    PotentialPlug(c, Leaf);
    PotentialPlug(c, Fork(Leaf, n, Leaf));
  }

  lemma {:induction false} SizeIsLength<K>(t: Tree<K>)
    ensures Size(t) == |Inorder(t)|
  {
    if t.Fork? {
      SizeIsLength(t.left);
      SizeIsLength(t.right);
    }
  }

  /** What an operation costs, in nodes visited and in rotations, is what the potential goes down by, four
      times, and something in proportion to the logarithm of the number of elements. */
  ghost predicate Affordable<K>(cost: nat, was: Tree<K>, now: Tree<K>, n: nat) {
    cost + 4 * Potential(now) <= 4 * Potential(was) + 16 * Log2(n) + 3
  }

  /** Looking up a node and splaying it. */
  lemma AccessPays<K>(a: Tree<K>, n: Node<K>, b: Tree<K>, c: Ctx<K>)
    ensures var t := Plug(c, Fork(a, n, b)); Affordable(2 * Depth(c) + 1, t, SplayUp(a, n, b, c), Size(t))
  {
    SplayPays(a, n, b, c);
  }

  /** Looking up the place of a new node, and splaying that. */
  lemma InsertionPays<K>(c: Ctx<K>, n: Node<K>)
    ensures Size(SplayUp(Leaf, n, Leaf, c)) == Size(Plug(c, Leaf)) + 1
    ensures Affordable(2 * Depth(c), Plug(c, Leaf), SplayUp(Leaf, n, Leaf, c), Size(Plug(c, Leaf)) + 1)
  {
    SplayPays(Leaf, n, Leaf, c);
    LeafPays(c, n);
  }

  // ------------------------------------------------------------- taking out a node

  /** The number of nodes on the way to the least one. */
  ghost function LeftLength<K>(t: Tree<K>): nat {
    if t.Leaf? then 0 else 1 + LeftLength(t.left)
  }

  ghost function RightLength<K>(t: Tree<K>): nat {
    if t.Leaf? then 0 else 1 + RightLength(t.right)
  }

  ghost function Least<K>(t: Tree<K>): Node<K>
    requires t.Fork?
  {
    if t.left.Leaf? then t.node else Least(t.left)
  }

  ghost function WithoutLeast<K>(t: Tree<K>): Tree<K>
    requires t.Fork?
  {
    if t.left.Leaf? then t.right else Fork(WithoutLeast(t.left), t.node, t.right)
  }

  ghost function Greatest<K>(t: Tree<K>): Node<K>
    requires t.Fork?
  {
    if t.right.Leaf? then t.node else Greatest(t.right)
  }

  ghost function WithoutGreatest<K>(t: Tree<K>): Tree<K>
    requires t.Fork?
  {
    if t.right.Leaf? then t.left else Fork(t.left, t.node, WithoutGreatest(t.right))
  }

  lemma {:induction false} LeastPlug<K>(d: Ctx<K>, t: Tree<K>)
    requires LeftSpine(d)
    ensures LeftLength(Plug(d, t)) == Depth(d) + LeftLength(t)
    ensures t.Fork? ==> Plug(d, t).Fork? && Least(Plug(d, t)) == Least(t) && WithoutLeast(Plug(d, t)) == Plug(d, WithoutLeast(t))
    decreases d
  {
    if d != Top {
      LeastPlug(d.up, Fork(t, d.node, d.right));
    }
  }

  lemma {:induction false} GreatestPlug<K>(d: Ctx<K>, t: Tree<K>)
    requires RightSpine(d)
    ensures RightLength(Plug(d, t)) == Depth(d) + RightLength(t)
    ensures t.Fork? ==> Plug(d, t).Fork? && Greatest(Plug(d, t)) == Greatest(t)
                        && WithoutGreatest(Plug(d, t)) == Plug(d, WithoutGreatest(t))
    decreases d
  {
    if d != Top {
      GreatestPlug(d.up, Fork(d.left, d.node, t));
    }
  }

  lemma {:induction false} WithoutPays<K>(t: Tree<K>)
    requires t.Fork?
    ensures Size(WithoutLeast(t)) == Size(t) - 1 && Potential(WithoutLeast(t)) <= Potential(t)
    ensures Size(WithoutGreatest(t)) == Size(t) - 1 && Potential(WithoutGreatest(t)) <= Potential(t)
  {
    Log2Grows(Size(t) - 1, Size(t));
    if t.left.Fork? {
      WithoutPays(t.left);
    }
    if t.right.Fork? {
      WithoutPays(t.right);
    }
  }

  /** What is left when the root goes: a neighbour of it from the left subtree takes its place or, failing
      that, one from the right. */
  ghost function WithoutRoot<K>(t: Tree<K>): Tree<K>
    requires t.Fork?
  {
    if t.left.Fork? then Fork(WithoutGreatest(t.left), Greatest(t.left), t.right)
    else if t.right.Fork? then Fork(Leaf, Least(t.right), WithoutLeast(t.right))
    else Leaf
  }

  /** How many nodes are visited on the way to the neighbour. */
  ghost function Walk<K>(t: Tree<K>): nat
    requires t.Fork?
  {
    if t.left.Fork? then RightLength(t.left) else LeftLength(t.right)
  }

  lemma WithoutRootPays<K>(t: Tree<K>)
    requires t.Fork?
    ensures Size(WithoutRoot(t)) == Size(t) - 1 && Potential(WithoutRoot(t)) <= Potential(t)
  {
    Log2Grows(Size(t) - 1, Size(t));
    if t.left.Fork? {
      WithoutPays(t.left);
    } else if t.right.Fork? {
      WithoutPays(t.right);
    }
  }

  /** The first element in order is at the end of the left spine. */
  lemma FirstPlace<K(!new)>(cmp: (K, K) -> int, a: Tree<K>, r: Node<K>, b: Tree<K>, c: Ctx<K>)
    requires TotalOrder(cmp) && Sorted(cmp, Inorder(Plug(c, Fork(a, r, b))))
    requires Inorder(Plug(c, Fork(a, r, b))) != [] && Inorder(Plug(c, Fork(a, r, b)))[0] == r
    ensures a == Leaf && LeftSpine(c) && LeftLength(Plug(c, Fork(a, r, b))) == Depth(c) + 1
  {
    var s, k := Inorder(Plug(c, Fork(a, r, b))), |Before(c)| + |Inorder(a)|;
    InorderPlug(c, Fork(a, r, b));
    assert s[k] == r && s[0] == r;
    SignsMirror(cmp, r.key, r.key);
    assert k == 0;
    NothingBefore(c);
    LeastPlug(c, Fork(a, r, b));
  }

  // -------------------------------------------------------------------- the tree

  class SplayTree<K(!new)> {
    const compare: (K, K) -> int
    var mRoot: Node?<K>
    ghost var shape: Tree<K>

    ghost predicate Valid()
      reads this, NodesOf(shape)
    {
      && TotalOrder(compare)
      && Linked(shape, mRoot, null)
      && Sorted(compare, Inorder(shape))
    }

    /** The elements in ascending order. */
    ghost function Elements(): seq<Node<K>>
      reads this
    {
      Inorder(shape)
    }

    ghost function Nodes(): set<Node<K>>
      reads this
    {
      NodesOf(shape)
    }

    constructor (compare: (K, K) -> int)
      requires TotalOrder(compare)
      ensures Valid() && Elements() == [] && shape == Leaf && this.compare == compare
    {
      this.compare := compare;
      mRoot := null;
      shape := Leaf;
    }

    /** The recurring `if (child) child->mParent = parent`. */
    static method SetParent(child: Node?<K>, parent: Node<K>, ghost t: Tree<K>, ghost was: Node<K>)
      requires Linked(t, child, was) && Distinct(t)
      modifies child
      ensures Linked(t, child, parent)
      ensures child != null ==> child.mLeft == old(child.mLeft) && child.mRight == old(child.mRight)
    {
      if child != null {
        child.mParent := parent;
      }
    }

    /** Stores `now` where p (or mRoot, for no p) stored `was`: the last step of rotate. */
    method ReplaceChild(p: Node?<K>, was: Node<K>, now: Node<K>, ghost c: Ctx<K>)
      requires p == ParentOf(c) && CtxDistinct(c) && CtxLinked(c, was, mRoot) && was !in CtxNodes(c)
      modifies this`mRoot, p
      ensures CtxLinked(c, now, mRoot)
      ensures p != null ==> p.mParent == old(p.mParent) && mRoot == old(mRoot)
    {
      if p != null {
        if p.mLeft == was {
          p.mLeft := now;
        } else {
          p.mRight := now;
        }
      } else {
        mRoot := now;
      }
    }

    /** rotate's first arm: n, the left child of x, takes x as its right child. */
    static method RotateRight(n: Node<K>, x: Node<K>, ghost a: Tree<K>, ghost b: Tree<K>, ghost r: Tree<K>)
      requires Distinct(Fork(Fork(a, n, b), x, r)) && Linked(Fork(Fork(a, n, b), x, r), x, x.mParent)
      modifies NodesOf(b) + {n, x}
      ensures Linked(Fork(a, n, Fork(b, x, r)), n, old(x.mParent))
    {
      assert allocated(NodesOf(a)) && allocated(NodesOf(r)) && allocated(NodesOf(b));
      assert Linked(b, n.mRight, n);
      assert n.mRight != null ==> n.mRight in NodesOf(b);
      x.mLeft := n.mRight;
      SetParent(n.mRight, x, b, n);
      n.mRight := x;
      n.mParent := x.mParent;
      x.mParent := n;
    }

    /** rotate's second arm: n, the right child of x, takes x as its left child. */
    static method RotateLeft(n: Node<K>, x: Node<K>, ghost l: Tree<K>, ghost a: Tree<K>, ghost b: Tree<K>)
      requires Distinct(Fork(l, x, Fork(a, n, b))) && Linked(Fork(l, x, Fork(a, n, b)), x, x.mParent)
      modifies NodesOf(a) + {n, x}
      ensures Linked(Fork(Fork(l, x, a), n, b), n, old(x.mParent))
    {
      assert allocated(NodesOf(a)) && allocated(NodesOf(l)) && allocated(NodesOf(b));
      assert Linked(a, n.mLeft, n);
      assert n.mLeft != null ==> n.mLeft in NodesOf(a);
      x.mRight := n.mLeft;
      SetParent(n.mLeft, x, a, n);
      n.mLeft := x;
      n.mParent := x.mParent;
      x.mParent := n;
    }

    /** The links spell n, with subtrees a and b, at the hole of c. */
    ghost predicate Focused(n: Node<K>, a: Tree<K>, b: Tree<K>, c: Ctx<K>)
      reads this`mRoot, NodesOf(Fork(a, n, b)) + CtxNodes(c)
    {
      Apart(Fork(a, n, b), c) && Linked(Fork(a, n, b), n, ParentOf(c)) && CtxLinked(c, n, mRoot)
    }

    /** The same position seen from the node above the hole. */
    ghost predicate FocusedAbove(n: Node<K>, a: Tree<K>, b: Tree<K>, c: Ctx<K>)
      requires c != Top
      reads this`mRoot, NodesOf(Fork(a, n, b)) + CtxNodes(c)
    {
      if c.OnLeft? then Focused(c.node, Fork(a, n, b), c.right, c.up)
      else Focused(c.node, c.left, Fork(a, n, b), c.up)
    }

    lemma FocusShift(n: Node<K>, a: Tree<K>, b: Tree<K>, c: Ctx<K>)
      requires c != Top
      ensures Focused(n, a, b, c) <==> FocusedAbove(n, a, b, c)
    {
      var t := Fork(a, n, b);
      var u := if c.OnLeft? then Fork(t, c.node, c.right) else Fork(c.left, c.node, t);
      assert Apart(t, c) <==> Apart(u, c.up);
      assert Linked(t, n, c.node) && CtxLinked(c, n, mRoot)
        <==> Linked(u, c.node, ParentOf(c.up)) && CtxLinked(c.up, c.node, mRoot);
    }

    /** What the links of the node above the hole look like. */
    lemma FocusParent(n: Node<K>, a: Tree<K>, b: Tree<K>, c: Ctx<K>)
      requires c != Top && Focused(n, a, b, c)
      ensures n.mParent == c.node && (c.OnLeft? <==> c.node.mLeft == n)
      ensures mRoot == c.node <==> c.up == Top
    {
      assert CtxLinked(c.up, c.node, mRoot);
      if c.up != Top { RootInCtx(c.up, c.node, mRoot); }
      if c.OnRight? { assert Linked(c.left, c.node.mLeft, c.node); }
    }

    lemma FocusGrandparent(n: Node<K>, a: Tree<K>, b: Tree<K>, c: Ctx<K>)
      requires c != Top && c.up != Top && Focused(n, a, b, c)
      ensures c.node.mParent == c.up.node && (c.up.OnLeft? <==> c.up.node.mLeft == c.node)
    {
      FocusShift(n, a, b, c);
      if c.OnLeft? {
        FocusParent(c.node, Fork(a, n, b), c.right, c.up);
      } else {
        FocusParent(c.node, c.left, Fork(a, n, b), c.up);
      }
    }

    lemma FocusRoot(n: Node<K>, a: Tree<K>, b: Tree<K>, c: Ctx<K>)
      requires Focused(n, a, b, c)
      ensures mRoot == n <==> c == Top
    {
      if c != Top { RootInCtx(c, n, mRoot); }
    }

    static ghost function Order(n: Node<K>, a: Tree<K>, b: Tree<K>, c: Ctx<K>): seq<Node<K>> {
      Inorder(Plug(c, Fork(a, n, b)))
    }

    static ghost function Cover(n: Node<K>, a: Tree<K>, b: Tree<K>, c: Ctx<K>): set<Node<K>> {
      NodesOf(Fork(a, n, b)) + CtxNodes(c)
    }

    /** One rotation, at the node n that fills the hole of c: n rises by one level,
        the order of the elements and all link invariants stay. */
    method Rotate(n: Node<K>, ghost a: Tree<K>, ghost b: Tree<K>, ghost c: Ctx<K>)
      returns (ghost a': Tree<K>, ghost b': Tree<K>, ghost turns: nat)
      requires c != Top && Focused(n, a, b, c)
      modifies this`mRoot, Cover(n, a, b, c)
      ensures Fork(a', n, b') == RotateUp(a, n, b, c)
      ensures Focused(n, a', b', c.up) && turns == 1
      ensures Order(n, a', b', c.up) == Order(n, a, b, c) && Cover(n, a', b', c.up) == Cover(n, a, b, c)
    {
      hide Inorder;
      hide Before;
      hide After;
      RotateKeepsOrder(a, n, b, c);
      RotateKeepsNodes(a, n, b, c);
      assert allocated(CtxNodes(c.up));
      a', b' := RotateUp(a, n, b, c).left, RotateUp(a, n, b, c).right;
      var parent := n.mParent;
      if parent.mLeft == n {
        assert c.OnLeft?;
        RotateRight(n, parent, a, b, c.right);
      } else {
        assert c.OnRight?;
        RotateLeft(n, parent, c.left, a, b);
      }
      assert CtxLinked(c.up, parent, mRoot);
      assert allocated(NodesOf(RotateUp(a, n, b, c)));
      ReplaceChild(n.mParent, parent, n, c.up);
      turns := 1;
    }

    /** The first half of a zig-zig step: the parent of n rises, and n with it. */
    method RotateParent(n: Node<K>, ghost a: Tree<K>, ghost b: Tree<K>, ghost c: Ctx<K>)
      returns (ghost c': Ctx<K>, ghost turns: nat)
      requires c != Top && c.up != Top && Focused(n, a, b, c) && c.OnLeft? == c.up.OnLeft?
      modifies this`mRoot, Cover(n, a, b, c)
      ensures Focused(n, a, b, c') && Depth(c') == Depth(c) - turns && turns == 1
      ensures c' == ParentUp(c)
      ensures Order(n, a, b, c') == Order(n, a, b, c) && Cover(n, a, b, c') == Cover(n, a, b, c)
    {
      FocusParent(n, a, b, c);
      FocusShift(n, a, b, c);
      ghost var l, r := if c.OnLeft? then Fork(a, n, b) else c.left, if c.OnLeft? then c.right else Fork(a, n, b);
      l, r, turns := Rotate(n.mParent, l, r, c.up);
      c' := if c.OnLeft? then OnLeft(c.node, r, c.up.up) else OnRight(l, c.node, c.up.up);
      FocusShift(n, a, b, c');
    }

    /** One round of splay's loop: zig, zig-zig or zig-zag. */
    method SplayStep(n: Node<K>, ghost a: Tree<K>, ghost b: Tree<K>, ghost c: Ctx<K>)
      returns (ghost a': Tree<K>, ghost b': Tree<K>, ghost c': Ctx<K>, ghost turns: nat)
      requires c != Top && Focused(n, a, b, c)
      modifies this`mRoot, Cover(n, a, b, c)
      ensures Focused(n, a', b', c')
      ensures Fork(a', n, b') == StepUp(a, n, b, c) && c' == StepCtx(c)
      ensures Depth(c') == Depth(c) - turns && turns == if c.up == Top then 1 else 2
      ensures Order(n, a', b', c') == Order(n, a, b, c) && Cover(n, a', b', c') == Cover(n, a, b, c)
    {
      FocusParent(n, a, b, c);
      var parent := n.mParent;
      if parent == mRoot {
        a', b', turns := Rotate(n, a, b, c);
        c' := c.up;
        return;
      }
      var grandparent := parent.mParent;
      FocusGrandparent(n, a, b, c);
      if (parent.mLeft == n) == (grandparent.mLeft == parent) {
        ghost var more;
        c', turns := RotateParent(n, a, b, c);
        a', b', more := Rotate(n, a, b, c');
        c', turns := c'.up, turns + more;
      } else {
        ghost var more;
        a', b', turns := Rotate(n, a, b, c);
        a', b', more := Rotate(n, a', b', c.up);
        c', turns := c.up.up, turns + more;
      }
    }

    /** Rotates n to the root; it takes exactly as many rotations as n is deep. */
    method Splay(n: Node<K>, ghost a0: Tree<K>, ghost b0: Tree<K>, ghost c0: Ctx<K>)
      returns (ghost rotations: nat)
      requires TotalOrder(compare) && Sorted(compare, Elements())
      requires shape == Plug(c0, Fork(a0, n, b0)) && Focused(n, a0, b0, c0)
      modifies this`mRoot, this`shape, Nodes()
      ensures Valid() && Elements() == old(Elements()) && Nodes() == old(Nodes())
      ensures mRoot == n && rotations == Depth(c0)
      ensures shape == SplayUp(a0, n, b0, c0)
    {
      ghost var a, b, c := a0, b0, c0;
      rotations := 0;
      NodesPlug(c, Fork(a, n, b));
      while n != mRoot
        invariant Focused(n, a, b, c)
        invariant Order(n, a, b, c) == old(Elements()) && Cover(n, a, b, c) == old(Nodes())
        invariant rotations + Depth(c) == Depth(c0) && SplayUp(a, n, b, c) == SplayUp(a0, n, b0, c0)
        decreases Depth(c)
      {
        FocusRoot(n, a, b, c);
        ghost var turns;
        a, b, c, turns := SplayStep(n, a, b, c);
        rotations := rotations + turns;
      }
      FocusRoot(n, a, b, c);
      shape := Fork(a, n, b);
    }

    /** Descends to the node equal to v or, failing that, to a neighbour of the gap where v would go. */
    method Lookup(v: K)
      returns (node: Node<K>, ghost a: Tree<K>, ghost b: Tree<K>, ghost c: Ctx<K>, ghost visits: nat)
      requires Valid() && mRoot != null
      ensures Valid()
      ensures shape == Plug(c, Fork(a, node, b)) && Focused(node, a, b, c)
      ensures compare(v, node.key) < 0 ==> a == Leaf
      ensures compare(v, node.key) > 0 ==> b == Leaf
      ensures Above(v, Before(c)) && Under(v, After(c))
      ensures visits == Depth(c) + 1
      ensures node in Elements() && (compare(v, node.key) == 0 <==> !Lacks(v))
    {
      node, c, visits := mRoot, Top, 0;
      ghost var t := shape;
      SortedDistinct(compare, shape);
      assert allocated(NodesOf(shape));
      while true
        invariant Valid() && visits == Depth(c)
        invariant shape == Plug(c, t) && t.Fork? && t.node == node && Focused(node, t.left, t.right, c)
        invariant Above(v, Before(c)) && Under(v, After(c))
        decreases t
      {
        a, b, visits := t.left, t.right, visits + 1;
        Neighbours(v, node, a, b, c);
        var cmp := compare(v, node.key);
        if cmp == 0 {
          ComesTo(v, node, a, b, c);
          return;
        }
        assert Linked(a, node.mLeft, node) && Linked(b, node.mRight, node);
        var next := if cmp < 0 then node.mLeft else node.mRight;
        if next == null {
          ComesTo(v, node, a, b, c);
          return;
        }
        if cmp < 0 {
          c, t := OnLeft(node, b, c), a;
        } else {
          c, t := OnRight(a, node, c), b;
        }
        assert t == Fork(t.left, next, t.right);
        FocusShift(next, t.left, t.right, c);
        node := next;
      }
    }

    /** Everything in s is less than v. */
    ghost predicate Above(v: K, s: seq<Node<K>>) {
      forall x :: x in s ==> compare(x.key, v) < 0
    }

    ghost predicate Under(v: K, s: seq<Node<K>>) {
      forall x :: x in s ==> compare(v, x.key) < 0
    }

    /** What a comparison at node tells about its subtrees. */
    lemma Neighbours(v: K, node: Node<K>, a: Tree<K>, b: Tree<K>, c: Ctx<K>)
      requires TotalOrder(compare) && Sorted(compare, Inorder(Plug(c, Fork(a, node, b))))
      ensures compare(v, node.key) < 0 ==> Under(v, Inorder(b))
      ensures compare(v, node.key) > 0 ==> Above(v, Inorder(a))
      ensures compare(v, node.key) > 0 <==> compare(node.key, v) < 0
    {
      SignsMirror(compare, v, node.key);
      InorderPlug(c, Fork(a, node, b));
      SortedSplit(compare, Before(c) + Inorder(Fork(a, node, b)), After(c));
      SortedSplit(compare, Before(c), Inorder(Fork(a, node, b)));
      SortedFork(compare, a, node, b);
      assert node in [node];
      if compare(v, node.key) < 0 {
        forall x | x in Inorder(b) ensures compare(v, x.key) < 0 { LessLess(compare, v, node.key, x.key); }
      } else if compare(v, node.key) > 0 {
        forall x | x in Inorder(a) ensures compare(x.key, v) < 0 { LessLess(compare, x.key, node.key, v); }
      }
    }

    lemma Orders()
      requires Valid()
      ensures TotalOrder(compare) && Sorted(compare, Elements())
    {
    }

    /** No element compares equal to v. */
    ghost predicate Lacks(v: K)
      reads this
    {
      forall x :: x in Elements() ==> compare(v, x.key) != 0
    }

    lemma Missing(v: K, node: Node<K>, a: Tree<K>, b: Tree<K>, c: Ctx<K>)
      requires TotalOrder(compare) && Sorted(compare, Inorder(Plug(c, Fork(a, node, b))))
      requires compare(v, node.key) < 0 ==> a == Leaf
      requires compare(v, node.key) > 0 ==> b == Leaf
      requires compare(v, node.key) != 0
      requires Above(v, Before(c)) && Under(v, After(c))
      ensures forall x | x in Inorder(Plug(c, Fork(a, node, b))) :: compare(v, x.key) != 0
    {
      InorderPlug(c, Fork(a, node, b));
      Neighbours(v, node, a, b, c);
      forall x | x in Inorder(Plug(c, Fork(a, node, b))) ensures compare(v, x.key) != 0 {
        SignsMirror(compare, v, x.key);
        assert x in Before(c) || x in Inorder(a) || x == node || x in Inorder(b) || x in After(c);
      }
    }

    lemma ComesTo(v: K, node: Node<K>, a: Tree<K>, b: Tree<K>, c: Ctx<K>)
      requires Valid() && shape == Plug(c, Fork(a, node, b))
      requires compare(v, node.key) < 0 ==> a == Leaf
      requires compare(v, node.key) > 0 ==> b == Leaf
      requires Above(v, Before(c)) && Under(v, After(c))
      ensures node in Elements() && (compare(v, node.key) == 0 <==> !Lacks(v))
    {
      InorderPlug(c, Fork(a, node, b));
      if compare(v, node.key) != 0 {
        Missing(v, node, a, b, c);
      }
    }

    /** Looks v up and leaves the last node visited at the root. */
    method Find(v: K) returns (r: Node?<K>, ghost cost: nat)
      requires Valid()
      modifies this`mRoot, this`shape, Nodes()
      ensures Valid() && Elements() == old(Elements()) && Nodes() == old(Nodes())
      ensures r == null <==> Lacks(v)
      ensures Affordable(cost, old(shape), shape, |Elements()|)
      ensures r != null ==> r in Elements() && compare(v, r.key) == 0 && mRoot == r
    {
      if mRoot == null {
        return null, 0;
      }
      ghost var a, b, c, visits, rotations;
      var last;
      last, a, b, c, visits := Lookup(v);
      AccessPays(a, last, b, c);
      SizeIsLength(shape);
      rotations := Splay(last, a, b, c);
      cost := visits + rotations;
      r := if compare(v, last.key) == 0 then last else null;
    }

    /** now is was with n put in somewhere. */
    static ghost predicate Inserted(was: seq<Node<K>>, n: Node<K>, now: seq<Node<K>>) {
      exists k :: 0 <= k <= |was| && now == was[..k] + [n] + was[k..]
    }

    /** The gap Lookup found lies where v belongs. */
    lemma GapBounds(v: Node<K>, last: Node<K>, a: Tree<K>, b: Tree<K>, c: Ctx<K>, c': Ctx<K>)
      requires TotalOrder(compare) && Sorted(compare, Inorder(Plug(c, Fork(a, last, b))))
      requires compare(v.key, last.key) != 0
      requires compare(v.key, last.key) < 0 ==> a == Leaf && c' == OnLeft(last, b, c)
      requires compare(v.key, last.key) > 0 ==> b == Leaf && c' == OnRight(a, last, c)
      requires Above(v.key, Before(c)) && Under(v.key, After(c))
      ensures Above(v.key, Before(c')) && Under(v.key, After(c'))
      ensures Plug(c, Fork(a, last, b)) == Plug(c', Leaf)
    {
      Neighbours(v.key, last, a, b, c);
    }

    /** Filling it keeps the elements sorted. */
    lemma FillGap(v: Node<K>, c: Ctx<K>)
      requires Sorted(compare, Inorder(Plug(c, Leaf)))
      requires Above(v.key, Before(c)) && Under(v.key, After(c))
      ensures Sorted(compare, Inorder(Plug(c, Fork(Leaf, v, Leaf))))
      ensures Inserted(Inorder(Plug(c, Leaf)), v, Inorder(Plug(c, Fork(Leaf, v, Leaf))))
      ensures NodesOf(Plug(c, Fork(Leaf, v, Leaf))) == NodesOf(Plug(c, Leaf)) + {v}
    {
      InorderPlug(c, Leaf);
      InorderPlug(c, Fork(Leaf, v, Leaf));
      NodesPlug(c, Leaf);
      NodesPlug(c, Fork(Leaf, v, Leaf));
      assert Before(c) + [] + After(c) == Before(c) + After(c);
      assert Inorder(Fork(Leaf, v, Leaf)) == [v];
      SortedInsert(v, Before(c), After(c));
      InsertedBetween(Before(c), v, After(c));
    }

    static lemma InsertedBetween(s: seq<Node<K>>, v: Node<K>, t: seq<Node<K>>)
      ensures Inserted(s + t, v, s + [v] + t)
    {
      assert s + [v] + t == (s + t)[..|s|] + [v] + (s + t)[|s|..];
    }

    lemma SortedInsert(v: Node<K>, s: seq<Node<K>>, t: seq<Node<K>>)
      requires Sorted(compare, s + t) && Above(v.key, s) && Under(v.key, t)
      ensures Sorted(compare, s + [v] + t)
    {
      var u := s + [v] + t;
      forall i, j | 0 <= i < j < |u| ensures compare(u[i].key, u[j].key) < 0 {
        if j == |s| {
          assert u[i] in s;
        } else if i == |s| {
          assert u[j] in t;
        } else {
          var i', j' := if i < |s| then i else i - 1, if j < |s| then j else j - 1;
          assert (s + t)[i'] == u[i] && (s + t)[j'] == u[j];
        }
      }
    }

    /** Hangs n, which has no links yet, under last, on the side cmp names, and splays it up. */
    method FinishInsertion(last: Node<K>, cmp: int, n: Node<K>, ghost a: Tree<K>, ghost b: Tree<K>, ghost c: Ctx<K>)
      returns (ghost c': Ctx<K>, ghost rotations: nat)
      requires TotalOrder(compare) && Sorted(compare, Elements())
      requires shape == Plug(c, Fork(a, last, b)) && Focused(last, a, b, c)
      requires cmp == compare(n.key, last.key) && cmp != 0
      requires cmp < 0 ==> a == Leaf
      requires cmp > 0 ==> b == Leaf
      requires Above(n.key, Before(c)) && Under(n.key, After(c))
      requires n.mLeft == null && n.mRight == null && n !in Nodes()
      modifies this`mRoot, this`shape, Nodes(), n
      ensures Valid() && mRoot == n
      ensures old(shape) == Plug(c', Leaf) && shape == SplayUp(Leaf, n, Leaf, c')
      ensures Above(n.key, Before(c')) && Under(n.key, After(c'))
      ensures rotations == Depth(c') == Depth(c) + 1
      ensures Affordable(2 * rotations, old(shape), shape, |Elements()|)
      ensures Inserted(old(Elements()), n, Elements()) && Nodes() == old(Nodes()) + {n}
    {
      hide Affordable;
      hide SplayUp;
      hide Potential;
      hide Size;
      hide CtxLinked;
      hide Before;
      hide After;
      hide Inorder;
      c' := if cmp < 0 then OnLeft(last, b, c) else OnRight(a, last, c);
      GapBounds(n, last, a, b, c, c');
      FillGap(n, c');
      NodesPlug(c, Fork(a, last, b));
      HangNode(last, cmp, n, a, b, c);
      shape := Plug(c', Fork(Leaf, n, Leaf));
      InsertionPays(c', n);
      rotations := Splay(n, Leaf, Leaf, c');
      SizeIsLength(shape);
    }

    method HangNode(last: Node<K>, cmp: int, n: Node<K>, ghost a: Tree<K>, ghost b: Tree<K>, ghost c: Ctx<K>)
      requires Focused(last, a, b, c) && n !in Cover(last, a, b, c)
      requires cmp < 0 ==> a == Leaf
      requires cmp >= 0 ==> b == Leaf
      requires n.mLeft == null && n.mRight == null
      modifies last, n
      ensures Focused(n, Leaf, Leaf, if cmp < 0 then OnLeft(last, b, c) else OnRight(a, last, c))
    {
      if cmp < 0 {
        last.mLeft := n;
      } else {
        last.mRight := n;
      }
      n.mParent := last;
      FocusShift(n, Leaf, Leaf, if cmp < 0 then OnLeft(last, b, c) else OnRight(a, last, c));
    }

    /** Adds n, which must be new to the tree and compare unequal to every element. */
    method Insert(n: Node<K>) returns (ghost c: Ctx<K>, ghost cost: nat)
      requires Valid() && Lacks(n.key)
      requires n.mLeft == null && n.mRight == null && n.mParent == null && n !in Nodes()
      modifies this`mRoot, this`shape, Nodes(), n
      ensures Valid() && mRoot == n
      ensures old(shape) == Plug(c, Leaf) && shape == SplayUp(Leaf, n, Leaf, c)
      ensures Above(n.key, Before(c)) && Under(n.key, After(c))
      ensures Affordable(cost, old(shape), shape, |Elements()|)
      ensures Inserted(old(Elements()), n, Elements()) && Nodes() == old(Nodes()) + {n}
    {
      if mRoot == null {
        mRoot := n;
        shape := Fork(Leaf, n, Leaf);
        InsertedBetween([], n, []);
        SizeIsLength(shape);
        return Top, 0;
      }
      ghost var a, b, d, visits, rotations;
      var last;
      last, a, b, d, visits := Lookup(n.key);
      c, rotations := FinishInsertion(last, compare(n.key, last.key), n, a, b, d);
      cost := visits + rotations;
    }

    /** The element equal to v, made and inserted first if there is none.
        A tree that already has one is left exactly as it was, not even splayed. */
    method FindOrInsert(v: K) returns (r: Node<K>, ghost c: Ctx<K>, ghost cost: nat)
      requires Valid()
      modifies this`mRoot, this`shape, Nodes()
      ensures Valid() && compare(v, r.key) == 0 && r in Elements()
      ensures !old(Lacks(v)) ==> r in old(Elements()) && shape == old(shape)
      ensures !old(Lacks(v)) ==> (exists a, b :: shape == Plug(c, Fork(a, r, b))) && cost == Depth(c) + 1
      ensures old(Lacks(v)) ==> Affordable(cost, old(shape), shape, |Elements()|)
      ensures old(Lacks(v)) ==> fresh(r) && r.key == v && mRoot == r
      ensures old(Lacks(v)) ==> Inserted(old(Elements()), r, Elements()) && Nodes() == old(Nodes()) + {r}
    {
      SignsMirror(compare, v, v);
      if mRoot == null {
        r := new Node(v);
        mRoot := r;
        shape := Fork(Leaf, r, Leaf);
        InsertedBetween([], r, []);
        SizeIsLength(shape);
        return r, Top, 0;
      }
      ghost var a, b, visits, rotations;
      var last;
      last, a, b, c, visits := Lookup(v);
      var cmp := compare(v, last.key);
      if cmp == 0 {
        return last, c, visits;
      }
      assert allocated(CtxNodes(c)) && allocated(NodesOf(Fork(a, last, b))) && allocated(Nodes());
      r := new Node(v);
      assert r !in Nodes();
      c, rotations := FinishInsertion(last, cmp, r, a, b, c);
      cost := visits + rotations;
    }

    // ------------------------------------------------------------------- removal

    /** The rightmost node of the subtree at node. */
    method Rightmost(node: Node<K>, ghost t0: Tree<K>, ghost base: Ctx<K>)
      returns (swap: Node<K>, ghost a: Tree<K>, ghost d: Ctx<K>, ghost visits: nat)
      requires t0.Fork? && t0.node == node && Focused(node, t0.left, t0.right, base)
      ensures visits == Depth(d) + 1
      ensures RightSpine(d) && Plug(d, Fork(a, swap, Leaf)) == t0
      ensures Focused(swap, a, Leaf, Within(d, base)) && swap.mRight == null
    {
      swap, d, visits := node, Top, 1;
      ghost var t := t0;
      while swap.mRight != null
        invariant t.Fork? && t.node == swap && Focused(swap, t.left, t.right, Within(d, base))
        invariant visits == Depth(d) + 1
        invariant RightSpine(d) && Plug(d, t) == t0
        decreases t
      {
        assert Linked(t.right, swap.mRight, swap);
        var next := swap.mRight;
        d, t := OnRight(t.left, swap, d), t.right;
        assert t == Fork(t.left, next, t.right);
        FocusShift(next, t.left, t.right, Within(d, base));
        swap, visits := next, visits + 1;
      }
      assert Linked(t.right, swap.mRight, swap);
      a := t.left;
    }

    /** The leftmost node of the subtree at node. */
    method Leftmost(node: Node<K>, ghost t0: Tree<K>, ghost base: Ctx<K>)
      returns (swap: Node<K>, ghost b: Tree<K>, ghost d: Ctx<K>, ghost visits: nat)
      requires t0.Fork? && t0.node == node && Focused(node, t0.left, t0.right, base)
      ensures visits == Depth(d) + 1
      ensures LeftSpine(d) && Plug(d, Fork(Leaf, swap, b)) == t0
      ensures Focused(swap, Leaf, b, Within(d, base)) && swap.mLeft == null
    {
      swap, d, visits := node, Top, 1;
      ghost var t := t0;
      while swap.mLeft != null
        invariant t.Fork? && t.node == swap && Focused(swap, t.left, t.right, Within(d, base))
        invariant visits == Depth(d) + 1
        invariant LeftSpine(d) && Plug(d, t) == t0
        decreases t
      {
        assert Linked(t.left, swap.mLeft, swap);
        var next := swap.mLeft;
        d, t := OnLeft(swap, t.right, d), t.left;
        assert t == Fork(t.left, next, t.right);
        FocusShift(next, t.left, t.right, Within(d, base));
        swap, visits := next, visits + 1;
      }
      assert Linked(t.left, swap.mLeft, swap);
      b := t.right;
    }

    /** Replaces swap, which has at most the one child given, by that child. */
    method Detach(swap: Node<K>, child: Node?<K>, ghost a: Tree<K>, ghost b: Tree<K>, ghost t: Tree<K>, ghost c: Ctx<K>)
      requires c != Top && Focused(swap, a, b, c)
      requires (b == Leaf && t == a && child == swap.mLeft) || (a == Leaf && t == b && child == swap.mRight)
      modifies NodesOf(t) + {c.node}
      ensures Linked(t, child, ParentOf(c)) && CtxLinked(c, child, mRoot)
    {
      assert Linked(a, swap.mLeft, swap) && Linked(b, swap.mRight, swap);
      assert allocated(CtxNodes(c)) && allocated(NodesOf(t));
      FocusParent(swap, a, b, c);
      var parent := swap.mParent;
      if swap == parent.mLeft {
        parent.mLeft := child;
      } else {
        parent.mRight := child;
      }
      assert CtxLinked(c, child, mRoot);
      if child != null {
        SetParent(child, parent, t, swap);
      }
    }

    /** What unhooking the rightmost node of l, or the leftmost node of r, does to the order. */
    static lemma RightmostOrder(d: Ctx<K>, a: Tree<K>, swap: Node<K>)
      requires RightSpine(d)
      ensures Inorder(Plug(d, Fork(a, swap, Leaf))) == Inorder(Plug(d, a)) + [swap]
    {
      SpineOrder(d, Fork(a, swap, Leaf));
      SpineOrder(d, a);
      assert Inorder(Fork(a, swap, Leaf)) == Inorder(a) + [swap];
    }

    static lemma LeftmostOrder(d: Ctx<K>, swap: Node<K>, b: Tree<K>)
      requires LeftSpine(d)
      ensures Inorder(Plug(d, Fork(Leaf, swap, b))) == [swap] + Inorder(Plug(d, b))
    {
      SpineOrder(d, Fork(Leaf, swap, b));
      SpineOrder(d, b);
      assert Inorder(Fork(Leaf, swap, b)) == [swap] + Inorder(b);
    }

    /** Unhooks the rightmost node of the root's left subtree. */
    method UnhookLeft(last: Node<K>, ghost l: Tree<K>, ghost r: Tree<K>)
      returns (swap: Node<K>, ghost l': Tree<K>, ghost walk: nat)
      requires mRoot == last && Focused(last, l, r, Top) && last.mLeft != null
      modifies NodesOf(l) + {last}
      ensures Linked(Fork(l', last, r), last, null) && Distinct(Fork(l', last, r))
      ensures l.Fork? && swap == Greatest(l) && l' == WithoutGreatest(l) && walk == RightLength(l)
      ensures Inorder(l) == Inorder(l') + [swap]
      ensures NodesOf(l) == NodesOf(l') + {swap} && swap !in NodesOf(l')
    {
      hide CtxDistinct;
      hide Inorder;
      assert Linked(l, last.mLeft, last);
      ghost var a, d;
      ghost var base := OnLeft(last, r, Top);
      FocusShift(last.mLeft, l.left, l.right, base);
      swap, a, d, walk := Rightmost(last.mLeft, l, base);
      GreatestPlug(d, Fork(a, swap, Leaf));
      RightmostOrder(d, a, swap);
      WithinNodes(d, base);
      NodesPlug(d, a);
      NodesPlug(d, Fork(a, swap, Leaf));
      var child := swap.mLeft;
      Detach(swap, child, a, Leaf, a, Within(d, base));
      LinkedPlug(Within(d, base), a, child, mRoot);
      PlugWithin(d, base, a);
      DistinctPlug(Within(d, base), a);
      l' := Plug(d, a);
    }

    /** Unhooks the leftmost node of the root's right subtree. */
    method UnhookRight(last: Node<K>, ghost l: Tree<K>, ghost r: Tree<K>)
      returns (swap: Node<K>, ghost r': Tree<K>, ghost walk: nat)
      requires mRoot == last && Focused(last, l, r, Top) && last.mRight != null
      modifies NodesOf(r) + {last}
      ensures Linked(Fork(l, last, r'), last, null) && Distinct(Fork(l, last, r'))
      ensures r.Fork? && swap == Least(r) && r' == WithoutLeast(r) && walk == LeftLength(r)
      ensures Inorder(r) == [swap] + Inorder(r')
      ensures NodesOf(r) == NodesOf(r') + {swap} && swap !in NodesOf(r')
    {
      hide CtxDistinct;
      hide Inorder;
      assert Linked(r, last.mRight, last);
      ghost var b, d;
      ghost var base := OnRight(l, last, Top);
      FocusShift(last.mRight, r.left, r.right, base);
      swap, b, d, walk := Leftmost(last.mRight, r, base);
      LeastPlug(d, Fork(Leaf, swap, b));
      LeftmostOrder(d, swap, b);
      WithinNodes(d, base);
      NodesPlug(d, b);
      NodesPlug(d, Fork(Leaf, swap, b));
      var child := swap.mRight;
      Detach(swap, child, Leaf, b, b, Within(d, base));
      LinkedPlug(Within(d, base), b, child, mRoot);
      PlugWithin(d, base, b);
      DistinctPlug(Within(d, base), b);
      r' := Plug(d, b);
    }

    /** Puts swap where the root is. */
    method ReplaceRoot(swap: Node<K>, last: Node<K>, ghost l: Tree<K>, ghost r: Tree<K>)
      requires mRoot == last && Distinct(Fork(l, last, r)) && Linked(Fork(l, last, r), last, null)
      requires swap !in NodesOf(Fork(l, last, r))
      modifies this`mRoot, swap, NodesOf(l) + NodesOf(r)
      ensures mRoot == swap && Linked(Fork(l, swap, r), swap, null)
    {
      assert Linked(l, last.mLeft, last) && Linked(r, last.mRight, last);
      assert allocated(NodesOf(l)) && allocated(NodesOf(r));
      mRoot := swap;
      swap.mParent := null;
      swap.mLeft := last.mLeft;
      swap.mRight := last.mRight;
      SetParent(swap.mLeft, swap, l, last);
      SetParent(swap.mRight, swap, r, last);
    }

    /** now is was with n taken out. */
    static ghost predicate Removed(was: seq<Node<K>>, n: Node<K>, now: seq<Node<K>>) {
      exists k :: 0 <= k < |was| && was[k] == n && now == was[..k] + was[k + 1..]
    }

    static lemma RemovedBetween(s: seq<Node<K>>, n: Node<K>, t: seq<Node<K>>)
      ensures Removed(s + [n] + t, n, s + t)
    {
      var w := s + [n] + t;
      assert w[|s|] == n && s + t == w[..|s|] + w[|s| + 1..];
    }

    lemma SortedRemove(s: seq<Node<K>>, n: Node<K>, t: seq<Node<K>>)
      requires Sorted(compare, s + [n] + t)
      ensures Sorted(compare, s + t)
    {
      var u, w := s + t, s + [n] + t;
      forall i, j | 0 <= i < j < |u| ensures compare(u[i].key, u[j].key) < 0 {
        var i', j' := if i < |s| then i else i + 1, if j < |s| then j else j + 1;
        assert w[i'] == u[i] && w[j'] == u[j];
      }
    }

    /** The second half of remove: takes out the root. */
    method RemoveRoot(last: Node<K>, ghost l: Tree<K>, ghost r: Tree<K>) returns (ghost walk: nat)
      requires mRoot == last && shape == Fork(l, last, r) && Focused(last, l, r, Top)
      modifies this`mRoot, this`shape, Nodes()
      ensures Linked(shape, mRoot, null)
      ensures shape == WithoutRoot(old(shape)) && walk == Walk(old(shape))
      ensures Elements() == Inorder(l) + Inorder(r) && Nodes() == NodesOf(l) + NodesOf(r)
    {
      assert Linked(l, last.mLeft, last) && Linked(r, last.mRight, last);
      if mRoot.mLeft != null {
        walk := SwapFromLeft(last, l, r);
      } else if mRoot.mRight != null {
        walk := SwapFromRight(last, l, r);
      } else {
        mRoot := null;
        shape := Leaf;
        walk := 0;
      }
    }

    /** The greatest node of the left subtree takes the place of the root. */
    method SwapFromLeft(last: Node<K>, ghost l: Tree<K>, ghost r: Tree<K>) returns (ghost walk: nat)
      requires mRoot == last && shape == Fork(l, last, r) && Focused(last, l, r, Top) && last.mLeft != null
      modifies this`mRoot, this`shape, Nodes()
      ensures Linked(shape, mRoot, null)
      ensures shape == WithoutRoot(old(shape)) && walk == Walk(old(shape))
      ensures Elements() == Inorder(l) + Inorder(r) && Nodes() == NodesOf(l) + NodesOf(r)
    {
      hide CtxLinked;
      assert allocated(NodesOf(l)) && allocated(NodesOf(r));
      assert Linked(l, last.mLeft, last);
      var swap;
      ghost var l';
      swap, l', walk := UnhookLeft(last, l, r);
      ReplaceRoot(swap, last, l', r);
      shape := Fork(l', swap, r);
    }

    /** The least node of the right subtree does. */
    method SwapFromRight(last: Node<K>, ghost l: Tree<K>, ghost r: Tree<K>) returns (ghost walk: nat)
      requires mRoot == last && shape == Fork(l, last, r) && Focused(last, l, r, Top)
      requires last.mLeft == null && last.mRight != null
      modifies this`mRoot, this`shape, Nodes()
      ensures Linked(shape, mRoot, null)
      ensures shape == WithoutRoot(old(shape)) && walk == Walk(old(shape))
      ensures Elements() == Inorder(l) + Inorder(r) && Nodes() == NodesOf(l) + NodesOf(r)
    {
      hide CtxLinked;
      assert allocated(NodesOf(l)) && allocated(NodesOf(r));
      assert Linked(r, last.mRight, last) && Linked(l, last.mLeft, last);
      var swap;
      ghost var r';
      swap, r', walk := UnhookRight(last, l, r);
      ReplaceRoot(swap, last, l, r');
      shape := Fork(l, swap, r');
    }

    /** Takes the element equal to v out of the tree and returns it, its links unreset. */
    method Remove(v: K)
      returns (last: Node<K>, ghost a: Tree<K>, ghost b: Tree<K>, ghost c: Ctx<K>, ghost cost: nat, ghost walk: nat)
      requires Valid() && !Lacks(v)
      modifies this`mRoot, this`shape, Nodes()
      ensures Valid() && compare(v, last.key) == 0
      ensures old(shape) == Plug(c, Fork(a, last, b)) && shape == WithoutRoot(SplayUp(a, last, b, c))
      ensures Affordable(cost, old(shape), shape, |old(Elements())|)
      ensures cost == 2 * Depth(c) + 1 && walk == Walk(SplayUp(a, last, b, c))
      ensures Removed(old(Elements()), last, Elements()) && Nodes() == old(Nodes()) - {last}
    {
      hide Sorted;
      ghost var visits, rotations;
      last, a, b, c, visits := Lookup(v);
      AccessPays(a, last, b, c);
      SizeIsLength(shape);
      rotations := Splay(last, a, b, c);
      cost := visits + rotations;
      WithoutRootPays(shape);
      SortedDistinct(compare, shape);
      ghost var l, r := shape.left, shape.right;
      assert shape == Fork(l, last, r);
      RemovedBetween(Inorder(l), last, Inorder(r));
      SortedRemove(Inorder(l), last, Inorder(r));
      walk := RemoveRoot(last, l, r);
    }

    lemma FirstRemoved(s: seq<Node<K>>, r: Node<K>, now: seq<Node<K>>)
      requires Sorted(compare, s) && Removed(s, r, now) && s != [] && compare(s[0].key, r.key) == 0
      ensures r == s[0] && now == s[1..]
    {
      var k :| 0 <= k < |s| && s[k] == r && now == s[..k] + s[k + 1..];
      assert k == 0;
    }

    /** Takes out the least element. On the way to it, and then once more to look it up, as many nodes are
        visited as there are rotations to lift it. */
    method RemoveMin() returns (r: Node<K>, ghost b: Tree<K>, ghost c: Ctx<K>, ghost cost: nat, ghost walk: nat)
      requires Valid() && mRoot != null
      modifies this`mRoot, this`shape, Nodes()
      ensures old(Elements()) != [] && r == old(Elements())[0]
      ensures LeftSpine(c) && old(shape) == Plug(c, Fork(Leaf, r, b)) && shape == WithoutRoot(SplayUp(Leaf, r, b, c))
      ensures cost == 3 * Depth(c) + 2 && walk == Walk(SplayUp(Leaf, r, b, c))
      ensures Affordable(cost - Depth(c) - 1, old(shape), shape, |old(Elements())|)
      ensures Valid() && Elements() == old(Elements())[1..] && Nodes() == old(Nodes()) - {r}
    {
      hide Sorted;
      hide Removed;
      hide SplayUp;
      hide WithoutRoot;
      hide NodesOf;
      hide Plug;
      hide Affordable;
      SortedDistinct(compare, shape);
      assert allocated(Nodes());
      ghost var b0, d, visits;
      var min;
      min, b0, d, visits := Leftmost(mRoot, shape, Top);
      LeftmostOrder(d, min, b0);
      SignsMirror(compare, min.key, min.key);
      ghost var s := Elements();
      assert s[0] == min;
      ghost var a';
      r, a', b, c, cost, walk := Remove(min.key);
      LeastPlug(d, Fork(Leaf, min, b0));
      cost := cost + visits;
      FirstRemoved(s, r, Elements());
      FirstPlace(compare, a', r, b, c);
    }

    ghost predicate Over(minimum: Node?<K>, s: seq<Node<K>>) {
      minimum != null ==> Under(minimum.key, s)
    }

    /** What the comparisons made at one node establish. */
    lemma CheckedFork(minimum: Node?<K>, l: Tree<K>, n: Node<K>, r: Tree<K>)
      requires TotalOrder(compare)
      ensures Sorted(compare, Inorder(Fork(l, n, r))) && Over(minimum, Inorder(Fork(l, n, r))) <==>
              && (minimum != null ==> compare(minimum.key, n.key) < 0)
              && Sorted(compare, Inorder(l)) && Over(minimum, Inorder(l)) && Below(compare, Inorder(l), [n])
              && Sorted(compare, Inorder(r)) && Under(n.key, Inorder(r))
    {
      SortedFork(compare, l, n, r);
      var s := Inorder(Fork(l, n, r));
      assert forall x :: x in s <==> x in Inorder(l) || x == n || x in Inorder(r);
      assert n in [n];
      if Under(n.key, Inorder(r)) {
        forall x, y | Below(compare, Inorder(l), [n]) && x in Inorder(l) && y in Inorder(r)
          ensures compare(x.key, y.key) < 0
        {
          LessLess(compare, x.key, n.key, y.key);
        }
        if minimum != null && compare(minimum.key, n.key) < 0 {
          forall y | y in Inorder(r) ensures compare(minimum.key, y.key) < 0 {
            LessLess(compare, minimum.key, n.key, y.key);
          }
        }
      }
    }

    lemma LastIsGreatest(l: Tree<K>, m: Node<K>, n: Node<K>)
      requires TotalOrder(compare) && Sorted(compare, Inorder(l))
      requires Inorder(l) != [] && m == Inorder(l)[|Inorder(l)| - 1]
      ensures compare(m.key, n.key) < 0 <==> Below(compare, Inorder(l), [n])
    {
      var s := Inorder(l);
      if compare(m.key, n.key) < 0 {
        forall x, y | x in s && y in [n] ensures compare(x.key, y.key) < 0 {
          var i :| 0 <= i < |s| && s[i] == x;
          if i < |s| - 1 { LessLess(compare, x.key, m.key, n.key); }
        }
      } else {
        assert m in s && n in [n];
      }
    }

    /** The verdict of checkCoherency's assertions below one node, in terms of the invariant. */
    ghost predicate Coherent(t: Tree<K>, minimum: Node?<K>)
      reads this, mRoot, NodesOf(t)
    {
      && (mRoot != null ==> mRoot.mParent == null)
      && Up(t) && Sorted(compare, Inorder(t)) && Over(minimum, Inorder(t))
    }

    lemma CoherentFork(t: Tree<K>, minimum: Node?<K>)
      requires TotalOrder(compare) && t.Fork?
      ensures Coherent(t, minimum) <==>
              && (mRoot != null ==> mRoot.mParent == null)
              && (minimum != null ==> compare(minimum.key, t.node.key) < 0)
              && Hangs(t.left, t.node) && Coherent(t.left, minimum) && Below(compare, Inorder(t.left), [t.node])
              && Hangs(t.right, t.node) && Coherent(t.right, t.node)
    {
      CheckedFork(minimum, t.left, t.node, t.right);
    }

    /** The release assertions of checkCoherency, as a verdict. Given only that the child links
        spell t, they hold exactly when t is sorted, lies above the minimum passed down, and every
        parent link below its top is right. The maximum of t is returned. */
    method CheckFrom(n: Node?<K>, minimum: Node?<K>, ghost t: Tree<K>) returns (ok: bool, max: Node?<K>)
      requires TotalOrder(compare) && Down(t, n)
      requires n == null ==> mRoot == null
      requires n != null ==> mRoot != null && (n == mRoot || n.mParent != null)
      ensures ok <==> Coherent(t, minimum)
      ensures ok && n != null ==> Inorder(t) != [] && max == Inorder(t)[|Inorder(t)| - 1]
      decreases t
    {
      hide Before;
      hide After;
      ok, max := false, null;
      if mRoot != null && mRoot.mParent != null { return; }
      if n == null { return true, null; }
      CoherentFork(t, minimum);
      ghost var l, r := t.left, t.right;
      assert Down(l, n.mLeft) && Down(r, n.mRight);
      assert allocated(NodesOf(l)) && allocated(NodesOf(r)) && allocated(NodesOf(t));
      if n.mParent == null && n != mRoot { return; }
      if minimum != null && compare(minimum.key, n.key) >= 0 { return; }
      if n.mLeft != null {
        if n.mLeft.mParent != n { return; }
        var leftOk, leftMaximum := CheckFrom(n.mLeft, minimum, l);
        if !leftOk { return; }
        LastIsGreatest(l, leftMaximum, n);
        if compare(leftMaximum.key, n.key) >= 0 { return; }
      }
      if n.mRight != null {
        if n.mRight.mParent != n { return; }
        ok, max := CheckFrom(n.mRight, n, r);
        return;
      }
      return true, n;
    }

    /** checkCoherency passes exactly on the trees that satisfy the invariant. */
    method CheckCoherency() returns (ok: bool)
      requires TotalOrder(compare) && Down(shape, mRoot)
      ensures ok <==> Valid()
    {
      LinkedHalves(shape, mRoot, null);
      assert allocated(NodesOf(shape));
      assert Coherent(shape, null) <==> Valid();
      var max;
      ok, max := CheckFrom(mRoot, null, shape);
    }
  }

  // ------------------------------------------------------------------ whole runs

  datatype Op<K> = Search(key: K) | Add(key: K)

  /** There is an equal key among the first n that were added. */
  ghost predicate Added<K>(cmp: (K, K) -> int, ops: seq<Op<K>>, n: nat, v: K)
    requires n <= |ops|
  {
    exists j :: 0 <= j < n && ops[j].Add? && cmp(v, ops[j].key) == 0
  }

  lemma EqualEqual<K(!new)>(cmp: (K, K) -> int, a: K, b: K, c: K)
    requires TotalOrder(cmp) && cmp(a, b) == 0
    ensures cmp(a, c) == 0 <==> cmp(b, c) == 0
    ensures cmp(c, a) == 0 <==> cmp(c, b) == 0
    ensures cmp(b, a) == 0
  {
    SignsMirror(cmp, a, b);
    SignsMirror(cmp, a, c);
    SignsMirror(cmp, b, c);
    assert AtMost(cmp, a, b) && AtMost(cmp, b, a);
    assert AtMost(cmp, a, c) ==> AtMost(cmp, b, c);
    assert AtMost(cmp, b, c) ==> AtMost(cmp, a, c);
    assert AtMost(cmp, c, a) ==> AtMost(cmp, c, b);
    assert AtMost(cmp, c, b) ==> AtMost(cmp, c, a);
  }

  lemma AddedSnoc<K>(cmp: (K, K) -> int, ops: seq<Op<K>>, n: nat, v: K)
    requires n < |ops|
    ensures Added(cmp, ops, n + 1, v) <==> Added(cmp, ops, n, v) || (ops[n].Add? && cmp(v, ops[n].key) == 0)
  {
    if Added(cmp, ops, n, v) {
      var j :| 0 <= j < n && ops[j].Add? && cmp(v, ops[j].key) == 0;
      assert 0 <= j < n + 1;
    }
    if ops[n].Add? && cmp(v, ops[n].key) == 0 {
      assert 0 <= n < n + 1;
    }
  }

  /** Searches and insertions in any order, beginning with an empty tree. Every search says whether an equal
      key has been added before; and all of them together visit and rotate no more than in proportion to
      their number and its logarithm. */
  method Run<K(!new)>(compare: (K, K) -> int, ops: seq<Op<K>>) returns (answers: seq<bool>, ghost cost: nat)
    requires TotalOrder(compare)
    ensures |answers| == |ops|
    ensures forall i :: 0 <= i < |ops| ==> (answers[i] <==> Added(compare, ops, i, ops[i].key))
    ensures cost <= |ops| * (32 * Log2(|ops|) + 6)
  {
    hide Added;
    hide Potential;
    hide Log2;
    hide NodesOf;
    hide SplayTree.Valid;
    var tree := new SplayTree<K>(compare);
    answers, cost := [], 0;
    NothingYet(tree, ops);
    ghost var unit := 32 * Log2(|ops|) + 6;
    var i := 0;
    while i < |ops|
      invariant 0 <= i <= |ops| == |ops| && |answers| == i
      invariant fresh(tree) && fresh(tree.Nodes()) && tree.Valid() && tree.compare == compare
      invariant |tree.Elements()| <= i && cost + 4 * Potential(tree.shape) <= i * unit
      invariant forall v :: tree.Lacks(v) <==> !Added(compare, ops, i, v)
      invariant forall j :: 0 <= j < i ==> (answers[j] <==> Added(compare, ops, j, ops[j].key))
    {
      ghost var spent, nodes := 0, tree.Nodes();
      var answer;
      label before:
      answer, spent := Perform(tree, ops[i], |ops|);
      forall v ensures Added(compare, ops, i + 1, v) <==>
                         Added(compare, ops, i, v) || (ops[i].Add? && compare(v, ops[i].key) == 0)
      {
        AddedSnoc(compare, ops, i, v);
      }
      NextUnit(i, unit);
      assert fresh@before(tree.Nodes() - nodes) && forall n :: n in tree.Nodes() ==> n in nodes || !old(allocated(n));
      answers, cost, i := answers + [answer], cost + spent, i + 1;
    }
  }

  lemma NothingYet<K(!new)>(tree: SplayTree<K>, ops: seq<Op<K>>)
    requires tree.shape == Leaf
    ensures tree.Nodes() == {} && Potential(tree.shape) == 0
    ensures forall v :: tree.Lacks(v) && !Added(tree.compare, ops, 0, v)
  {
  }

  lemma NextUnit(i: nat, unit: nat)
    ensures (i + 1) * unit == i * unit + unit
  {
  }

  /** One of them, in a tree of fewer than n elements. */
  method Perform<K(!new)>(tree: SplayTree<K>, op: Op<K>, ghost n: nat) returns (answer: bool, ghost spent: nat)
    requires tree.Valid() && |tree.Elements()| < n
    modifies tree`mRoot, tree`shape, tree.Nodes()
    ensures tree.Valid() && fresh(tree.Nodes() - old(tree.Nodes()))
    ensures answer <==> !old(tree.Lacks(op.key))
    ensures |tree.Elements()| <= |old(tree.Elements())| + 1
    ensures forall v :: tree.Lacks(v) <==> old(tree.Lacks(v)) && (op.Add? ==> tree.compare(v, op.key) != 0)
    ensures spent + 4 * Potential(tree.shape) <= 4 * old(Potential(tree.shape)) + 32 * Log2(n) + 6
  {
    hide SplayTree.Valid;
    Log2Grows(|tree.Elements()|, n);
    Log2Grows(|tree.Elements()| + 1, n);
    hide Log2;
    hide Potential;
    tree.Orders();
    var r;
    r, spent := tree.Find(op.key);
    answer := r != null;
    if op.Add? {
      if r == null {
        ghost var nodes := tree.Nodes();
        label found:
        ghost var more := AddNew(tree, op.key);
        assert fresh@found(tree.Nodes() - nodes)
            && forall x :: x in tree.Nodes() ==> x in nodes || !old(allocated(x));
        spent := spent + more;
      } else {
        forall v ensures tree.compare(v, op.key) == 0 ==> !tree.Lacks(v) {
          EqualEqual(tree.compare, op.key, r.key, v);
        }
      }
    }
  }

  method AddNew<K(!new)>(tree: SplayTree<K>, key: K) returns (ghost cost: nat)
    requires tree.Valid() && tree.Lacks(key)
    modifies tree`mRoot, tree`shape, tree.Nodes()
    ensures tree.Valid() && fresh(tree.Nodes() - old(tree.Nodes()))
    ensures |tree.Elements()| == |old(tree.Elements())| + 1
    ensures forall v :: tree.Lacks(v) <==> old(tree.Lacks(v)) && tree.compare(v, key) != 0
    ensures Affordable(cost, old(tree.shape), tree.shape, |tree.Elements()|)
  {
    hide Affordable;
    ghost var was := tree.Elements();
    assert allocated(tree.Nodes());
    var node := new Node(key);
    ghost var c;
    c, cost := tree.Insert(node);
    InsertedElements(was, node, tree.Elements());
  }

  lemma InsertedElements<K(!new)>(was: seq<Node<K>>, n: Node<K>, now: seq<Node<K>>)
    requires SplayTree<K>.Inserted(was, n, now)
    ensures |now| == |was| + 1 && forall x :: x in now <==> x in was || x == n
  {
    var k :| 0 <= k <= |was| && now == was[..k] + [n] + was[k..];
    assert was == was[..k] + was[k..];
  }

  // ------------------------------------------------------------- runs that are dear

  /** No node has a right child. */
  ghost predicate AllLeft<K>(t: Tree<K>) {
    t.Leaf? || (t.right == Leaf && AllLeft(t.left))
  }

  lemma {:induction false} AllLeftLength<K>(t: Tree<K>)
    requires AllLeft(t)
    ensures LeftLength(t) == Size(t)
  {
    if t.Fork? {
      AllLeftLength(t.left);
    }
  }

  /** A new greatest element comes to the top of such a tree, which becomes its left subtree. */
  lemma GreatestOnTop<K>(c: Ctx<K>, n: Node<K>)
    requires AllLeft(Plug(c, Leaf)) && After(c) == []
    ensures SplayUp(Leaf, n, Leaf, c) == Fork(Plug(c, Leaf), n, Leaf)
  {
    NothingBefore(c);
    GreatestPlug(c, Leaf);
    if c != Top && c.up != Top {
      TwoDeep(c);
    }
  }

  lemma {:induction false} TwoDeep<K>(c: Ctx<K>)
    requires RightSpine(c) && Depth(c) > 1
    ensures !AllLeft(Plug(c, Leaf))
  {
    GreatestPlug(c, Leaf);
    var t := Plug(c, Leaf);
    assert RightLength(t) == Depth(c);
    assert AllLeft(t) ==> RightLength(t) <= 1;
  }

  /** Splaying the least element halves the left spine, and leaves that half to the right. */
  lemma {:induction false} HalfSpine<K>(n: Node<K>, b: Tree<K>, c: Ctx<K>)
    requires LeftSpine(c)
    ensures var t := SplayUp(Leaf, n, b, c);
            t.left == Leaf && 2 * LeftLength(t.right) >= 2 * LeftLength(b) + Depth(c)
    decreases Depth(c)
  {
    if c != Top {
      var t := StepUp(Leaf, n, b, c);
      assert t.left == Leaf && LeftLength(t.right) == LeftLength(b) + 1;
      HalfSpine(n, t.right, StepCtx(c));
    }
  }

  lemma WithoutLeastLength<K>(t: Tree<K>)
    requires t.Fork?
    ensures LeftLength(WithoutLeast(t)) >= LeftLength(t) - 1
  {
  }

  function Difference(a: int, b: int): int {
    a - b
  }

  lemma DifferenceOrders()
    ensures TotalOrder(Difference)
  {
    var cmp: (int, int) -> int := Difference;
    assert forall a, b :: cmp(a, b) == a - b;
  }

  lemma NothingAfter<K>(cmp: (K, K) -> int, v: K, c: Ctx<K>)
    requires forall x :: x in Inorder(Plug(c, Leaf)) ==> cmp(v, x.key) > 0
    requires forall x :: x in After(c) ==> cmp(v, x.key) < 0
    ensures After(c) == []
  {
    InorderPlug(c, Leaf);
    SomethingIn(After(c));
  }

  lemma SomethingIn<T>(s: seq<T>)
    ensures s == [] || exists x :: x in s
  {
    if s != [] {
      assert s[0] in s;
    }
  }

  /** The keys are 0, 1, 2 and so on. */
  ghost predicate Counted(s: seq<Node<int>>, n: nat) {
    |s| == n && forall i :: 0 <= i < n ==> s[i].key == i
  }

  /** Elements inserted in ascending order end up in a single left spine. */
  method Ascending(n: nat) returns (tree: SplayTree<int>)
    ensures fresh(tree) && fresh(tree.Nodes()) && tree.Valid() && tree.compare == Difference
    ensures AllLeft(tree.shape) && Counted(tree.Elements(), n)
  {
    DifferenceOrders();
    tree := new SplayTree<int>(Difference);
    for i := 0 to n
      invariant fresh(tree) && fresh(tree.Nodes()) && tree.Valid() && tree.compare == Difference
      invariant AllLeft(tree.shape) && Counted(tree.Elements(), i)
    {
      ghost var nodes := tree.Nodes();
      label before:
      AddOnTop(tree, i);
      assert fresh@before(tree.Nodes() - nodes) && forall n :: n in tree.Nodes() ==> n in nodes || !old(allocated(n));
    }
  }

  method AddOnTop(tree: SplayTree<int>, i: nat)
    requires tree.Valid() && tree.compare == Difference && AllLeft(tree.shape) && Counted(tree.Elements(), i)
    modifies tree`mRoot, tree`shape, tree.Nodes()
    ensures tree.Valid() && AllLeft(tree.shape) && Counted(tree.Elements(), i + 1)
    ensures fresh(tree.Nodes() - old(tree.Nodes()))
  {
    ghost var was := tree.shape;
    assert allocated(tree.Nodes());
    var node := new Node<int>(i);
    assert node !in tree.Nodes();
    ghost var c, cost;
    c, cost := tree.Insert(node);
    NothingAfter(Difference, i, c);
    GreatestOnTop(c, node);
    assert tree.Elements() == Inorder(was) + [node] + [];
  }

  /** After 2k + 1 insertions in ascending order, k removals of the least element visit k nodes and k - 1 nodes
      and so on, just to find the neighbour of the root: more than in proportion to the square of k. */
  method Drain(k: nat) returns (ghost calls: nat, ghost walked: nat)
    ensures calls == 3 * k + 1 && 2 * walked >= k * (k + 1)
  {
    hide SplayTree.Valid;
    hide Spined;
    hide Stairs;
    var tree := Ascending(2 * k + 1);
    calls, walked := 2 * k + 1, 0;
    StairsAre(k);
    AtFirst(tree.shape, k);
    for j := 0 to k
      invariant fresh(tree) && fresh(tree.Nodes()) && tree.Valid() && calls == 2 * k + 1 + j
      invariant tree.shape.Fork? && Spined(tree.shape, k, j) && 2 * walked >= Stairs(k, j)
    {
      ghost var walk := DrainOne(tree, k, j);
      NextStair(k, j);
      calls, walked := calls + 1, walked + walk;
    }
  }

  method DrainOne(tree: SplayTree<int>, ghost k: nat, ghost j: nat) returns (ghost walk: nat)
    requires tree.Valid() && tree.shape.Fork? && j < k && Spined(tree.shape, k, j)
    modifies tree`mRoot, tree`shape, tree.Nodes()
    ensures tree.Valid() && tree.Nodes() <= old(tree.Nodes())
    ensures tree.shape.Fork? && Spined(tree.shape, k, j + 1) && walk >= k - j
  {
    hide Spined;
    hide WithoutRoot;
    hide SplayUp;
    var r;
    ghost var b, c, cost;
    r, b, c, cost, walk := tree.RemoveMin();
    OneLess(r, b, c, k, j);
  }

  /** Twice the sum of j numbers, from k downwards. */
  ghost function Stairs(k: nat, j: nat): int {
    j * (2 * k - j + 1)
  }

  lemma StairsAre(k: nat)
    ensures Stairs(k, 0) == 0 && Stairs(k, k) == k * (k + 1)
  {
  }

  lemma NextStair(k: nat, j: nat)
    requires j < k
    ensures Stairs(k, j + 1) == Stairs(k, j) + 2 * (k - j)
  {
  }

  lemma AtFirst<K>(t: Tree<K>, k: nat)
    requires AllLeft(t) && |Inorder(t)| == 2 * k + 1
    ensures t.Fork? && Spined(t, k, 0)
  {
    SizeIsLength(t);
    AllLeftLength(t);
  }

  /** What Drain's tree looks like after j removals. */
  ghost predicate Spined<K>(t: Tree<K>, k: nat, j: nat) {
    if j == 0 then LeftLength(t) == 2 * k + 1 else t.Fork? && t.left == Leaf && LeftLength(t.right) >= k - j
  }

  lemma OneLess<K>(r: Node<K>, b: Tree<K>, c: Ctx<K>, k: nat, j: nat)
    requires LeftSpine(c) && j < k && Spined(Plug(c, Fork(Leaf, r, b)), k, j)
    ensures var t := SplayUp(Leaf, r, b, c);
            Walk(t) >= k - j && WithoutRoot(t).Fork? && Spined(WithoutRoot(t), k, j + 1)
  {
    var t := SplayUp(Leaf, r, b, c);
    LeastPlug(c, Fork(Leaf, r, b));
    HalfSpine(r, b, c);
    assert LeftLength(t.right) >= k - j;
    WithoutLeastLength(t.right);
  }

  /** A search by findOrInsert for what is deep in the tree leaves it there: m of them visit n nodes each. */
  method Stale(n: nat, m: nat) returns (ghost visits: nat)
    requires n > 0
    ensures visits == m * n
  {
    var tree := Ascending(n);
    visits := 0;
    ghost var t := tree.shape;
    SizeIsLength(t);
    AllLeftLength(t);
    for i := 0 to m
      invariant fresh(tree) && fresh(tree.Nodes()) && tree.Valid() && tree.compare == Difference
      invariant tree.shape == t && visits == i * n && Counted(tree.Elements(), n)
    {
      ghost var cost := FindLeast(tree, n);
      visits := visits + cost;
    }
  }

  method FindLeast(tree: SplayTree<int>, ghost n: nat) returns (ghost visits: nat)
    requires tree.Valid() && tree.compare == Difference && Counted(tree.Elements(), n) && n > 0
    modifies tree`mRoot, tree`shape, tree.Nodes()
    ensures tree.Valid() && tree.shape == old(tree.shape) && visits == LeftLength(tree.shape)
  {
    hide SplayTree.Valid;
    ghost var t := tree.shape;
    var r;
    ghost var c;
    assert tree.Elements()[0].key == 0 && tree.Elements()[0] in tree.Elements();
    assert Difference(0, 0) == 0;
    tree.Orders();
    r, c, visits := tree.FindOrInsert(0);
    ghost var a, b :| t == Plug(c, Fork(a, r, b));
    FirstPlace(Difference, a, r, b, c);
  }
}
