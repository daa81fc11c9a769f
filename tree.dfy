/**
 * The shape of a `custom::BST<T>` (bst.h) as an abstract value.
 *
 * The C++ tree is a graph of heap nodes joined by owning `pLeft`/`pRight`
 * pointers and a non-owning `pParent` back-link.  Here the heap is an arena:
 * a sequence of `BNode` cells addressed by index, with `Null` for nullptr.
 * A ghost `Tree` records which cells are reachable from the root and how they
 * hang together; `Linked` says that the arena's links describe exactly that
 * tree.  Every node of the `Tree` carries its arena address and its value.
 */
module BstTree {

  /** An arena address; `Null` stands for nullptr. */
  type Ptr = int
  const Null: Ptr := -1

  /** The two child directions of a node. */
  datatype Dir = L | R

  function Flip(d: Dir): Dir {
    if d == L then R else L
  }

  /** One arena cell: `BST<T>::BNode` with `T = int`, without the never-read `isRed` flag. */
  datatype BNode = BNode(data: int, pLeft: Ptr, pRight: Ptr, pParent: Ptr)

  /** The child pointer of a cell in direction `d`. */
  function Link(n: BNode, d: Dir): Ptr {
    if d == L then n.pLeft else n.pRight
  }

  /** `n` with its `d` child pointer set to `v`. */
  function Link'(n: BNode, d: Dir, v: Ptr): (m: BNode)
    ensures Link(m, d) == v && Link(m, Flip(d)) == Link(n, Flip(d))
    ensures m.data == n.data && m.pParent == n.pParent
  {
    if d == L then n.(pLeft := v) else n.(pRight := v)
  }

  /**
   * `BNode::addLeft`/`addRight` on an arena: cell `c` (unless nullptr) gets
   * `n` as its parent, then `n` points at `c` in direction `d`.
   */
  function Hang(ns: seq<BNode>, n: Ptr, d: Dir, c: Ptr): seq<BNode> {
    var ns1 := if 0 <= c < |ns| then ns[c := ns[c].(pParent := n)] else ns;
    if 0 <= n < |ns1| then ns1[n := Link'(ns1[n], d, c)] else ns1
  }

  /** The values held by the cells of an arena, reachable or not. */
  function Payload(ns: seq<BNode>): (vs: seq<int>)
    ensures |vs| == |ns| && forall i | 0 <= i < |ns| :: vs[i] == ns[i].data
  {
    seq(|ns|, i requires 0 <= i < |ns| => ns[i].data)
  }

  /** The reachable tree: each node records its arena address `id` and its value `key`. */
  datatype Tree = Nil | Node(left: Tree, id: nat, key: int, right: Tree)

  /** The pointer that refers to a subtree: its root's address, or `Null` for the empty tree. */
  function Root(t: Tree): Ptr {
    if t.Nil? then Null else t.id
  }

  function Child(t: Tree, d: Dir): Tree
    requires t.Node?
  {
    if d == L then t.left else t.right
  }

  function WithChild(t: Tree, d: Dir, c: Tree): Tree
    requires t.Node?
  {
    if d == L then t.(left := c) else t.(right := c)
  }

  /** The addresses of the nodes reachable in `t`. */
  function Ids(t: Tree): set<nat> {
    match t
    case Nil => {}
    case Node(l, i, _, r) => Ids(l) + {i} + Ids(r)
  }

  /** The addresses of `t` in in-order (the order the iterator visits them). */
  function Order(t: Tree): seq<nat> {
    match t
    case Nil => []
    case Node(l, i, _, r) => Order(l) + [i] + Order(r)
  }

  /** The values of `t` in in-order: what a traversal from begin() to end() yields. */
  function Contents(t: Tree): seq<int> {
    match t
    case Nil => []
    case Node(l, _, k, r) => Contents(l) + [k] + Contents(r)
  }

  /** No address occurs twice: the links form a tree, not a DAG or a cycle. */
  predicate Distinct(t: Tree) {
    match t
    case Nil => true
    case Node(l, i, _, r) =>
      Distinct(l) && Distinct(r) && i !in Ids(l) && i !in Ids(r) && Ids(l) !! Ids(r)
  }

  /** The BST order of bst.h: left subtree < node <= right subtree (duplicates go right). */
  predicate Ordered(t: Tree) {
    match t
    case Nil => true
    case Node(l, _, k, r) =>
      Ordered(l) && Ordered(r) &&
      (forall v | v in Contents(l) :: v < k) &&
      (forall v | v in Contents(r) :: k <= v)
  }

  /**
   * The arena `ns` holds `t` hanging below the node `par`: every node's cell
   * carries its value, points at the roots of its two subtrees, and points
   * back at its parent.
   */
  predicate Linked(t: Tree, par: Ptr, ns: seq<BNode>) {
    match t
    case Nil => true
    case Node(l, i, k, r) =>
      i < |ns| && ns[i] == BNode(k, Root(l), Root(r), par) &&
      Linked(l, i, ns) && Linked(r, i, ns)
  }

  /** The subtree reached from the root of `t` by following the directions `p`. */
  function Sub(t: Tree, p: seq<Dir>): Tree
    decreases |p|
  {
    if p == [] then t
    else match t
      case Nil => Nil
      case Node(_, _, _, _) => Sub(Child(t, p[0]), p[1..])
  }

  /** `t` with the subtree at path `p` replaced by `s`. */
  function Replace(t: Tree, p: seq<Dir>, s: Tree): Tree
    decreases |p|
  {
    if p == [] then s
    else match t
      case Nil => Nil
      case Node(_, _, _, _) => WithChild(t, p[0], Replace(Child(t, p[0]), p[1..], s))
  }

  /** The parent address of the node at path `p`, when `t` hangs below `par`. */
  function ParentAt(t: Tree, par: Ptr, p: seq<Dir>): Ptr
    decreases |p|
  {
    if p == [] then par
    else match t
      case Nil => Null
      case Node(_, i, _, _) => ParentAt(Child(t, p[0]), i, p[1..])
  }

  /** The path from the root of `t` to the node with address `x`. */
  function PathTo(t: Tree, x: nat): seq<Dir>
    requires x in Ids(t)
  {
    match t
    case Node(l, i, _, r) =>
      if x == i then []
      else if x in Ids(l) then [L] + PathTo(l, x)
      else [R] + PathTo(r, x)
  }

  /** A path that only turns left: the walk from a subtree's root towards its minimum. */
  predicate AllLeft(p: seq<Dir>) {
    forall j | 0 <= j < |p| :: p[j] == L
  }

  /** Number of nodes of `t`. */
  function NodeCount(t: Tree): nat {
    match t
    case Nil => 0
    case Node(l, _, _, r) => NodeCount(l) + 1 + NodeCount(r)
  }

  /** `t` with its addresses erased: the shape and values that a deep copy reproduces. */
  function Strip(t: Tree): Tree {
    match t
    case Nil => Nil
    case Node(l, _, k, r) => Node(Strip(l), 0, k, Strip(r))
  }

  // ---------------------------------------------------------------------
  // Basic facts about the abstraction
  // ---------------------------------------------------------------------

  /** In-order addresses and in-order values line up, and both list every node once. */
  lemma {:induction false} OrderContents(t: Tree)
    ensures |Order(t)| == |Contents(t)| == NodeCount(t)
    ensures forall i :: i in Order(t) <==> i in Ids(t)
  {
    match t
    case Nil =>
    case Node(l, _, _, r) =>
      OrderContents(l);
      OrderContents(r);
  }

  /** Trees of equal shape and values have the same traversal and are ordered alike. */
  lemma {:induction false} StripSame(a: Tree, b: Tree)
    requires Strip(a) == Strip(b)
    ensures Contents(a) == Contents(b) && |Order(a)| == |Order(b)|
    ensures Ordered(a) <==> Ordered(b)
  {
    match a
    case Nil =>
    case Node(l, _, _, r) =>
      StripSame(l, b.left);
      StripSame(r, b.right);
      OrderContents(a);
      OrderContents(b);
  }

  /** No element of `s` occurs twice. */
  predicate NoDup<X(==)>(s: seq<X>) {
    forall a, b | 0 <= a < b < |s| :: s[a] != s[b]
  }

  lemma NoDupConcat<X>(s: seq<X>, u: seq<X>)
    requires NoDup(s) && NoDup(u)
    requires forall x | x in s :: x !in u
    ensures NoDup(s + u)
  {
    var c := s + u;
    forall a, b | 0 <= a < b < |c| ensures c[a] != c[b] {
      if a < |s| && b >= |s| {
        assert c[a] in s && c[b] == u[b - |s|];
      }
    }
  }

  /** A tree with distinct addresses lists each address once in in-order. */
  lemma {:induction false} OrderDistinct(t: Tree)
    requires Distinct(t)
    ensures NoDup(Order(t))
  {
    match t
    case Nil =>
    case Node(l, i, _, r) =>
      OrderDistinct(l);
      OrderDistinct(r);
      OrderContents(l);
      OrderContents(r);
      NoDupConcat(Order(l), [i]);
      NoDupConcat(Order(l) + [i], Order(r));
  }

  /** A linked tree only uses addresses inside the arena. */
  lemma {:induction false} LinkedBound(t: Tree, par: Ptr, ns: seq<BNode>)
    requires Linked(t, par, ns)
    ensures forall i | i in Ids(t) :: i < |ns|
  {
    match t
    case Nil =>
    case Node(l, i, _, r) =>
      LinkedBound(l, i, ns);
      LinkedBound(r, i, ns);
  }

  // ---------------------------------------------------------------------
  // Paths
  // ---------------------------------------------------------------------

  lemma {:induction false} SubIds(t: Tree, p: seq<Dir>)
    ensures Ids(Sub(t, p)) <= Ids(t)
    decreases |p|
  {
    if p != [] && t.Node? {
      SubIds(Child(t, p[0]), p[1..]);
    }
  }

  lemma {:induction false} SubDistinct(t: Tree, p: seq<Dir>)
    requires Distinct(t)
    ensures Distinct(Sub(t, p))
    decreases |p|
  {
    if p != [] && t.Node? {
      SubDistinct(Child(t, p[0]), p[1..]);
    }
  }

  lemma {:induction false} SubOrdered(t: Tree, p: seq<Dir>)
    requires Ordered(t)
    ensures Ordered(Sub(t, p))
    decreases |p|
  {
    if p != [] && t.Node? {
      SubOrdered(Child(t, p[0]), p[1..]);
    }
  }

  /** A non-empty sequence is its front followed by its last element. */
  lemma SplitLast<X>(s: seq<X>)
    requires s != []
    ensures s == s[..|s| - 1] + [s[|s| - 1]]
  {
  }

  /** Extending a path by one step descends one level from the subtree it reaches. */
  lemma {:induction false} SubSnoc(t: Tree, p: seq<Dir>, d: Dir)
    ensures Sub(t, p + [d]) == if Sub(t, p).Nil? then Nil else Child(Sub(t, p), d)
    decreases |p|
  {
    if p == [] {
      assert p + [d] == [d];
    } else if t.Node? {
      assert (p + [d])[1..] == p[1..] + [d];
      SubSnoc(Child(t, p[0]), p[1..], d);
    }
  }

  /** The parent of the node at `p + [d]` is the node at `p`. */
  lemma {:induction false} ParentAtSnoc(t: Tree, par: Ptr, p: seq<Dir>, d: Dir)
    requires Sub(t, p).Node?
    ensures ParentAt(t, par, p + [d]) == Root(Sub(t, p))
    decreases |p|
  {
    if p == [] {
      assert p + [d] == [d];
    } else {
      assert (p + [d])[1..] == p[1..] + [d];
      ParentAtSnoc(Child(t, p[0]), t.id, p[1..], d);
    }
  }

  lemma {:induction false} PathToSpec(t: Tree, x: nat)
    requires x in Ids(t)
    ensures Sub(t, PathTo(t, x)).Node? && Sub(t, PathTo(t, x)).id == x
  {
    match t
    case Node(l, i, _, r) =>
      if x == i {
      } else if x in Ids(l) {
        PathToSpec(l, x);
        assert PathTo(t, x)[1..] == PathTo(l, x);
      } else {
        PathToSpec(r, x);
        assert PathTo(t, x)[1..] == PathTo(r, x);
      }
  }

  /** The subtree at a non-empty path lies inside the child that the path enters first. */
  lemma {:induction false} SubInChild(t: Tree, p: seq<Dir>)
    requires p != [] && Sub(t, p).Node?
    ensures t.Node? && Sub(t, p).id in Ids(Child(t, p[0]))
  {
    SubIds(Child(t, p[0]), p[1..]);
  }

  /** Replacing at `p + [d]` is replacing the node at `p` by a copy with a new `d` child. */
  lemma {:induction false} ReplaceSnoc(t: Tree, p: seq<Dir>, d: Dir, s: Tree)
    requires Sub(t, p).Node?
    ensures Replace(t, p + [d], s) == Replace(t, p, WithChild(Sub(t, p), d, s))
    decreases |p|
  {
    if p == [] {
      assert p + [d] == [d];
      assert [d][1..] == [];
    } else {
      assert (p + [d])[1..] == p[1..] + [d];
      ReplaceSnoc(Child(t, p[0]), p[1..], d, s);
    }
  }
}
